/**
 Reading a byte range over HTTP: the Range header, the two good status codes, skipping to the
 offset in a full body, and filling the caller's buffer from a stream that arrives in pieces.
 Sections 14.1.2, 14.2 and 15.3.7 of RFC 9110 say what a compliant server sends.
 */
module HttpRead {
  import opened Common
  import opened Cache

  const STATUS_OK := 200
  const STATUS_PARTIAL := 206

  /** How a body stops: cleanly, cut short of its announced length, or with another error. */
  datatype Ending = CleanEnd | CutShort | Broken

  /** A response: status, the bytes that arrive, and how they stop. */
  datatype Response = Response(status: int, data: seq<byte>, ending: Ending)

  /** The Range header's numbers; both ends are inclusive. */
  function RangeHeader(offset: int, size: int): (int, int) {
    (offset, offset + size - 1)
  }

  /* ---------- What one call yields ---------- */

  /** How many bytes of the body come before the wanted ones. */
  function Skip(r: Response, offset: int): nat {
    if r.status == STATUS_OK && offset > 0 then offset else 0
  }

  /** The bytes put into a buffer of length `room`, or nothing if the call fails. */
  function Fetch(r: Response, room: nat, offset: int, size: nat): Option<seq<byte>> {
    if room < size then None
    else if r.status != STATUS_PARTIAL && r.status != STATUS_OK then None
    else if Skip(r, offset) > |r.data| then None
    else
      var rest := r.data[Skip(r, offset)..];
      if |rest| < size && r.ending == Broken then None else Some(rest[..Min(size, |rest|)])
  }

  /**
   Exactly when a call succeeds, and with which bytes: the buffer must be big enough, the status one of
   the two, the body long enough for the skip, and what follows must not break off before it is enough.
   A body that just ends, even right after the skip, is a short read.
   */
  lemma FetchMeaning(r: Response, room: nat, offset: int, size: nat)
    ensures var skip := if r.status == 200 && offset > 0 then offset else 0;
            && (Fetch(r, room, offset, size).Some? <==>
                  && size <= room && (r.status == 200 || r.status == 206) && skip <= |r.data|
                  && (|r.data| - skip >= size || !r.ending.Broken?))
            && (Fetch(r, room, offset, size).Some? ==>
                  var n := Min(size, |r.data| - skip);
                  Fetch(r, room, offset, size).value == r.data[skip..skip + n])
  {
  }

  /** What a compliant server puts into a 206 for an inclusive range that starts inside the file. */
  function PartialBody(content: seq<byte>, first: int, last: int): seq<byte>
    requires 0 <= first < |content| && first <= last
  {
    content[first..Min(last + 1, |content|)]
  }

  /** The Range header asks for exactly the window that is wanted. */
  lemma HeaderAsksForWindow(content: seq<byte>, offset: nat, size: nat)
    requires offset < |content| && size >= 1
    ensures var (first, last) := RangeHeader(offset, size);
            first <= last && PartialBody(content, first, last) == Window(content, offset, size)
  {
  }

  /**
   Both ways of answering give the same bytes: the wanted window of the file, clamped to its end,
   however the body stops short of an error.
   */
  lemma PartialAndFullAgree(content: seq<byte>, room: nat, offset: nat, size: nat, e: Ending, e': Ending)
    requires offset < |content| && 1 <= size <= room && e != Broken && e' != Broken
    ensures var (first, last) := RangeHeader(offset, size);
            var partial := Fetch(Response(STATUS_PARTIAL, PartialBody(content, first, last), e), room, offset, size);
            var full := Fetch(Response(STATUS_OK, content, e'), room, offset, size);
            partial == full == Some(content[offset..Min(offset + size, |content|)])
  {
    var rest := content[offset..];
    assert rest[..Min(size, |rest|)] == content[offset..Min(offset + size, |content|)];
    var part := PartialBody(content, offset, offset + size - 1);
    assert part[0..] == part;
    assert part[..Min(size, |part|)] == part;
  }

  /** A response that a compliant server may give for this file, complete or cut off anywhere. */
  ghost predicate Compliant(r: Response, content: seq<byte>, offset: nat, size: nat) {
    && (r.status == STATUS_OK ==> r.data <= content)
    && (r.status == STATUS_PARTIAL ==>
          && offset < |content| && size > 0
          && r.data <= PartialBody(content, RangeHeader(offset, size).0, RangeHeader(offset, size).1))
  }

  /** The bytes of one call: the body behind the skip, as far as the body and the request go. */
  lemma FetchedBytes(r: Response, room: nat, offset: nat, size: nat)
    requires Fetch(r, room, offset, size).Some?
    ensures var bytes := Fetch(r, room, offset, size).value;
            var skip := Skip(r, offset);
            && (r.status == STATUS_OK || r.status == STATUS_PARTIAL)
            && skip + |bytes| <= |r.data| && |bytes| <= size && bytes == r.data[skip..skip + |bytes|]
  {
  }

  lemma FullBodyIsWindow(data: seq<byte>, content: seq<byte>, offset: nat, size: nat, n: nat)
    requires data <= content && offset + n <= |data| && n <= size
    ensures data[offset..offset + n] == Window(content, offset, size)[..n]
  {
    assert data[offset..offset + n] == content[offset..offset + n];
    assert content[offset..offset + n] == Window(content, offset, size)[..n];
  }

  lemma PartialBodyIsWindow(data: seq<byte>, content: seq<byte>, offset: nat, size: nat, n: nat)
    requires offset < |content| && size > 0 && data <= PartialBody(content, offset, offset + size - 1) && n <= |data|
    ensures n <= |Window(content, offset, size)| && data[0..n] == Window(content, offset, size)[..n]
  {
    assert PartialBody(content, offset, offset + size - 1) == Window(content, offset, size);
  }

  /** With a compliant server the adapter is honest in the sense the cache relies on. */
  lemma CompliantIsHonest(r: Response, content: seq<byte>, room: nat, offset: nat, size: nat)
    requires Compliant(r, content, offset, size) && Fetch(r, room, offset, size).Some?
    ensures var bytes := Fetch(r, room, offset, size).value;
            Honest(content, offset, size, bytes, |bytes|)
  {
    FetchedBytes(r, room, offset, size);
    hide Fetch, Window, PartialBody;
    var bytes := Fetch(r, room, offset, size).value;
    if r.status == STATUS_OK {
      FullBodyIsWindow(r.data, content, offset, size, |bytes|);
    } else {
      PartialBodyIsWindow(r.data, content, offset, size, |bytes|);
    }
    assert bytes[..|bytes|] == bytes;
  }

  /**
   The Content-Range of a 206 is not looked at.  A 206 that encloses the range from `first` is taken
   for the file's bytes at `offset`, which is right for all files exactly when the two are equal.
   */
  lemma PartialHonestIffRangeMatches(first: nat, offset: nat, size: nat)
    requires size >= 1
    ensures first == offset <==>
            forall content: seq<byte> :: first < |content| ==>
              Misplaced(content, first, offset, size) <= Window(content, offset, size)
  {
    hide Misplaced, Window;
    if first == offset {
      forall content: seq<byte> | first < |content|
        ensures Misplaced(content, first, offset, size) <= Window(content, offset, size)
      {
        MisplacedBody(content, first, offset, size);
      }
    } else {
      var content := MisplacedWitness(first, offset, size);
    }
  }

  /** Whatever the offset asked for, the bytes are those from `first` on. */
  lemma MisplacedBody(content: seq<byte>, first: nat, offset: nat, size: nat)
    requires first < |content| && size >= 1
    ensures Misplaced(content, first, offset, size) == Window(content, first, size)
    ensures Misplaced(content, first, offset, size)[0] == content[first]
  {
    var body := PartialBody(content, first, first + size - 1);
    assert body[0..] == body && body[..Min(size, |body|)] == body;
    assert body == Window(content, first, size);
  }

  lemma MisplacedWitness(first: nat, offset: nat, size: nat) returns (content: seq<byte>)
    requires size >= 1 && first != offset
    ensures first < |content| && !(Misplaced(content, first, offset, size) <= Window(content, offset, size))
  {
    content := seq(first + offset + 1, i => if i == first then 1 else 0);
    MisplacedBody(content, first, offset, size);
    hide Misplaced;
    assert content[first] == 1 && content[offset] == 0;
    assert Window(content, offset, size)[0] == content[offset];
  }

  /** What a request at `offset` returns when a complete 206 encloses the range from `first` instead. */
  function Misplaced(content: seq<byte>, first: nat, offset: nat, size: nat): (r: seq<byte>)
    requires first < |content| && size >= 1
    ensures |r| >= 1
  {
    var body := PartialBody(content, first, first + size - 1);
    assert body[0..] == body && |body| <= size;
    Fetch(Response(STATUS_PARTIAL, body, CleanEnd), size, offset, size).value
  }

  /* ---------- The stream ---------- */

  /** A response body being read; `chunk` decides how much the network delivers at each position. */
  class Body {
    const response: Response
    const chunk: nat -> nat
    var pos: nat

    ghost predicate Valid()
      reads this
    {
      pos <= |response.data|
    }

    constructor (response: Response, chunk: nat -> nat)
      ensures Valid() && this.response == response && this.chunk == chunk && pos == 0
    {
      this.response := response;
      this.chunk := chunk;
      pos := 0;
    }

    /** Delivers at least one byte unless the body is at its end. */
    method Read(max: nat) returns (bytes: seq<byte>, end: Option<Ending>)
      requires Valid() && max > 0
      modifies this
      ensures Valid() && pos == old(pos) + |bytes| && |bytes| <= max
      ensures bytes == response.data[old(pos)..pos]
      ensures bytes == [] <==> end.Some?
      ensures end.Some? <==> old(pos) == |response.data|
      ensures end.Some? ==> end.value == response.ending
    {
      if pos == |response.data| {
        return [], Some(response.ending);
      }
      var n := Min(max, Min(|response.data| - pos, 1 + chunk(pos)));
      bytes := response.data[pos..pos + n];
      pos := pos + n;
      end := None;
    }
  }

  /** `io.CopyN(io.Discard, body, n)`: succeeds exactly when the body has that many bytes left. */
  method Discard(body: Body, n: nat) returns (done: bool)
    requires body.Valid()
    modifies body
    ensures body.Valid()
    ensures done <==> n <= |body.response.data| - old(body.pos)
    ensures body.pos == Min(old(body.pos) + n, |body.response.data|)
  {
    var left := n;
    done := true;
    while left > 0 && done
      invariant body.Valid() && 0 <= left <= n
      invariant body.pos == old(body.pos) + n - left
      invariant !done ==> left > 0 && body.pos == |body.response.data|
      decreases left, done
    {
      var bytes, end := body.Read(left);
      left := left - |bytes|;
      done := end.None?;
    }
  }

  /**
   `io.ReadFull(body, buf[:size])`: fills the front of the buffer as far as the body goes and leaves
   the rest of it alone.
   */
  method ReadFull(body: Body, buf: array<byte>, size: nat) returns (n: nat, end: Option<Ending>)
    requires body.Valid() && size <= buf.Length
    modifies body, buf
    ensures body.Valid()
    ensures n == Min(size, |body.response.data| - old(body.pos))
    ensures buf[..n] == body.response.data[old(body.pos)..old(body.pos) + n]
    ensures buf[n..] == old(buf[..])[n..]
    ensures end.None? <==> n == size
    ensures end.Some? ==> end.value == body.response.ending
  {
    n, end := 0, None;
    ghost var data, start, was := body.response.data, body.pos, buf[..];
    while n < size && end.None?
      invariant body.Valid() && n <= size && body.pos == start + n
      invariant buf[..n] == data[start..start + n] && buf[n..] == was[n..]
      invariant end.Some? ==> n < size && body.pos == |data| && end.value == body.response.ending
      decreases size - n, end.None?
    {
      n, end := ReadSome(body, buf, n, size, start, was);
    }
  }

  /** One read of the loop: the filled front of the buffer grows, or the body has ended. */
  method ReadSome(body: Body, buf: array<byte>, n: nat, size: nat, ghost start: nat, ghost was: seq<byte>)
    returns (m: nat, end: Option<Ending>)
    requires body.Valid() && n < size <= buf.Length && body.pos == start + n && |was| == buf.Length
    requires buf[..n] == body.response.data[start..start + n] && buf[n..] == was[n..]
    modifies body, buf
    ensures body.Valid() && n <= m <= size && body.pos == start + m
    ensures buf[..m] == body.response.data[start..start + m] && buf[m..] == was[m..]
    ensures m == n <==> end.Some?
    ensures end.Some? ==> body.pos == |body.response.data| && end.value == body.response.ending
  {
    ghost var data, front := body.response.data, buf[..n];
    var bytes;
    bytes, end := body.Read(size - n);
    Put(buf, n, bytes);
    m := n + |bytes|;
    assert buf[..m] == front + bytes && bytes == data[start + n..start + m];
    JoinWindows(data, start, start + n, start + m);
    assert buf[m..] == was[n..][|bytes|..] == was[m..];
  }

  lemma JoinWindows(data: seq<byte>, a: nat, b: nat, c: nat)
    requires a <= b <= c <= |data|
    ensures data[a..b] + data[b..c] == data[a..c]
  {
  }

  /** Copies bytes into the buffer at a position. */
  method Put(buf: array<byte>, at: nat, bytes: seq<byte>)
    requires at + |bytes| <= buf.Length
    modifies buf
    ensures buf[..at] == old(buf[..at])
    ensures buf[at..at + |bytes|] == bytes
    ensures buf[at + |bytes|..] == old(buf[at + |bytes|..])
  {
    for i := 0 to |bytes|
      invariant buf[..at] == old(buf[..at])
      invariant buf[at..at + i] == bytes[..i]
      invariant buf[at + |bytes|..] == old(buf[at + |bytes|..])
    {
      buf[at + i] := bytes[i];
      assert buf[at..at + i + 1] == buf[at..at + i] + [buf[at + i]];
      assert bytes[..i + 1] == bytes[..i] + [bytes[i]];
    }
  }

  /**
   `HTTPAdapter.Read` once the client has a response: what it puts into the buffer does not depend
   on how the network cuts the body into pieces.
   */
  method ReadRange(body: Body, offset: int, size: nat, buf: array<byte>) returns (n: nat, works: bool)
    requires body.Valid() && body.pos == 0
    modifies body, buf
    ensures works <==> Fetch(body.response, buf.Length, offset, size).Some?
    ensures works ==> var bytes := Fetch(body.response, buf.Length, offset, size).value;
                      n == |bytes| && n <= buf.Length && buf[..n] == bytes && buf[n..] == old(buf[..])[n..]
    ensures !works ==> n == 0
    ensures var r := body.response;
            var skip := if r.status == 200 && offset > 0 then offset else 0;
            && (works <==>
                  && size <= buf.Length && (r.status == 200 || r.status == 206) && skip <= |r.data|
                  && (|r.data| - skip >= size || !r.ending.Broken?))
            && (works ==> n == Min(size, |r.data| - skip) && buf[..n] == r.data[skip..skip + n])
  {
    FetchMeaning(body.response, buf.Length, offset, size);
    hide Fetch;
    if buf.Length < size {
      return 0, false;
    }
    var status := body.response.status;
    if status != STATUS_PARTIAL && status != STATUS_OK {
      return 0, false;
    }
    if status == STATUS_OK {
      if offset > 0 {
        var done := Discard(body, offset);
        if !done {
          return 0, false;
        }
      }
    }
    assert body.pos == Skip(body.response, offset);
    var end;
    n, end := ReadFull(body, buf, size);
    if end == Some(Broken) {
      return 0, false;
    }
    works := true;
    ghost var skip := Skip(body.response, offset);
    assert body.response.data[skip..][..n] == body.response.data[skip..skip + n];
  }
}
