/**
 The data cache of one inode as a value, and any number of readers interleaved with each other,
 with failing adapters and with clears of the cache.
 */
module Cache {
  import opened Common

  const LIMIT: int := 0x8000_0000_0000_0000

  predicate Fits64(x: int) {
    -LIMIT <= x < LIMIT
  }

  /** 64-bit signed wrap-around. */
  function Wrap(x: int): (r: int)
    ensures Fits64(r)
    ensures Fits64(x) ==> r == x
  {
    (x + LIMIT) % (2 * LIMIT) - LIMIT
  }

  /** `end` is exclusive. */
  datatype Range = Range(start: int, end: int, data: seq<byte>)

  /** Ranges as `store` makes them, the end computed with wrap-around. */
  predicate Stored(r: Range) {
    Fits64(r.start) && r.data != [] && |r.data| < LIMIT && r.end == Wrap(r.start + |r.data|)
  }

  predicate AllStored(ranges: seq<Range>) {
    forall i :: 0 <= i < |ranges| ==> Stored(ranges[i])
  }

  datatype Found = Hit(data: seq<byte>) | Miss | OutOfBounds

  /** The test that `get` and `isCached` share, on 64-bit numbers. */
  predicate Matches(r: Range, offset: int, size: int) {
    r.start <= offset && r.end >= Wrap(offset + size)
  }

  /** Cutting the request out of a range; Go panics when the indices are out of bounds. */
  function CutOut(r: Range, offset: int, size: int): Found {
    var lo := Wrap(offset - r.start);
    var hi := Wrap(lo + size);
    if 0 <= lo <= hi <= |r.data| then Hit(r.data[lo..hi]) else OutOfBounds
  }

  /** `dataCache.get`: the first range that contains the request. */
  function Get(ranges: seq<Range>, offset: int, size: int): Found {
    if ranges == [] then Miss
    else if Matches(ranges[0], offset, size) then CutOut(ranges[0], offset, size)
    else Get(ranges[1..], offset, size)
  }

  /** `dataCache.store`: empty data is not kept; ranges are never merged. */
  function Store(ranges: seq<Range>, offset: int, data: seq<byte>): seq<Range> {
    if data == [] then ranges else ranges + [Range(offset, Wrap(offset + |data|), data)]
  }

  /** A request that reaches the cache: both numbers are 64-bit, sizes come from an unsigned field. */
  predicate Request(offset: int, size: int) {
    Fits64(offset) && 0 <= size < LIMIT
  }

  /** `isCached`. */
  predicate IsCached(ranges: seq<Range>, offset: int, size: int) {
    exists i :: 0 <= i < |ranges| && Matches(ranges[i], offset, size)
  }

  lemma StoreKeepsStored(ranges: seq<Range>, offset: int, data: seq<byte>)
    requires AllStored(ranges) && Fits64(offset) && |data| < LIMIT
    ensures AllStored(Store(ranges, offset, data))
  {
  }

  lemma WrapsOnce(x: int)
    requires LIMIT <= x < 3 * LIMIT
    ensures Wrap(x) == x - 2 * LIMIT
  {
  }

  /** Cutting a request out of a range that starts at or before it works exactly if it ends there too. */
  lemma CutOutMeaning(r: Range, offset: int, size: int)
    requires Stored(r) && Request(offset, size) && r.start <= offset
    ensures CutOut(r, offset, size) ==
            if offset + size <= r.start + |r.data| then Hit(r.data[offset - r.start..offset - r.start + size])
            else OutOfBounds
  {
    if offset - r.start >= LIMIT {
      WrapsOnce(offset - r.start);
    } else if offset - r.start + size >= LIMIT {
      WrapsOnce(offset - r.start + size);
    }
  }

  /** A range that passes the test but is too short: only with an overflow of the request alone. */
  lemma MatchOutOfBoundsIff(r: Range, offset: int, size: int)
    requires Stored(r) && Request(offset, size) && Matches(r, offset, size)
    ensures CutOut(r, offset, size) == OutOfBounds <==> offset + size >= LIMIT && r.start + |r.data| < LIMIT
    ensures offset + size < LIMIT ==> offset + size <= r.end == r.start + |r.data|
  {
    CutOutMeaning(r, offset, size);
    if r.start + |r.data| >= LIMIT {
      WrapsOnce(r.start + |r.data|);
    }
    if offset + size >= LIMIT {
      WrapsOnce(offset + size);
    }
  }

  /** Range `i` is the one that `get` takes. */
  predicate FirstMatch(ranges: seq<Range>, i: nat, offset: int, size: int) {
    && i < |ranges| && Matches(ranges[i], offset, size)
    && forall k :: 0 <= k < i ==> !Matches(ranges[k], offset, size)
  }

  lemma {:induction false} GetTakesFirstMatch(ranges: seq<Range>, offset: int, size: int)
    ensures Get(ranges, offset, size) == Miss ==> !IsCached(ranges, offset, size)
    ensures Get(ranges, offset, size) != Miss ==>
              exists i: nat ::
                FirstMatch(ranges, i, offset, size) && Get(ranges, offset, size) == CutOut(ranges[i], offset, size)
    decreases |ranges|
  {
    if ranges != [] {
      var rest := ranges[1..];
      if Matches(ranges[0], offset, size) {
        assert FirstMatch(ranges, 0, offset, size);
      } else {
        GetTakesFirstMatch(rest, offset, size);
        if Get(rest, offset, size) != Miss {
          var i: nat :| FirstMatch(rest, i, offset, size) && Get(rest, offset, size) == CutOut(rest[i], offset, size);
          assert forall k :: 0 <= k < i ==> rest[k] == ranges[k + 1];
          assert FirstMatch(ranges, i + 1, offset, size);
        }
      }
    }
  }

  /** The end of the request overflows, and that of the first range passing the test does not. */
  ghost predicate Overruns(ranges: seq<Range>, offset: int, size: int) {
    && offset + size >= LIMIT
    && exists i: nat :: FirstMatch(ranges, i, offset, size) && ranges[i].start + |ranges[i].data| < LIMIT
  }

  /** Exactly then `get` indexes out of bounds.  So requests that end below 2^63 are always safe. */
  lemma GetOutOfBoundsIff(ranges: seq<Range>, offset: int, size: int)
    requires AllStored(ranges) && Request(offset, size)
    ensures Get(ranges, offset, size) == OutOfBounds <==> Overruns(ranges, offset, size)
  {
    GetTakesFirstMatch(ranges, offset, size);
    hide Get, Matches, CutOut;
    if Get(ranges, offset, size) != Miss {
      var i: nat :| FirstMatch(ranges, i, offset, size) && Get(ranges, offset, size) == CutOut(ranges[i], offset, size);
      MatchOutOfBoundsIff(ranges[i], offset, size);
      assert forall j: nat :: FirstMatch(ranges, j, offset, size) ==> j == i;
    }
  }

  /** One cached byte and a request of one byte at the last 64-bit offset: `get` panics. */
  lemma OverflowPanics()
    ensures Store([], 0, [7]) == [Range(0, 1, [7])] && Request(LIMIT - 1, 1)
    ensures Get([Range(0, 1, [7])], LIMIT - 1, 1) == OutOfBounds
  {
    WrapsOnce(LIMIT);
  }

  /** The range lies in the cache as one piece. */
  ghost predicate Covered(ranges: seq<Range>, offset: int, size: int) {
    exists i :: 0 <= i < |ranges| && ranges[i].start <= offset && offset + size <= ranges[i].end
  }

  /** The request lies in the range. */
  predicate Contains(r: Range, offset: int, size: int) {
    0 <= size && r.start <= offset && offset + size <= r.end == r.start + |r.data|
  }

  /** The bytes that the range holds there. */
  function Part(r: Range, offset: int, size: int): seq<byte>
    requires Contains(r, offset, size)
  {
    r.data[offset - r.start..offset - r.start + size]
  }

  /** A hit is exactly a covered request, and gives `size` bytes that some range holds there. */
  lemma GetMeaning(ranges: seq<Range>, offset: int, size: int)
    requires AllStored(ranges) && Request(offset, size) && offset + size < LIMIT
    ensures Get(ranges, offset, size).Hit? <==> Covered(ranges, offset, size)
    ensures Get(ranges, offset, size).Miss? <==> !Covered(ranges, offset, size)
    ensures IsCached(ranges, offset, size) <==> Covered(ranges, offset, size)
    ensures Get(ranges, offset, size).Hit? ==>
              exists i: nat ::
                && FirstMatch(ranges, i, offset, size) && Contains(ranges[i], offset, size)
                && Get(ranges, offset, size).data == Part(ranges[i], offset, size)
  {
    GetTakesFirstMatch(ranges, offset, size);
    CachedIffCovered(ranges, offset, size);
    hide Get, CutOut, FirstMatch, IsCached, Covered, Stored, Contains, Part;
    if Get(ranges, offset, size) != Miss {
      var i: nat :| FirstMatch(ranges, i, offset, size) && Get(ranges, offset, size) == CutOut(ranges[i], offset, size);
      MatchMeaning(ranges, i, offset, size);
    }
  }

  lemma MatchMeaning(ranges: seq<Range>, i: nat, offset: int, size: int)
    requires AllStored(ranges) && Request(offset, size) && offset + size < LIMIT && FirstMatch(ranges, i, offset, size)
    ensures IsCached(ranges, offset, size)
    ensures Contains(ranges[i], offset, size)
    ensures CutOut(ranges[i], offset, size) == Hit(Part(ranges[i], offset, size))
  {
    MatchOutOfBoundsIff(ranges[i], offset, size);
    CutOutMeaning(ranges[i], offset, size);
  }

  lemma CachedIffCovered(ranges: seq<Range>, offset: int, size: int)
    requires Request(offset, size) && offset + size < LIMIT
    ensures IsCached(ranges, offset, size) <==> Covered(ranges, offset, size)
  {
  }

  /* ---------- Agreement with the file ---------- */

  /** The bytes of the file in a window, as far as the file goes. */
  function Window(content: seq<byte>, offset: int, size: int): seq<byte>
    requires 0 <= offset && 0 <= size
  {
    content[Min(offset, |content|)..Min(offset + size, |content|)]
  }

  /** Ranges of bytes that a file can have. */
  predicate Good(r: Range) {
    0 <= r.start && r.data != [] && r.end == r.start + |r.data| && r.end < LIMIT
  }

  predicate AllGood(ranges: seq<Range>) {
    forall i :: 0 <= i < |ranges| ==> Good(ranges[i])
  }

  /** Every cached range holds the file's own bytes. */
  ghost predicate Backed(ranges: seq<Range>, content: seq<byte>) {
    AllGood(ranges) &&
    forall i :: 0 <= i < |ranges| ==>
      ranges[i].end <= |content| && ranges[i].data == content[ranges[i].start..ranges[i].end]
  }

  lemma GoodIsStored(ranges: seq<Range>)
    requires AllGood(ranges)
    ensures AllStored(ranges)
  {
    forall i | 0 <= i < |ranges| ensures Stored(ranges[i]) {
      assert Good(ranges[i]);
    }
  }

  /** A hit returns exactly the requested bytes of the file. */
  lemma HitIsExact(ranges: seq<Range>, content: seq<byte>, offset: int, size: int)
    requires Backed(ranges, content) && Request(offset, size) && offset + size < LIMIT
    requires Get(ranges, offset, size).Hit?
    ensures 0 <= offset && offset + size <= |content|
    ensures Get(ranges, offset, size).data == content[offset..offset + size]
    ensures |Get(ranges, offset, size).data| == size
  {
    GoodIsStored(ranges);
    GetMeaning(ranges, offset, size);
    hide Get, CutOut, Part, Contains;
    var i: nat :| && FirstMatch(ranges, i, offset, size) && Contains(ranges[i], offset, size)
                  && Get(ranges, offset, size).data == Part(ranges[i], offset, size);
    assert Good(ranges[i]);
    RangeIsExact(ranges[i], content, offset, size);
  }

  lemma RangeIsExact(r: Range, content: seq<byte>, offset: int, size: int)
    requires Good(r) && r.end <= |content| && r.data == content[r.start..r.end]
    requires Contains(r, offset, size)
    ensures 0 <= offset && Part(r, offset, size) == content[offset..offset + size]
  {
  }

  /* ---------- Interleaved readers ---------- */

  /**
   How far a call of `Read` has come.  `buf` and `n` are the buffer and byte count that all the
   adapters of this call share; a failing adapter may leave anything in them.
   */
  datatype Phase =
    | Start
    | Fetching(buf: seq<byte>, n: int)
    | Fetched(buf: seq<byte>, n: int)
    | Returned(data: seq<byte>)
    | Failed

  datatype Reader = Reader(offset: int, size: int, phase: Phase)

  predicate Bounded(rd: Reader) {
    0 <= rd.offset && 0 <= rd.size && rd.offset + rd.size < LIMIT
  }

  datatype Action = NoAdapters | TakeHit | TakeMiss | AdapterFails | AdapterWorks | GiveUp | Keep

  /** On success an adapter has put a prefix of the window into the first `n` bytes. */
  predicate Honest(content: seq<byte>, offset: int, size: int, buf: seq<byte>, n: int) {
    && 0 <= offset && 0 <= size
    && 0 <= n <= |buf| && n <= size
    && buf[..n] <= Window(content, offset, size)
  }

  /** One step of a reader; each adapter call and each locked cache section is one step. */
  ghost predicate ReaderStep(content: seq<byte>, ranges: seq<Range>, rd: Reader, act: Action, ranges': seq<Range>,
          rd': Reader)
  {
    && rd'.offset == rd.offset && rd'.size == rd.size
    && match act
       case NoAdapters =>
         && rd.phase.Start? && ranges' == ranges && rd'.phase.Failed?
       case TakeHit =>
         && rd.phase.Start? && ranges' == ranges
         && Get(ranges, rd.offset, rd.size).Hit? && rd'.phase == Returned(Get(ranges, rd.offset, rd.size).data)
       case TakeMiss =>
         && rd.phase.Start? && ranges' == ranges && rd.size >= 0
         && Get(ranges, rd.offset, rd.size).Miss? && rd'.phase == Fetching(seq(rd.size, i => 0), 0)
       case AdapterFails =>
         && rd.phase.Fetching? && ranges' == ranges
         && rd'.phase.Fetching? && |rd'.phase.buf| == |rd.phase.buf|
       case AdapterWorks =>
         && rd.phase.Fetching? && ranges' == ranges
         && rd'.phase.Fetched? && |rd'.phase.buf| == |rd.phase.buf|
         && Honest(content, rd.offset, rd.size, rd'.phase.buf, rd'.phase.n)
       case GiveUp =>
         && rd.phase.Fetching? && ranges' == ranges && rd'.phase.Failed?
       case Keep =>
         && rd.phase.Fetched? && 0 <= rd.phase.n <= |rd.phase.buf|
         && ranges' == Store(ranges, rd.offset, rd.phase.buf[..rd.phase.n])
         && rd'.phase == Returned(rd.phase.buf[..rd.phase.n])
  }

  /** What a reader holds is true of the file. */
  ghost predicate ReaderOk(content: seq<byte>, rd: Reader) {
    && Bounded(rd)
    && (rd.phase.Fetching? || rd.phase.Fetched? ==> |rd.phase.buf| == rd.size)
    && (rd.phase.Fetched? ==> Honest(content, rd.offset, rd.size, rd.phase.buf, rd.phase.n))
    && (rd.phase.Returned? ==> rd.phase.data <= Window(content, rd.offset, rd.size))
  }

  lemma StoreBacked(content: seq<byte>, ranges: seq<Range>, offset: int, size: int, data: seq<byte>)
    requires Backed(ranges, content) && 0 <= offset && 0 <= size && offset + size < LIMIT
    requires data <= Window(content, offset, size)
    ensures Backed(Store(ranges, offset, data), content)
  {
    if data != [] {
      var w := Window(content, offset, size);
      assert data == w[..|data|];
      assert data == content[offset..offset + |data|];
    }
  }

  /** A step of a reader keeps the cache backed by the file and the reader's bytes true. */
  lemma ReaderStepKeeps(content: seq<byte>, ranges: seq<Range>, rd: Reader, act: Action, ranges': seq<Range>,
          rd': Reader)
    requires Backed(ranges, content) && ReaderOk(content, rd)
    requires ReaderStep(content, ranges, rd, act, ranges', rd')
    ensures Backed(ranges', content) && ReaderOk(content, rd')
  {
    if act == TakeHit {
      HitIsExact(ranges, content, rd.offset, rd.size);
    } else if act == Keep {
      StoreBacked(content, ranges, rd.offset, rd.size, rd.phase.buf[..rd.phase.n]);
    }
  }

  datatype State = State(ranges: seq<Range>, readers: map<nat, Reader>)

  /** What a step was: a reader's action, or a clear of the whole cache. */
  datatype Label = By(who: nat, act: Action) | Clear

  ghost predicate Init(s: State) {
    s.ranges == [] && forall i :: i in s.readers ==> Bounded(s.readers[i]) && s.readers[i].phase.Start?
  }

  ghost predicate Next(content: seq<byte>, s: State, l: Label, s': State) {
    match l
    case Clear => s' == s.(ranges := [])
    case By(i, act) =>
      && i in s.readers && i in s'.readers && s'.readers == s.readers[i := s'.readers[i]]
      && ReaderStep(content, s.ranges, s.readers[i], act, s'.ranges, s'.readers[i])
  }

  /** A run: one label for each pair of consecutive states. */
  ghost predicate Run(content: seq<byte>, states: seq<State>, labels: seq<Label>) {
    && |states| == |labels| + 1
    && forall k :: 0 <= k < |labels| ==> Next(content, states[k], labels[k], states[k + 1])
  }

  ghost predicate Inv(content: seq<byte>, s: State) {
    Backed(s.ranges, content) && forall i :: i in s.readers ==> ReaderOk(content, s.readers[i])
  }

  lemma NextInv(content: seq<byte>, s: State, l: Label, s': State)
    requires Inv(content, s) && Next(content, s, l, s')
    ensures Inv(content, s')
  {
    if l.By? {
      ReaderStepKeeps(content, s.ranges, s.readers[l.who], l.act, s'.ranges, s'.readers[l.who]);
    }
  }

  /**
   Transparency: in every interleaving, at every moment, each cached range holds the file's own
   bytes, and whatever a reader has returned is a prefix of the window it asked for.
   */
  lemma {:induction false} CacheIsTransparent(content: seq<byte>, states: seq<State>, labels: seq<Label>, k: nat)
    requires Run(content, states, labels) && Init(states[0]) && k < |states|
    ensures Inv(content, states[k])
  {
    if k > 0 {
      CacheIsTransparent(content, states, labels, k - 1);
      NextInv(content, states[k - 1], labels[k - 1], states[k]);
    }
  }

  /* ---------- Refinement of a read without a cache ---------- */

  /** A read without a cache: it is pending, failed, or served by an honest adapter in one step. */
  datatype Plain = Pending | Served(data: seq<byte>) | Gone

  function Abstract(ph: Phase): Plain {
    match ph
    case Returned(d) => Served(d)
    case Failed => Gone
    case _ => Pending
  }

  ghost predicate PlainStep(content: seq<byte>, offset: int, size: int, a: Plain, a': Plain) {
    && a.Pending?
    && (a'.Gone? || (a'.Served? && Honest(content, offset, size, a'.data, |a'.data|)))
  }

  /**
   The cached machine refines the plain one: each of its steps is, for every reader, no step at
   all or a step that an honest adapter alone could have brought about.
   */
  lemma CachedReadRefinesPlain(content: seq<byte>, s: State, l: Label, s': State, i: nat)
    requires Inv(content, s) && Next(content, s, l, s') && i in s.readers
    ensures i in s'.readers
    ensures var rd, rd' := s.readers[i], s'.readers[i];
            || Abstract(rd'.phase) == Abstract(rd.phase)
            || PlainStep(content, rd.offset, rd.size, Abstract(rd.phase), Abstract(rd'.phase))
  {
    NextInv(content, s, l, s');
    if l.By? && l.who == i && s'.readers[i].phase.Returned? {
      var rd' := s'.readers[i];
      assert ReaderOk(content, rd');
      assert rd'.phase.data[..|rd'.phase.data|] == rd'.phase.data;
    }
  }

  /* ---------- What has been read in full stays cached ---------- */

  /** A read of positive size that returns all its bytes leaves them covered. */
  lemma FullReadIsCovered(content: seq<byte>, s: State, l: Label, s': State)
    requires Inv(content, s) && Next(content, s, l, s') && l.By?
    requires !s.readers[l.who].phase.Returned? && s'.readers[l.who].phase.Returned?
    requires s.readers[l.who].size > 0 && |s'.readers[l.who].phase.data| == s.readers[l.who].size
    ensures Covered(s'.ranges, s.readers[l.who].offset, s.readers[l.who].size)
  {
    var rd := s.readers[l.who];
    if l.act == TakeHit {
      GetMeaning(s.ranges, rd.offset, rd.size);
    } else {
      var r := s'.ranges[|s'.ranges| - 1];
      assert r.start == rd.offset && r.end == rd.offset + rd.size;
    }
  }

  lemma NextKeepsCovered(content: seq<byte>, s: State, l: Label, s': State, offset: int, size: int)
    requires Next(content, s, l, s') && !l.Clear? && Covered(s.ranges, offset, size)
    ensures Covered(s'.ranges, offset, size)
  {
    var i :| 0 <= i < |s.ranges| && s.ranges[i].start <= offset && offset + size <= s.ranges[i].end;
    assert s'.ranges[i] == s.ranges[i];
  }

  lemma {:induction false} CoveredUntilClear(content: seq<byte>, states: seq<State>, labels: seq<Label>, j: nat,
          k: nat, offset: int, size: int)
    requires Run(content, states, labels) && j <= k < |states|
    requires forall m :: j <= m < k ==> !labels[m].Clear?
    requires Covered(states[j].ranges, offset, size)
    ensures Covered(states[k].ranges, offset, size)
    decreases k
  {
    if k > j {
      CoveredUntilClear(content, states, labels, j, k - 1, offset, size);
      NextKeepsCovered(content, states[k - 1], labels[k - 1], states[k], offset, size);
    }
  }

  /** Every part of a covered window is a hit, with the file's own bytes. */
  lemma PartIsHit(content: seq<byte>, ranges: seq<Range>, offset: int, size: int, o: int, n: int)
    requires Backed(ranges, content) && Covered(ranges, offset, size)
    requires offset <= o && 0 <= n && o + n <= offset + size && Fits64(o) && o + n < LIMIT
    ensures IsCached(ranges, o, n) && 0 <= o && o + n <= |content|
    ensures Get(ranges, o, n) == Hit(content[o..o + n])
  {
    var c :| 0 <= c < |ranges| && ranges[c].start <= offset && offset + size <= ranges[c].end;
    assert Covered(ranges, o, n);
    assert Good(ranges[c]);
    GoodIsStored(ranges);
    hide Covered, IsCached, Get;
    GetMeaning(ranges, o, n);
    HitIsExact(ranges, content, o, n);
  }

  /**
   Persistence: once a read of positive size has returned all its bytes, then as long as the cache
   is not cleared, every part of that window is cached and a read of it (the inode has adapters)
   has no step but the hit, which returns the matching slice of the file.
   */
  lemma FullReadStaysCached(content: seq<byte>, states: seq<State>, labels: seq<Label>, j: nat, k: nat, o: int, n: int,
          i: nat, act: Action, s': State)
    requires Run(content, states, labels) && Init(states[0])
    requires j < k < |states| && labels[j].By?
    requires labels[j].who in states[j].readers && labels[j].who in states[j + 1].readers
    requires var rd, rd' := states[j].readers[labels[j].who], states[j + 1].readers[labels[j].who];
             && !rd.phase.Returned? && rd'.phase.Returned? && rd.size > 0 && |rd'.phase.data| == rd.size
             && rd.offset <= o && 0 <= n && o + n <= rd.offset + rd.size
    requires forall m :: j < m < k ==> !labels[m].Clear?
    requires i in states[k].readers && states[k].readers[i].offset == o && states[k].readers[i].size == n
    requires states[k].readers[i].phase.Start? && Next(content, states[k], By(i, act), s') && act != NoAdapters
    ensures IsCached(states[k].ranges, o, n)
    ensures act == TakeHit && s'.ranges == states[k].ranges
    ensures 0 <= o && o + n <= |content| && s'.readers[i].phase == Returned(content[o..o + n])
  {
    CacheIsTransparent(content, states, labels, j);
    CacheIsTransparent(content, states, labels, k);
    var rd := states[j].readers[labels[j].who];
    FullReadIsCovered(content, states[j], labels[j], states[j + 1]);
    CoveredUntilClear(content, states, labels, j + 1, k, rd.offset, rd.size);
    assert ReaderOk(content, states[k].readers[i]);
    hide Run, Init, Covered, Backed, IsCached, Get;
    PartIsHit(content, states[k].ranges, rd.offset, rd.size, o, n);
  }

  /**
   Nothing outlives a clear: every cached range was stored by a reader, with just the bytes that it
   returned, and the cache has not been cleared since.
   */
  lemma {:induction false} RangeStoredSinceClear(content: seq<byte>, states: seq<State>, labels: seq<Label>, k: nat,
          r: Range)
    returns (j: nat)
    requires Run(content, states, labels) && Init(states[0]) && k < |states| && r in states[k].ranges
    ensures j < k && labels[j].By? && labels[j].act == Keep && forall m :: j < m < k ==> !labels[m].Clear?
    ensures labels[j].who in states[j].readers && labels[j].who in states[j + 1].readers
    ensures var rd, rd' := states[j].readers[labels[j].who], states[j + 1].readers[labels[j].who];
            && rd'.phase.Returned? && rd'.phase.data != []
            && r == Range(rd.offset, Wrap(rd.offset + |rd'.phase.data|), rd'.phase.data)
    decreases k
  {
    assert Next(content, states[k - 1], labels[k - 1], states[k]);
    if r in states[k - 1].ranges && !labels[k - 1].Clear? {
      j := RangeStoredSinceClear(content, states, labels, k - 1, r);
    } else {
      j := k - 1;
    }
  }

  /* ---------- What one read yields ---------- */

  /** A reader that finds its window in the cache has only the hit (if the inode has adapters at all). */
  lemma CoveredLookHits(content: seq<byte>, ranges: seq<Range>, rd: Reader, act: Action, ranges': seq<Range>,
          rd': Reader)
    requires Backed(ranges, content) && Bounded(rd) && rd.phase.Start? && Covered(ranges, rd.offset, rd.size)
    requires ReaderStep(content, ranges, rd, act, ranges', rd') && !rd'.phase.Failed?
    ensures rd.offset + rd.size <= |content|
    ensures rd'.phase == Returned(content[rd.offset..rd.offset + rd.size])
  {
    PartIsHit(content, ranges, rd.offset, rd.size, rd.offset, rd.size);
  }

  /** The bytes that a reader is going to return, once that is settled. */
  function SettledBytes(ph: Phase): Option<seq<byte>> {
    match ph
    case Fetched(buf, n) => if 0 <= n <= |buf| then Some(buf[..n]) else None
    case Returned(data) => Some(data)
    case _ => None
  }

  /**
   What a step does to them: they are settled by a hit or by the adapter that works, by a hit if the window
   is cached when the reader looks (and the inode has adapters at all), and are returned as they are.
   */
  ghost predicate SettlesBytes(content: seq<byte>, ranges: seq<Range>, rd: Reader, rd': Reader) {
    && (SettledBytes(rd.phase).Some? ==> SettledBytes(rd'.phase) == SettledBytes(rd.phase))
    && (SettledBytes(rd.phase).None? && SettledBytes(rd'.phase).Some? ==>
          || (rd.phase.Start? && IsCached(ranges, rd.offset, rd.size))
          || (rd.phase.Fetching? && rd'.phase.Fetched?))
    && (rd.phase.Start? && !rd'.phase.Failed? && IsCached(ranges, rd.offset, rd.size) ==>
          && 0 <= rd.offset <= rd.offset + rd.size <= |content|
          && rd'.phase == Returned(content[rd.offset..rd.offset + rd.size]))
    && (rd'.phase.Fetched? ==> SettledBytes(rd'.phase).Some?)
  }

  lemma StepSettlesBytes(content: seq<byte>, ranges: seq<Range>, rd: Reader, act: Action, ranges': seq<Range>,
          rd': Reader)
    requires Backed(ranges, content) && ReaderOk(content, rd) && ReaderStep(content, ranges, rd, act, ranges', rd')
    ensures SettlesBytes(content, ranges, rd, rd')
  {
    CachedIffCovered(ranges, rd.offset, rd.size);
    BytesSettled(content, ranges, rd, act, ranges', rd');
    ReaderStepKeeps(content, ranges, rd, act, ranges', rd');
    hide ReaderStep, IsCached, Covered, Backed;
    if rd.phase.Start? && !rd'.phase.Failed? && Covered(ranges, rd.offset, rd.size) {
      CoveredLookHits(content, ranges, rd, act, ranges', rd');
    }
  }

  lemma BytesSettled(content: seq<byte>, ranges: seq<Range>, rd: Reader, act: Action, ranges': seq<Range>, rd': Reader)
    requires Backed(ranges, content) && ReaderOk(content, rd) && ReaderStep(content, ranges, rd, act, ranges', rd')
    ensures SettledBytes(rd.phase).Some? ==> SettledBytes(rd'.phase) == SettledBytes(rd.phase)
    ensures SettledBytes(rd.phase).None? && SettledBytes(rd'.phase).Some? ==>
              || (rd.phase.Start? && Covered(ranges, rd.offset, rd.size))
              || (rd.phase.Fetching? && rd'.phase.Fetched?)
  {
    if act == TakeHit {
      GoodIsStored(ranges);
      GetMeaning(ranges, rd.offset, rd.size);
    }
  }

  /** A reader that has not ended can always go on. */
  lemma ReaderCanStep(content: seq<byte>, ranges: seq<Range>, rd: Reader) returns (act: Action, ranges': seq<Range>,
          rd': Reader)
    requires Backed(ranges, content) && ReaderOk(content, rd) && !rd.phase.Returned? && !rd.phase.Failed?
    ensures ReaderStep(content, ranges, rd, act, ranges', rd')
  {
    ranges' := ranges;
    match rd.phase
    case Start =>
      GoodIsStored(ranges);
      GetMeaning(ranges, rd.offset, rd.size);
      if Get(ranges, rd.offset, rd.size).Hit? {
        act, rd' := TakeHit, rd.(phase := Returned(Get(ranges, rd.offset, rd.size).data));
      } else {
        act, rd' := TakeMiss, rd.(phase := Fetching(seq(rd.size, i => 0), 0));
      }
    case Fetching(buf, n) =>
      act, rd' := GiveUp, rd.(phase := Failed);
    case Fetched(buf, n) =>
      act, rd' := Keep, rd.(phase := Returned(buf[..n]));
      ranges' := Store(ranges, rd.offset, buf[..n]);
  }

  /** An adapter can deliver the whole window at once, and then the whole window is returned. */
  lemma WholeWindowIsReturned(content: seq<byte>, ranges: seq<Range>, rd: Reader) returns (rd': Reader, rd'': Reader)
    requires ReaderOk(content, rd) && rd.phase.Fetching?
    ensures ReaderStep(content, ranges, rd, AdapterWorks, ranges, rd')
    ensures var w := Window(content, rd.offset, rd.size);
            && rd''.phase == Returned(w)
            && ReaderStep(content, ranges, rd', Keep, Store(ranges, rd.offset, w), rd'')
  {
    var w := Window(content, rd.offset, rd.size);
    var buf := w + rd.phase.buf[|w|..];
    assert buf[..|w|] == w;
    rd' := rd.(phase := Fetched(buf, |w|));
    rd'' := rd.(phase := Returned(w));
  }
}
