/**
 Request paths as text: splitting at every slash, skipping empty pieces, cutting off the
 last element, and joining names back together.
 */
module Paths {

  /** `strings.Split(s, "/")`: the pieces between slashes, empty ones included. */
  function Split(s: string): (r: seq<string>)
    ensures |r| >= 1
  {
    if s == "" then [""] else Extend(s[0], Split(s[1..]))
  }

  /** The pieces of a text, given the pieces of all but its first character. */
  function Extend(c: char, pieces: seq<string>): (r: seq<string>)
    requires |pieces| >= 1
    ensures |r| >= 1
  {
    if c == '/' then [""] + pieces else [[c] + pieces[0]] + pieces[1..]
  }

  /** The pieces that a directory walk does not skip. */
  function NonEmpty(pieces: seq<string>): (r: seq<string>)
  {
    if pieces == [] then []
    else if pieces[0] == "" then NonEmpty(pieces[1..])
    else [pieces[0]] + NonEmpty(pieces[1..])
  }

  /** The names a request path stands for. */
  function Components(s: string): seq<string> {
    NonEmpty(Split(s))
  }

  function Join(names: seq<string>): string {
    if names == [] then ""
    else if |names| == 1 then names[0]
    else names[0] + "/" + Join(names[1..])
  }

  /** Go's `path.Split`: everything up to and including the last slash, and what follows it. */
  function CutLast(s: string): (r: (string, string))
    ensures r.0 + r.1 == s
    ensures '/' !in r.1
    ensures r.0 == "" || r.0[|r.0| - 1] == '/'
  {
    if s == "" then ("", "")
    else if s[|s| - 1] == '/' then (s, "")
    else
      var r := CutLast(s[..|s| - 1]);
      (r.0, r.1 + [s[|s| - 1]])
  }

  /** A name that can stand between two slashes. */
  predicate Plain(name: string) {
    name != "" && '/' !in name
  }

  predicate AllPlain(names: seq<string>) {
    forall i :: 0 <= i < |names| ==> Plain(names[i])
  }

  lemma {:induction false} SplitPlain(s: string)
    requires '/' !in s
    ensures Split(s) == [s]
  {
    if s != "" {
      SplitPlain(s[1..]);
      assert [s[0]] + s[1..] == s;
    }
  }

  lemma ExtendAppend(c: char, xs: seq<string>, ys: seq<string>)
    requires |xs| >= 1
    ensures Extend(c, xs + ys) == Extend(c, xs) + ys
  {
    assert (xs + ys)[1..] == xs[1..] + ys;
  }

  lemma {:induction false} SplitAtSlash(a: string, b: string)
    ensures Split(a + "/" + b) == Split(a) + Split(b)
  {
    var s := a + "/" + b;
    if a == "" {
      assert s[1..] == b;
    } else {
      assert s[0] == a[0] && s[1..] == a[1..] + "/" + b;
      SplitAtSlash(a[1..], b);
      ExtendAppend(a[0], Split(a[1..]), Split(b));
    }
  }

  lemma {:induction false} SplitPieces(s: string)
    ensures forall i :: 0 <= i < |Split(s)| ==> '/' !in Split(s)[i]
  {
    if s != "" {
      SplitPieces(s[1..]);
    }
  }

  lemma {:induction false} NonEmptyAppend(xs: seq<string>, ys: seq<string>)
    ensures NonEmpty(xs + ys) == NonEmpty(xs) + NonEmpty(ys)
  {
    if xs == [] {
      assert xs + ys == ys;
    } else {
      assert (xs + ys)[1..] == xs[1..] + ys;
      NonEmptyAppend(xs[1..], ys);
    }
  }

  lemma {:induction false} NonEmptyKeepsPlain(xs: seq<string>)
    requires forall i :: 0 <= i < |xs| ==> '/' !in xs[i]
    ensures AllPlain(NonEmpty(xs))
  {
    if xs != [] {
      NonEmptyKeepsPlain(xs[1..]);
    }
  }

  lemma {:induction false} NonEmptyOfPlain(xs: seq<string>)
    requires AllPlain(xs)
    ensures NonEmpty(xs) == xs
  {
    if xs != [] {
      assert Plain(xs[0]);
      NonEmptyOfPlain(xs[1..]);
    }
  }

  lemma ComponentsArePlain(s: string)
    ensures AllPlain(Components(s))
  {
    SplitPieces(s);
    NonEmptyKeepsPlain(Split(s));
  }

  /** Splitting undoes joining, for any list of plain names. */
  lemma {:induction false} ComponentsOfJoin(names: seq<string>)
    requires AllPlain(names)
    ensures Components(Join(names)) == names
  {
    if names == [] {
    } else if |names| == 1 {
      assert Plain(names[0]);
      SplitPlain(names[0]);
      assert NonEmpty([names[0]]) == [names[0]] + NonEmpty([]) == names;
    } else {
      var rest := Join(names[1..]);
      SplitAtSlash(names[0], rest);
      assert Plain(names[0]);
      SplitPlain(names[0]);
      ComponentsOfJoin(names[1..]);
      assert Split(Join(names)) == [names[0]] + Split(rest);
    }
  }

  lemma ComponentsAtSlash(d: string, name: string)
    requires '/' !in name
    ensures Components(d + "/" + name) == Components(d) + (if name == "" then [] else [name])
  {
    SplitAtSlash(d, name);
    SplitPlain(name);
    NonEmptyAppend(Split(d), [name]);
  }

  lemma CutComponents(s: string, dir: string, name: string)
    requires s == dir + name && '/' !in name && (dir == "" || dir[|dir| - 1] == '/')
    ensures Components(s) == Components(dir) + (if name == "" then [] else [name])
  {
    if dir == "" {
      assert s == name;
      SplitPlain(name);
    } else {
      var d := dir[..|dir| - 1];
      ComponentsAtSlash(d, "");
      ComponentsAtSlash(d, name);
      hide Components;
      assert dir == d + "/" + "";
      assert s == d + "/" + name;
    }
  }

  /**
   Cutting off the last element and splitting what is left agrees with one split of the
   whole path.
   */
  lemma CutLastComponents(s: string)
    ensures Components(s) ==
            Components(CutLast(s).0) + (if CutLast(s).1 == "" then [] else [CutLast(s).1])
  {
    CutComponents(s, CutLast(s).0, CutLast(s).1);
  }

  lemma {:induction false} JoinSnoc(names: seq<string>, x: string)
    ensures Join(names + [x]) == if names == [] then x else Join(names) + "/" + x
  {
    if names != [] {
      assert (names + [x])[1..] == names[1..] + [x];
      JoinSnoc(names[1..], x);
    }
  }

  lemma {:induction false} JoinNotEmpty(names: seq<string>)
    requires AllPlain(names)
    ensures Join(names) == "" <==> names == []
  {
    if names != [] {
      assert Plain(names[0]);
    }
  }
}
