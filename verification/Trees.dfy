/**
 The node tree as a value: every node is known by its inode number and holds its name, a
 pointer to its parent, a table of children by name and a deletion mark.  This is the
 specification that the classes in FileTree and the step machine in MkdirRace are tied to.
 */
module Trees {
  import opened Common
  import opened Paths

  datatype Entry = Entry(name: string, parent: Option<nat>, kids: map<string, nat>, isDel: bool)

  type Tree = map<nat, Entry>

  /** The inode number by which the root is recognised. */
  const ROOT: nat := 1

  /* ---------- Shape ---------- */

  /** Entry `x` of `n`'s child table leads to a known, live, younger node that bears the name and points back. */
  ghost predicate KidAgrees(t: Tree, n: nat, x: string)
    requires n in t && x in t[n].kids
  {
    var m := t[n].kids[x];
    m in t && n < m && t[m].name == x && t[m].parent == Some(n) && !t[m].isDel
  }

  ghost predicate KidsAgree(t: Tree) {
    forall n, x :: n in t && x in t[n].kids ==> KidAgrees(t, n, x)
  }

  /** Parent pointers lead to an older node whose child table leads back. */
  ghost predicate ParentsAgree(t: Tree) {
    forall m :: m in t && t[m].parent.Some? ==>
      var p := t[m].parent.value;
      p in t && p < m && t[m].name in t[p].kids && t[p].kids[t[m].name] == m
  }

  /**
   Child tables and parent pointers mirror each other, and a child is always younger than its
   parent, so there are no cycles; `last` bounds all the inode numbers handed out.
   */
  ghost predicate WellFormed(t: Tree, last: nat) {
    && ROOT in t && t[ROOT].parent.None? && !t[ROOT].isDel
    && KidsAgree(t)
    && ParentsAgree(t)
    && (forall n :: n in t ==> ROOT <= n <= last)
  }

  /** What `NewFS` starts from. */
  function Fresh(): Tree {
    map[ROOT := Entry("", None, map[], false)]
  }

  /* ---------- Looking down and looking up ---------- */

  /** The node reached from `n` by following names downwards. */
  function Walk(t: Tree, n: nat, names: seq<string>): Option<nat>
    decreases |names|
  {
    if names == [] then Some(n)
    else if n in t && names[0] in t[n].kids then Walk(t, t[n].kids[names[0]], names[1..])
    else None
  }

  /** The node that a list of names denotes. */
  function Resolve(t: Tree, names: seq<string>): Option<nat> {
    Walk(t, ROOT, names)
  }

  /** The names met on the way up to the root, if parent pointers lead there. */
  function Names(t: Tree, n: nat): Option<seq<string>> {
    if n == ROOT then Some([])
    else if n !in t || t[n].isDel || t[n].parent.None? || t[n].parent.value >= n then None
    else
      match Names(t, t[n].parent.value)
      case None => None
      case Some(xs) => Some(xs + [t[n].name])
  }

  datatype PathError = Deleted(name: string) | Detached(name: string)

  /** `Path` returns a text and possibly an error: on an error the text stops at the break. */
  datatype PathResult = PathResult(text: string, err: Option<PathError>)

  ghost function Path(t: Tree, n: nat): PathResult
    requires n in t && ParentsAgree(t)
    decreases n
  {
    if t[n].parent.None? && n == ROOT then PathResult("", None)
    else if t[n].isDel then PathResult("", Some(Deleted(t[n].name)))
    else if t[n].parent.None? then PathResult(t[n].name, Some(Detached(t[n].name)))
    else
      var up := Path(t, t[n].parent.value);
      PathResult(if up.text == "" then t[n].name else up.text + "/" + t[n].name, up.err)
  }

  lemma {:induction false} WalkAppend(t: Tree, n: nat, xs: seq<string>, ys: seq<string>)
    ensures Walk(t, n, xs + ys) ==
            if Walk(t, n, xs).None? then None else Walk(t, Walk(t, n, xs).value, ys)
    decreases |xs|
  {
    if xs == [] {
      assert xs + ys == ys;
    } else if n in t && xs[0] in t[n].kids {
      assert (xs + ys)[1..] == xs[1..] + ys;
      WalkAppend(t, t[n].kids[xs[0]], xs[1..], ys);
    }
  }

  lemma WalkSnoc(t: Tree, n: nat, xs: seq<string>, x: string)
    ensures Walk(t, n, xs + [x]) ==
            match Walk(t, n, xs)
            case None => None
            case Some(m) => if m in t && x in t[m].kids then Some(t[m].kids[x]) else None
  {
    WalkAppend(t, n, xs, [x]);
    var m := Walk(t, n, xs);
    if m.Some? && m.value in t && x in t[m.value].kids {
      assert Walk(t, t[m.value].kids[x], []) == Some(t[m.value].kids[x]);
    }
  }

  lemma ResolveSnoc(t: Tree, xs: seq<string>, x: string)
    requires Resolve(t, xs).Some?
    ensures Resolve(t, xs + [x]) ==
            var m := Resolve(t, xs).value; if m in t && x in t[m].kids then Some(t[m].kids[x]) else None
  {
    WalkSnoc(t, ROOT, xs, x);
  }

  lemma SnocParts(xs: seq<string>)
    requires xs != []
    ensures xs == xs[..|xs| - 1] + [xs[|xs| - 1]]
  {
  }

  /**
   Looking up and looking down are inverse: a node's names lead to it, and no other list of
   names does.
   */
  lemma {:induction false} ResolveIffNames(t: Tree, last: nat, n: nat, xs: seq<string>)
    requires WellFormed(t, last)
    ensures Resolve(t, xs) == Some(n) <==> Names(t, n) == Some(xs)
    decreases |xs|
  {
    if xs == [] {
      if n != ROOT && Names(t, n).Some? {
        assert Names(t, n).value != [];
      }
    } else {
      var ys, x := xs[..|xs| - 1], xs[|xs| - 1];
      SnocParts(xs);
      WalkSnoc(t, ROOT, ys, x);
      if Resolve(t, xs) == Some(n) {
        var m := Resolve(t, ys).value;
        ResolveIffNames(t, last, m, ys);
      } else if Names(t, n) == Some(xs) {
        var p := t[n].parent.value;
        assert Names(t, p).value == ys by {
          assert (Names(t, p).value + [t[n].name])[..|xs| - 1] == Names(t, p).value;
        }
        ResolveIffNames(t, last, p, ys);
        assert false;
      }
    }
  }

  lemma {:induction false} PathOfNames(t: Tree, last: nat, n: nat)
    requires WellFormed(t, last) && n in t
    ensures Path(t, n).err.None? <==> Names(t, n).Some?
    ensures Names(t, n).Some? && AllPlain(Names(t, n).value) ==>
              Path(t, n).text == Join(Names(t, n).value)
    decreases n
  {
    if n != ROOT && !t[n].isDel && t[n].parent.Some? {
      var p := t[n].parent.value;
      PathOfNames(t, last, p);
      if Names(t, n).Some? && AllPlain(Names(t, n).value) {
        var xs := Names(t, p).value;
        assert forall i :: 0 <= i < |xs| ==> xs[i] == (xs + [t[n].name])[i];
        JoinSnoc(xs, t[n].name);
        JoinNotEmpty(xs);
      }
    }
  }

  /**
   `Path` reports no error exactly for the nodes that some list of names resolves to, and then
   (for names that can stand between slashes) its text, split again, resolves to that node.
   */
  lemma PathAgreesWithLookup(t: Tree, last: nat, n: nat)
    requires WellFormed(t, last) && n in t
    ensures Path(t, n).err.None? <==> exists xs :: Resolve(t, xs) == Some(n)
    ensures forall xs :: Resolve(t, xs) == Some(n) && AllPlain(xs) ==>
              Path(t, n).text == Join(xs) && Components(Path(t, n).text) == xs
  {
    PathOfNames(t, last, n);
    if Names(t, n).Some? {
      ResolveIffNames(t, last, n, Names(t, n).value);
    }
    forall xs | Resolve(t, xs) == Some(n)
      ensures Names(t, n) == Some(xs)
      ensures AllPlain(xs) ==> Components(Join(xs)) == xs
    {
      ResolveIffNames(t, last, n, xs);
      if AllPlain(xs) {
        ComponentsOfJoin(xs);
      }
    }
  }

  /* ---------- Changing the tree ---------- */

  /** `NewNode`: a node with no parent and no children yet. */
  function NewNode(t: Tree, c: nat, name: string): Tree {
    t[c := Entry(name, None, map[], false)]
  }

  /** `Del`: mark as deleted and detach from the parent; the own children stay. */
  function Del(t: Tree, e: nat): Tree
    requires e in t
  {
    t[e := t[e].(isDel := true, parent := None)]
  }

  function DropKid(t: Tree, p: nat, name: string): Tree
    requires p in t
  {
    t[p := t[p].(kids := t[p].kids - {name})]
  }

  function PutKid(t: Tree, p: nat, name: string, c: nat): Tree
    requires p in t
  {
    t[p := t[p].(kids := t[p].kids[name := c])]
  }

  function SetParent(t: Tree, c: nat, p: Option<nat>): Tree
    requires c in t
  {
    t[c := t[c].(parent := p)]
  }

  /** `AddChild`: a child of the same name is taken out and deleted first. */
  function AddChild(t: Tree, p: nat, c: nat): Tree
    requires p in t && c in t
    requires t[c].name in t[p].kids ==> t[p].kids[t[c].name] in t
  {
    var name := t[c].name;
    var t1 := if name in t[p].kids then Del(DropKid(t, p, name), t[p].kids[name]) else t;
    SetParent(PutKid(t1, p, name, c), c, Some(p))
  }

  /** `RemoveChild`: the child is detached but not marked as deleted. */
  function RemoveChild(t: Tree, p: nat, name: string): Tree
    requires p in t
    requires name in t[p].kids ==> t[p].kids[name] in t
  {
    if name in t[p].kids then SetParent(DropKid(t, p, name), t[p].kids[name], None) else t
  }

  /** What both creation paths do: draw the next inode number, make a node, add it as a child. */
  ghost function Attach(t: Tree, last: nat, p: nat, name: string): Tree
    requires WellFormed(t, last) && p in t
  {
    AddChild(NewNode(t, last + 1, name), p, last + 1)
  }

  lemma FreshIsWellFormed()
    ensures WellFormed(Fresh(), ROOT)
    ensures forall xs :: Resolve(Fresh(), xs).Some? <==> xs == []
  {
  }

  /** `t'` is `t` with child `name` of `p` taken away (mark says how) and `kid` in its place. */
  ghost predicate Relinked(t: Tree, p: nat, name: string, mark: bool, kid: Option<nat>, t': Tree)
    requires p in t
  {
    && (forall n :: n in t' <==> n in t || kid == Some(n))
    && t'[p] == t[p].(kids := if kid.None? then t[p].kids - {name} else t[p].kids[name := kid.value])
    && (kid.Some? ==> t'[kid.value] == Entry(name, Some(p), map[], false))
    && (forall n :: n in t && n != p && kid != Some(n) ==>
          t'[n] == if name in t[p].kids && n == t[p].kids[name]
                   then t[n].(parent := None, isDel := mark || t[n].isDel) else t[n])
  }

  lemma RelinkedEntry(t: Tree, p: nat, name: string, mark: bool, kid: Option<nat>, t': Tree, n: nat, x: string)
    requires p in t && Relinked(t, p, name, mark, kid, t')
    requires n in t' && x in t'[n].kids && (n != p || x != name)
    ensures n in t && x in t[n].kids && t'[n].kids[x] == t[n].kids[x]
  {
  }

  /** An entry that is not replaced: its child is not the one taken away, so it is as before. */
  lemma RelinkedOldKid(t: Tree, last: nat, p: nat, name: string, mark: bool, kid: Option<nat>, t': Tree, n: nat,
          x: string)
    requires WellFormed(t, last) && p in t && (kid.Some? ==> last < kid.value)
    requires Relinked(t, p, name, mark, kid, t')
    requires n in t && x in t[n].kids && (n != p || x != name)
    requires n in t' && x in t'[n].kids && t'[n].kids[x] == t[n].kids[x]
    ensures KidAgrees(t', n, x)
  {
    var m := t[n].kids[x];
    assert KidAgrees(t, n, x) && m <= last;
    if name in t[p].kids {
      assert KidAgrees(t, p, name);
    }
    hide WellFormed, KidsAgree, ParentsAgree;
    assert t'[m] == t[m] || m == p;
  }

  lemma RelinkedKids(t: Tree, last: nat, p: nat, name: string, mark: bool, kid: Option<nat>, t': Tree)
    requires WellFormed(t, last) && p in t && (kid.Some? ==> last < kid.value)
    requires Relinked(t, p, name, mark, kid, t')
    ensures KidsAgree(t')
  {
    assert p <= last;
    hide WellFormed;
    forall n, x | n in t' && x in t'[n].kids ensures KidAgrees(t', n, x) {
      if n != p || x != name {
        RelinkedEntry(t, p, name, mark, kid, t', n, x);
        RelinkedOldKid(t, last, p, name, mark, kid, t', n, x);
      }
    }
  }

  lemma RelinkedParents(t: Tree, last: nat, p: nat, name: string, mark: bool, kid: Option<nat>, t': Tree)
    requires WellFormed(t, last) && p in t && (kid.Some? ==> last < kid.value)
    requires Relinked(t, p, name, mark, kid, t')
    ensures ParentsAgree(t')
  {
    forall m | m in t' && t'[m].parent.Some?
      ensures var q := t'[m].parent.value;
              q in t' && q < m && t'[m].name in t'[q].kids && t'[q].kids[t'[m].name] == m
    {
      if kid != Some(m) {
        assert m in t && t'[m].parent == t[m].parent && t'[m].name == t[m].name;
      }
    }
  }

  lemma RelinkedWellFormed(t: Tree, last: nat, p: nat, name: string, mark: bool, kid: Option<nat>, t': Tree, last': nat)
    requires WellFormed(t, last) && p in t && last <= last'
    requires kid.Some? ==> last < kid.value <= last'
    requires Relinked(t, p, name, mark, kid, t')
    ensures WellFormed(t', last')
  {
    RelinkedKids(t, last, p, name, mark, kid, t');
    RelinkedParents(t, last, p, name, mark, kid, t');
    hide ParentsAgree;
    assert ROOT in t';
  }

  lemma AttachWellFormed(t: Tree, last: nat, p: nat, name: string)
    requires WellFormed(t, last) && p in t
    ensures Relinked(t, p, name, true, Some(last + 1), Attach(t, last, p, name))
    ensures WellFormed(Attach(t, last, p, name), last + 1)
  {
    AttachRelinks(t, last, p, name);
    RelinkedWellFormed(t, last, p, name, true, Some(last + 1), Attach(t, last, p, name), last + 1);
  }

  lemma AttachRelinks(t: Tree, last: nat, p: nat, name: string)
    requires WellFormed(t, last) && p in t
    ensures Relinked(t, p, name, true, Some(last + 1), Attach(t, last, p, name))
  {
    if name in t[p].kids {
      assert (t[p].kids - {name})[name := last + 1] == t[p].kids[name := last + 1];
    }
  }

  lemma AttachedEntry(t: Tree, last: nat, p: nat, name: string)
    requires WellFormed(t, last) && p in t
    ensures var t' := Attach(t, last, p, name);
            p in t' && last + 1 in t' && t'[last + 1] == Entry(name, Some(p), map[], false)
  {
    AttachWellFormed(t, last, p, name);
    hide Attach, WellFormed;
  }

  lemma AttachReady(t: Tree, last: nat, p: nat, name: string)
    requires WellFormed(t, last) && p in t
    ensures WellFormed(Attach(t, last, p, name), last + 1) && last + 1 in Attach(t, last, p, name)
  {
    AttachWellFormed(t, last, p, name);
  }

  lemma RemoveWellFormed(t: Tree, last: nat, p: nat, name: string)
    requires WellFormed(t, last) && p in t
    ensures Relinked(t, p, name, false, None, RemoveChild(t, p, name))
    ensures WellFormed(RemoveChild(t, p, name), last)
  {
    assert name !in t[p].kids ==> t[p].kids - {name} == t[p].kids;
    RelinkedWellFormed(t, last, p, name, false, None, RemoveChild(t, p, name), last);
  }

  /** Adding under a free name adds exactly one path and moves nothing. */
  lemma {:induction false} AttachMissing(t: Tree, last: nat, pp: seq<string>, p: nat, name: string, xs: seq<string>)
    requires WellFormed(t, last) && p in t && Resolve(t, pp) == Some(p)
    requires name !in t[p].kids
    ensures Resolve(Attach(t, last, p, name), xs) ==
            if xs == pp + [name] then Some(last + 1) else Resolve(t, xs)
    decreases |xs|
  {
    var t' := Attach(t, last, p, name);
    AttachWellFormed(t, last, p, name);
    if xs != [] {
      var ys, x := xs[..|xs| - 1], xs[|xs| - 1];
      SnocParts(xs);
      AttachMissing(t, last, pp, p, name, ys);
      WalkSnoc(t, ROOT, ys, x);
      WalkSnoc(t', ROOT, ys, x);
      if ys == pp + [name] {
        WalkSnoc(t, ROOT, pp, name);
        assert xs != pp + [name];
      } else if ys == pp {
        assert xs == pp + [name] <==> x == name;
      } else {
        assert xs != pp + [name] by { assert (pp + [name])[..|pp|] == pp; }
        if Resolve(t, ys) == Some(p) {
          ResolveIffNames(t, last, p, ys);
          ResolveIffNames(t, last, p, pp);
          assert false;
        }
        if Resolve(t, ys).Some? {
          WalkStays(t, last, ROOT, ys);
        }
      }
    }
  }

  lemma {:induction false} WalkStays(t: Tree, last: nat, n: nat, xs: seq<string>)
    requires WellFormed(t, last) && n in t
    ensures Walk(t, n, xs).Some? ==> Walk(t, n, xs).value in t && Walk(t, n, xs).value >= n
    decreases |xs|
  {
    if xs != [] && xs[0] in t[n].kids {
      WalkStays(t, last, t[n].kids[xs[0]], xs[1..]);
    }
  }

  /* ---------- Cutting off a subtree ---------- */

  /** Below a node without a parent (the root apart) nothing resolves and `Path` reports an error. */
  lemma {:induction false} CutOff(t: Tree, last: nat, e: nat, ys: seq<string>)
    requires WellFormed(t, last) && e in t && e != ROOT && t[e].parent.None?
    requires Walk(t, e, ys).Some?
    ensures Walk(t, e, ys).value in t && Path(t, Walk(t, e, ys).value).err ==
              Some(if t[e].isDel then Deleted(t[e].name) else Detached(t[e].name))
    ensures AllPlain([t[e].name] + ys) ==>
              Path(t, Walk(t, e, ys).value).text == Join(if t[e].isDel then ys else [t[e].name] + ys)
    decreases |ys|
  {
    WalkStays(t, last, e, ys);
    if ys != [] {
      var zs, x := ys[..|ys| - 1], ys[|ys| - 1];
      SnocParts(ys);
      WalkSnoc(t, e, zs, x);
      CutOff(t, last, e, zs);
      if AllPlain([t[e].name] + ys) {
        CutOffText(t[e].name, zs, x);
      }
    }
  }

  lemma CutOffText(name: string, zs: seq<string>, x: string)
    requires AllPlain([name] + (zs + [x]))
    ensures AllPlain([name] + zs)
    ensures Join(zs + [x]) == if Join(zs) == "" then x else Join(zs) + "/" + x
    ensures Join([name] + (zs + [x])) == Join([name] + zs) + "/" + x && Join([name] + zs) != ""
  {
    var all := [name] + (zs + [x]);
    assert forall i :: 0 <= i < |zs| ==> zs[i] == all[i + 1];
    assert forall i :: 0 <= i < |zs| + 1 ==> ([name] + zs)[i] == all[i];
    assert Plain(all[0]);
    assert AllPlain(zs) && AllPlain([name] + zs);
    JoinSnoc(zs, x);
    JoinNotEmpty(zs);
    JoinSnoc([name] + zs, x);
    JoinNotEmpty([name] + zs);
    assert all == [name] + zs + [x];
  }

  /** A walk sees only nodes at least as young as where it starts. */
  lemma {:induction false} WalkBelow(t: Tree, last: nat, t': Tree, n: nat, ys: seq<string>)
    requires WellFormed(t, last) && n in t
    requires forall m :: m in t && m >= n ==> m in t' && t'[m].kids == t[m].kids
    requires Walk(t, n, ys).Some?
    ensures Walk(t', n, ys) == Walk(t, n, ys)
    decreases |ys|
  {
    if ys != [] {
      WalkBelow(t, last, t', t[n].kids[ys[0]], ys[1..]);
    }
  }

  /**
   Replacing a child leaves every node of the old subtree unreachable, and `Path` of each of
   them reports the replaced node as deleted.
   */
  lemma ReplacedSubtreeIsGone(t: Tree, last: nat, p: nat, name: string, ys: seq<string>)
    requires WellFormed(t, last) && p in t && name in t[p].kids
    requires Walk(t, t[p].kids[name], ys).Some?
    ensures var n := Walk(t, t[p].kids[name], ys).value;
            var t' := Attach(t, last, p, name);
            && WellFormed(t', last + 1) && n in t'
            && Path(t', n).err == Some(Deleted(name))
            && (AllPlain([name] + ys) ==> Path(t', n).text == Join(ys))
            && (forall xs :: Resolve(t', xs) != Some(n))
  {
    var e := t[p].kids[name];
    var n := Walk(t, e, ys).value;
    var t' := Attach(t, last, p, name);
    AttachWellFormed(t, last, p, name);
    WalkBelow(t, last, t', e, ys);
    CutOff(t', last + 1, e, ys);
    PathAgreesWithLookup(t', last + 1, n);
  }

  /** Removing a child cuts off its whole subtree in the same way, as detached. */
  lemma RemovedSubtreeIsGone(t: Tree, last: nat, p: nat, name: string, ys: seq<string>)
    requires WellFormed(t, last) && p in t && name in t[p].kids
    requires Walk(t, t[p].kids[name], ys).Some?
    ensures var n := Walk(t, t[p].kids[name], ys).value;
            var t' := RemoveChild(t, p, name);
            && WellFormed(t', last) && n in t'
            && Path(t', n).err == Some(Detached(name))
            && (AllPlain([name] + ys) ==> Path(t', n).text == Join([name] + ys))
            && (forall xs :: Resolve(t', xs) != Some(n))
  {
    var e := t[p].kids[name];
    var n := Walk(t, e, ys).value;
    var t' := RemoveChild(t, p, name);
    RemoveWellFormed(t, last, p, name);
    WalkBelow(t, last, t', e, ys);
    CutOff(t', last, e, ys);
    PathAgreesWithLookup(t', last, n);
  }

  /* ---------- mkdir -p ---------- */

  datatype Made = Made(tree: Tree, last: nat, node: nat)

  /** Walk down the names, creating each directory that is missing. */
  ghost function MkDirs(t: Tree, last: nat, cur: nat, names: seq<string>): Made
    requires WellFormed(t, last) && cur in t
    decreases |names|
  {
    if names == [] then Made(t, last, cur)
    else if names[0] in t[cur].kids then
      assert KidAgrees(t, cur, names[0]);
      MkDirs(t, last, t[cur].kids[names[0]], names[1..])
    else
      AttachReady(t, last, cur, names[0]);
      MkDirs(Attach(t, last, cur, names[0]), last + 1, last + 1, names[1..])
  }

  lemma MkDirsCons(t: Tree, last: nat, cur: nat, name: string, rest: seq<string>)
    requires WellFormed(t, last) && cur in t
    ensures name in t[cur].kids ==>
              t[cur].kids[name] in t
              && MkDirs(t, last, cur, [name] + rest) == MkDirs(t, last, t[cur].kids[name], rest)
    ensures name !in t[cur].kids ==>
              WellFormed(Attach(t, last, cur, name), last + 1) && last + 1 in Attach(t, last, cur, name)
              && MkDirs(t, last, cur, [name] + rest) == MkDirs(Attach(t, last, cur, name), last + 1, last + 1, rest)
  {
    assert ([name] + rest)[1..] == rest;
    AttachWellFormed(t, last, cur, name);
  }

  /** One name more: the directories first, then that name entered or made. */
  ghost predicate OneNameMore(made: Made, name: string, r: Made) {
    && WellFormed(made.tree, made.last) && made.node in made.tree
    && r == if name in made.tree[made.node].kids
            then Made(made.tree, made.last, made.tree[made.node].kids[name])
            else Made(Attach(made.tree, made.last, made.node, name), made.last + 1, made.last + 1)
  }

  lemma MkDirsOne(t: Tree, last: nat, cur: nat, name: string)
    requires WellFormed(t, last) && cur in t
    ensures OneNameMore(Made(t, last, cur), name, MkDirs(t, last, cur, [name]))
  {
    MkDirsCons(t, last, cur, name, []);
    assert [name] + [] == [name];
  }

  lemma {:induction false} MkDirsSnoc(t: Tree, last: nat, cur: nat, names: seq<string>, name: string)
    requires WellFormed(t, last) && cur in t
    ensures OneNameMore(MkDirs(t, last, cur, names), name, MkDirs(t, last, cur, names + [name]))
    decreases |names|
  {
    hide WellFormed, Attach, MkDirs, OneNameMore;
    if names == [] {
      assert [] + [name] == [name];
      MkDirsOne(t, last, cur, name);
      MkDirsNone(t, last, cur);
    } else {
      var x, rest := names[0], names[1..];
      assert names == [x] + rest && names + [name] == [x] + (rest + [name]);
      MkDirsCons(t, last, cur, x, rest);
      MkDirsCons(t, last, cur, x, rest + [name]);
      if x in t[cur].kids {
        MkDirsSnoc(t, last, t[cur].kids[x], rest, name);
      } else {
        MkDirsSnoc(Attach(t, last, cur, x), last + 1, last + 1, rest, name);
      }
    }
  }

  lemma MkDirsNone(t: Tree, last: nat, cur: nat)
    requires WellFormed(t, last) && cur in t
    ensures MkDirs(t, last, cur, []) == Made(t, last, cur)
  {
    hide WellFormed, Attach;
  }

  /** How many of the prefixes longer than `from` do not resolve. */
  ghost function Missing(t: Tree, names: seq<string>, from: nat): nat
    requires from <= |names|
    decreases |names| - from
  {
    if from == |names| then 0
    else (if Resolve(t, names[..from + 1]).None? then 1 else 0) + Missing(t, names, from + 1)
  }

  lemma {:induction false} MissingAll(t: Tree, names: seq<string>, from: nat)
    requires from <= |names| && Resolve(t, names[..from]).None?
    ensures Missing(t, names, from) == |names| - from
    decreases |names| - from
  {
    if from < |names| {
      assert names[..from + 1] == names[..from] + [names[from]];
      WalkSnoc(t, ROOT, names[..from], names[from]);
      MissingAll(t, names, from + 1);
    }
  }

  ghost predicate MkDirsSpec(t: Tree, last: nat, done: seq<string>, names: seq<string>, r: Made) {
    && WellFormed(r.tree, r.last) && r.node in r.tree
    && Resolve(r.tree, done + names) == Some(r.node)
    && (forall xs :: Resolve(r.tree, xs).Some? <==> Resolve(t, xs).Some? || xs <= done + names)
    && (forall xs :: Resolve(t, xs).Some? ==> Resolve(r.tree, xs) == Resolve(t, xs))
    && r.last == last + Missing(t, done + names, |done|)
  }

  /** The walk reaches its end, adds only prefixes, moves nothing and counts what it made. */
  lemma {:induction false} MkDirsMeaning(t: Tree, last: nat, done: seq<string>, cur: nat, names: seq<string>)
    requires WellFormed(t, last) && cur in t && Resolve(t, done) == Some(cur)
    ensures MkDirsSpec(t, last, done, names, MkDirs(t, last, cur, names))
    decreases |names|, 1
  {
    hide WellFormed, MkDirsSpec, Attach;
    if names == [] {
      MkDirsSpecDone(t, last, done, cur);
    } else if names[0] in t[cur].kids {
      MkDirsEnterMeaning(t, last, done, cur, names);
    } else {
      MkDirsMakeMeaning(t, last, done, cur, names);
    }
  }

  lemma {:induction false} MkDirsEnterMeaning(t: Tree, last: nat, done: seq<string>, cur: nat, names: seq<string>)
    requires WellFormed(t, last) && cur in t && Resolve(t, done) == Some(cur)
    requires names != [] && names[0] in t[cur].kids
    ensures MkDirsSpec(t, last, done, names, MkDirs(t, last, cur, names))
    decreases |names|, 0
  {
    hide WellFormed, MkDirsSpec, Attach, MkDirs, Resolve;
    assert names == [names[0]] + names[1..];
    MkDirsCons(t, last, cur, names[0], names[1..]);
    ResolveSnoc(t, done, names[0]);
    MkDirsMeaning(t, last, done + [names[0]], t[cur].kids[names[0]], names[1..]);
    MkDirsSpecEnter(t, last, done, names, MkDirs(t, last, cur, names));
  }

  lemma {:induction false} MkDirsMakeMeaning(t: Tree, last: nat, done: seq<string>, cur: nat, names: seq<string>)
    requires WellFormed(t, last) && cur in t && Resolve(t, done) == Some(cur)
    requires names != [] && names[0] !in t[cur].kids
    ensures MkDirsSpec(t, last, done, names, MkDirs(t, last, cur, names))
    decreases |names|, 0
  {
    hide WellFormed, MkDirsSpec, Attach, MkDirs, Resolve;
    assert names == [names[0]] + names[1..];
    MkDirsCons(t, last, cur, names[0], names[1..]);
    var t' := Attach(t, last, cur, names[0]);
    AttachAddsOnePath(t, last, done, cur, names[0]);
    MkDirsMeaning(t', last + 1, done + [names[0]], last + 1, names[1..]);
    MkDirsSpecAfterAttach(t, t', last, done, names, MkDirs(t, last, cur, names));
  }

  lemma MkDirsSpecDone(t: Tree, last: nat, done: seq<string>, cur: nat)
    requires WellFormed(t, last) && cur in t && Resolve(t, done) == Some(cur)
    ensures MkDirsSpec(t, last, done, [], Made(t, last, cur))
  {
    assert done + [] == done;
    forall xs | xs <= done ensures Resolve(t, xs).Some? {
      WalkAppend(t, ROOT, xs, done[|xs|..]);
      assert xs + done[|xs|..] == done;
    }
  }

  lemma MkDirsSpecEnter(t: Tree, last: nat, done: seq<string>, names: seq<string>, r: Made)
    requires names != [] && Resolve(t, done + [names[0]]).Some?
    requires MkDirsSpec(t, last, done + [names[0]], names[1..], r)
    ensures MkDirsSpec(t, last, done, names, r)
  {
    var all := done + names;
    assert done + [names[0]] + names[1..] == all;
    assert all[..|done| + 1] == done + [names[0]];
  }

  /** One missing directory made: exactly the new prefix resolves in addition. */
  lemma AttachAddsOnePath(t: Tree, last: nat, done: seq<string>, cur: nat, x: string)
    requires WellFormed(t, last) && cur in t && Resolve(t, done) == Some(cur)
    requires x !in t[cur].kids
    ensures Resolve(t, done + [x]).None?
    ensures forall xs :: Resolve(Attach(t, last, cur, x), xs) ==
                         if xs == done + [x] then Some(last + 1) else Resolve(t, xs)
  {
    WalkSnoc(t, ROOT, done, x);
    forall xs {
      AttachMissing(t, last, done, cur, x, xs);
    }
  }

  lemma MkDirsSpecAfterAttach(t: Tree, t': Tree, last: nat, done: seq<string>, names: seq<string>, r: Made)
    requires names != []
    requires Resolve(t, done + [names[0]]).None?
    requires forall xs :: xs != done + [names[0]] ==> Resolve(t', xs) == Resolve(t, xs)
    requires MkDirsSpec(t', last + 1, done + [names[0]], names[1..], r)
    ensures MkDirsSpec(t, last, done, names, r)
  {
    var done' := done + [names[0]];
    var all := done + names;
    assert done' + names[1..] == all && all[..|done'|] == done';
    MissingAfterAttach(t, t', all, |done'|);
  }

  lemma {:induction false} MissingAfterAttach(t: Tree, t': Tree, all: seq<string>, k: nat)
    requires 1 <= k <= |all| && Resolve(t, all[..k]).None?
    requires forall xs :: xs != all[..k] ==> Resolve(t', xs) == Resolve(t, xs)
    ensures Missing(t', all, k) == Missing(t, all, k) == |all| - k
    ensures Missing(t, all, k - 1) == 1 + |all| - k
  {
    MissingAll(t, all, k);
    MissingSame(t, t', all, k, k);
  }

  lemma {:induction false} MissingSame(t: Tree, t': Tree, all: seq<string>, k: nat, from: nat)
    requires k <= from <= |all|
    requires forall xs :: xs != all[..k] ==> Resolve(t', xs) == Resolve(t, xs)
    ensures Missing(t', all, from) == Missing(t, all, from)
    decreases |all| - from
  {
    if from < |all| {
      assert |all[..from + 1]| != |all[..k]|;
      MissingSame(t, t', all, k, from + 1);
    }
  }

  /** A repeated call changes nothing and returns the node found the first time. */
  lemma {:induction false} MkDirsExisting(t: Tree, last: nat, cur: nat, names: seq<string>)
    requires WellFormed(t, last) && cur in t && Walk(t, cur, names).Some?
    ensures MkDirs(t, last, cur, names) == Made(t, last, Walk(t, cur, names).value)
    decreases |names|
  {
    if names != [] {
      MkDirsExisting(t, last, t[cur].kids[names[0]], names[1..]);
    }
  }

  lemma MkDirsTwice(t: Tree, last: nat, names: seq<string>)
    requires WellFormed(t, last)
    ensures var r := MkDirs(t, last, ROOT, names);
            WellFormed(r.tree, r.last) && MkDirs(r.tree, r.last, ROOT, names) == r
  {
    MkDirsMeaning(t, last, [], ROOT, names);
    assert [] + names == names;
    var r := MkDirs(t, last, ROOT, names);
    MkDirsExisting(r.tree, r.last, ROOT, names);
  }

  /* ---------- Lists of requests ---------- */

  ghost function MkAll(t: Tree, last: nat, reqs: seq<seq<string>>): (r: Made)
    requires WellFormed(t, last)
    ensures WellFormed(r.tree, r.last)
    decreases |reqs|
  {
    if reqs == [] then Made(t, last, ROOT)
    else
      MkDirsMeaning(t, last, [], ROOT, reqs[0]);
      var r := MkDirs(t, last, ROOT, reqs[0]);
      MkAll(r.tree, r.last, reqs[1..])
  }

  /** After any list of directory requests the paths are the old ones and all their prefixes. */
  lemma {:induction false} MkAllPaths(t: Tree, last: nat, reqs: seq<seq<string>>, xs: seq<string>)
    requires WellFormed(t, last)
    ensures Resolve(MkAll(t, last, reqs).tree, xs).Some? <==>
            Resolve(t, xs).Some? || exists r :: r in reqs && xs <= r
    decreases |reqs|
  {
    if reqs != [] {
      MkDirsMeaning(t, last, [], ROOT, reqs[0]);
      assert [] + reqs[0] == reqs[0];
      var m := MkDirs(t, last, ROOT, reqs[0]);
      MkAllPaths(m.tree, m.last, reqs[1..], xs);
      assert reqs[0] in reqs && forall r :: r in reqs[1..] ==> r in reqs;
      assert Resolve(m.tree, xs).Some? <==> Resolve(t, xs).Some? || xs <= reqs[0];
      if r :| r in reqs && xs <= r {
        assert r == reqs[0] || r in reqs[1..];
      }
    }
  }

  /** So the order of the requests does not matter for which paths exist. */
  lemma MkAllOrderIndependent(t: Tree, last: nat, reqs: seq<seq<string>>, reqs': seq<seq<string>>, xs: seq<string>)
    requires WellFormed(t, last)
    requires multiset(reqs) == multiset(reqs')
    ensures Resolve(MkAll(t, last, reqs).tree, xs).Some? <==>
            Resolve(MkAll(t, last, reqs').tree, xs).Some?
  {
    MkAllPaths(t, last, reqs, xs);
    MkAllPaths(t, last, reqs', xs);
    assert forall r :: r in reqs <==> r in multiset(reqs);
    assert forall r :: r in reqs' <==> r in multiset(reqs');
  }
}
