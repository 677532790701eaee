/**
 Creation requests on the tree value: AddDirNode and AddFileNode, whole runs of operations,
 and the path round trip.
 */
module Requests {
  import opened Common
  import opened Paths
  import opened Trees

  datatype FileError = AlreadyExists | NoValidAdapters

  /** The tree and inode counter afterwards, and the new node or the reason there is none. */
  datatype FileResult = Created(tree: Tree, last: nat, node: nat)
                      | Refused(tree: Tree, last: nat, reason: FileError)

  ghost function AddDir(t: Tree, last: nat, path: string): Made
    requires WellFormed(t, last)
  {
    MkDirs(t, last, ROOT, Components(path))
  }

  /** `adapters` says whether at least one source yields an adapter. */
  ghost function AddFile(t: Tree, last: nat, path: string, adapters: bool): FileResult
    requires WellFormed(t, last)
  {
    var (dir, name) := CutLast(path);
    var d := if dir != "" then AddDir(t, last, dir) else Made(t, last, ROOT);
    MkDirsMeaning(t, last, [], ROOT, Components(dir));
    if name in d.tree[d.node].kids then Refused(d.tree, d.last, AlreadyExists)
    else if !adapters then Refused(d.tree, d.last + 1, NoValidAdapters)
    else Created(Attach(d.tree, d.last, d.node, name), d.last + 1, d.last + 1)
  }

  lemma AddDirMeaning(t: Tree, last: nat, path: string)
    requires WellFormed(t, last)
    ensures MkDirsSpec(t, last, [], Components(path), AddDir(t, last, path))
    ensures var r := AddDir(t, last, path); AddDir(r.tree, r.last, path) == r
  {
    MkDirsMeaning(t, last, [], ROOT, Components(path));
    MkDirsTwice(t, last, Components(path));
  }

  /** The directory a file request is resolved against, before the file itself is considered. */
  ghost function DirPart(t: Tree, last: nat, path: string): Made
    requires WellFormed(t, last)
  {
    AddDir(t, last, CutLast(path).0)
  }

  lemma NoDirPart(t: Tree, last: nat, path: string)
    requires WellFormed(t, last) && CutLast(path).0 == ""
    ensures DirPart(t, last, path) == Made(t, last, ROOT)
  {
    assert Components("") == [];
  }

  /** The directory part is always made; the file is one more child of it, or nothing is. */
  lemma AddFileShape(t: Tree, last: nat, path: string, adapters: bool)
    requires WellFormed(t, last)
    ensures var d := DirPart(t, last, path);
            var name := CutLast(path).1;
            var r := AddFile(t, last, path, adapters);
            && WellFormed(d.tree, d.last) && d.node in d.tree
            && WellFormed(r.tree, r.last)
            && Resolve(d.tree, Components(CutLast(path).0)) == Some(d.node)
            && (r.Created? <==> name !in d.tree[d.node].kids && adapters)
            && (r.Created? ==> r.node == r.last == d.last + 1
                               && r.tree == Attach(d.tree, d.last, d.node, name))
            && (r.Refused? ==> r.tree == d.tree)
            && (r.Refused? ==> r.reason == (if name in d.tree[d.node].kids then AlreadyExists else NoValidAdapters))
            && (r.Refused? ==> r.last == if r.reason.AlreadyExists? then d.last else d.last + 1)
  {
    var (dir, name) := CutLast(path);
    var comps := Components(dir);
    MkDirsMeaning(t, last, [], ROOT, comps);
    assert [] + comps == comps;
    assert dir == "" ==> comps == [];
    var d := DirPart(t, last, path);
    AttachWellFormed(d.tree, d.last, d.node, name);
  }

  /**
   A file request with adapters does what `mkdir -p` of its full path would, except that it is refused
   when that path is there already.
   */
  lemma AddFileIsMkDirs(t: Tree, last: nat, path: string)
    requires WellFormed(t, last)
    ensures var names := Components(CutLast(path).0) + [CutLast(path).1];
            var made, r := MkDirs(t, last, ROOT, names), AddFile(t, last, path, true);
            && r.tree == made.tree && r.last == made.last
            && (r.Created? ==> r.node == made.node)
            && (r.Created? <==> Resolve(t, names).None?)
            && (r.Refused? ==> r.reason.AlreadyExists? && Resolve(t, names) == Some(made.node))
  {
    var (dir, name) := CutLast(path);
    var dirs := Components(dir);
    var d := DirPart(t, last, path);
    AddFileShape(t, last, path, true);
    MkDirsSnoc(t, last, ROOT, dirs, name);
    MkDirsMeaning(t, last, [], ROOT, dirs);
    assert [] + dirs == dirs;
    hide WellFormed, Attach, AddFile, MkDirs, Resolve, Components;
    ResolveInDir(t, d, dirs, name);
  }

  /** A name below a directory that had to be made was not there; below an old one it is where it was. */
  lemma ResolveInDir(t: Tree, d: Made, dirs: seq<string>, name: string)
    requires Resolve(d.tree, dirs) == Some(d.node) && d.node in d.tree
    requires forall xs :: Resolve(d.tree, xs).Some? <==> Resolve(t, xs).Some? || xs <= dirs
    requires forall xs :: Resolve(t, xs).Some? ==> Resolve(d.tree, xs) == Resolve(t, xs)
    ensures Resolve(t, dirs + [name]) ==
            if name in d.tree[d.node].kids then Some(d.tree[d.node].kids[name]) else None
  {
    ResolveSnoc(d.tree, dirs, name);
    hide Resolve;
    assert !(dirs + [name] <= dirs);
  }

  /**
   A refused file request leaves the tree exactly as the request for its directory part alone
   would; only the inode counter may have moved.
   */
  lemma RefusedFileIsDirOnly(t: Tree, last: nat, path: string, adapters: bool)
    requires WellFormed(t, last) && AddFile(t, last, path, adapters).Refused?
    ensures AddFile(t, last, path, adapters).tree == AddDir(t, last, CutLast(path).0).tree
    ensures forall xs :: Resolve(AddFile(t, last, path, adapters).tree, xs).Some? <==>
              Resolve(t, xs).Some? || xs <= Components(CutLast(path).0)
  {
    AddFileShape(t, last, path, adapters);
    MkDirsMeaning(t, last, [], ROOT, Components(CutLast(path).0));
    assert [] + Components(CutLast(path).0) == Components(CutLast(path).0);
  }

  /** The names that lead to a created file node. */
  lemma CreatedFileNames(t: Tree, last: nat, path: string)
    requires WellFormed(t, last) && AddFile(t, last, path, true).Created?
    ensures var r := AddFile(t, last, path, true);
            WellFormed(r.tree, r.last) && r.node in r.tree &&
            Resolve(r.tree, Components(CutLast(path).0) + [CutLast(path).1]) == Some(r.node)
  {
    AddFileShape(t, last, path, true);
    var d := DirPart(t, last, path);
    hide WellFormed, Attach, AddFile, DirPart;
    AttachResolvesNewNode(d.tree, d.last, Components(CutLast(path).0), d.node, CutLast(path).1);
  }

  lemma AttachResolvesNewNode(t: Tree, last: nat, pp: seq<string>, p: nat, name: string)
    requires WellFormed(t, last) && p in t && Resolve(t, pp) == Some(p) && name !in t[p].kids
    ensures last + 1 in Attach(t, last, p, name)
    ensures Resolve(Attach(t, last, p, name), pp + [name]) == Some(last + 1)
  {
    AttachMissing(t, last, pp, p, name, pp + [name]);
  }

  /**
   Path round trip: the text of a new file's path is the join of the request's components, and
   splitting that text and walking from the root finds the node again.  This holds exactly when
   the request does not end in a slash (nor is empty): otherwise the node gets the empty name,
   which no split path can reach.
   */
  lemma FilePathRoundTrip(t: Tree, last: nat, path: string)
    requires WellFormed(t, last) && AddFile(t, last, path, true).Created?
    ensures var r := AddFile(t, last, path, true);
            && WellFormed(r.tree, r.last) && r.node in r.tree
            && Path(r.tree, r.node).err.None?
            && (CutLast(path).1 != "" ==> Path(r.tree, r.node).text == Join(Components(path)))
            && (Resolve(r.tree, Components(Path(r.tree, r.node).text)) == Some(r.node)
                <==> CutLast(path).1 != "")
  {
    var (dir, name) := CutLast(path);
    var r := AddFile(t, last, path, true);
    var comps := Components(dir);
    CreatedFileNames(t, last, path);
    PathAgreesWithLookup(r.tree, r.last, r.node);
    CutLastComponents(path);
    ComponentsArePlain(path);
    ComponentsArePlain(dir);
    if name == "" {
      UnnamedFilePath(t, last, path);
      ResolveIffNames(r.tree, r.last, r.node, comps);
      ResolveIffNames(r.tree, r.last, r.node, comps + [name]);
    } else {
      assert comps + [name] == Components(path);
    }
  }

  /** A node without a name, in a directory that plain names lead to: its path names the directory. */
  lemma UnnamedChildText(t: Tree, last: nat, n: nat, p: nat, comps: seq<string>)
    requires WellFormed(t, last) && n in t && !t[n].isDel && t[n].parent == Some(p) && t[n].name == ""
    requires p in t && Resolve(t, comps) == Some(p) && AllPlain(comps)
    ensures Components(Path(t, n).text) == comps
  {
    var up := Path(t, p).text;
    assert Path(t, n).text == if up == "" then "" else up + "/" + "";
    hide Path, Resolve, AllPlain;
    PathAgreesWithLookup(t, last, p);
    hide WellFormed;
    SplitAtSlash(up, "");
    NonEmptyAppend(Split(up), [""]);
  }

  lemma UnnamedFilePath(t: Tree, last: nat, path: string)
    requires WellFormed(t, last) && AddFile(t, last, path, true).Created?
    requires CutLast(path).1 == ""
    ensures var r := AddFile(t, last, path, true);
            && WellFormed(r.tree, r.last) && r.node in r.tree
            && Components(Path(r.tree, r.node).text) == Components(CutLast(path).0)
  {
    var comps := Components(CutLast(path).0);
    var d := DirPart(t, last, path);
    var r := AddFile(t, last, path, true);
    AddFileShape(t, last, path, true);
    hide AddFile, DirPart, Path, Components;
    AttachAddsOnePath(d.tree, d.last, comps, d.node, "");
    AttachedEntry(d.tree, d.last, d.node, "");
    ComponentsArePlain(CutLast(path).0);
    hide WellFormed, Attach;
    UnnamedChildText(r.tree, r.last, r.node, d.node, comps);
  }

  lemma SlashedComponents()
    ensures CutLast("a/") == ("a/", "") && Components("a/") == ["a"]
  {
    assert "a/" == "a" + "/" + "";
    ComponentsAtSlash("a", "");
    SplitPlain("a");
    assert Components("a") == ["a"];
  }

  /** A file request that ends in a slash: the file is made, and its own path does not find it. */
  lemma SlashedFileIsLost()
    ensures WellFormed(Fresh(), ROOT)
    ensures var r := AddFile(Fresh(), ROOT, "a/", true);
            && r.Created? && WellFormed(r.tree, r.last) && r.node in r.tree
            && Resolve(r.tree, Components(Path(r.tree, r.node).text)) != Some(r.node)
  {
    FreshIsWellFormed();
    SlashedComponents();
    MkDirsCons(Fresh(), ROOT, ROOT, "a", []);
    AddFileShape(Fresh(), ROOT, "a/", true);
    FilePathRoundTrip(Fresh(), ROOT, "a/");
  }

  /* ---------- Whole runs ---------- */

  /** One operation of a sequential run; `parent` is any node ever created. */
  datatype Op = Dir(path: string)
              | File(path: string, adapters: bool)
              | Add(parent: nat, name: string)
              | Remove(parent: nat, name: string)

  datatype State = State(tree: Tree, last: nat)

  ghost predicate Ok(s: State) {
    WellFormed(s.tree, s.last)
  }

  /** No node is forgotten, renamed or moved: its parent pointer stays, or is cleared for good. */
  ghost predicate Kept(t: Tree, t': Tree) {
    forall n :: n in t ==>
      && n in t' && t'[n].name == t[n].name
      && (t'[n].parent == t[n].parent || t'[n].parent.None?)
      && (t[n].isDel ==> t'[n].isDel)
  }

  lemma KeptTransitive(t: Tree, t': Tree, t'': Tree)
    requires Kept(t, t') && Kept(t', t'')
    ensures Kept(t, t'')
  {
  }

  lemma RelinkedKeeps(t: Tree, p: nat, name: string, mark: bool, kid: Option<nat>, t': Tree)
    requires p in t && Relinked(t, p, name, mark, kid, t') && (kid.Some? ==> kid.value !in t)
    ensures Kept(t, t')
  {
  }

  lemma AttachKeeps(t: Tree, last: nat, p: nat, name: string)
    requires WellFormed(t, last) && p in t
    ensures WellFormed(Attach(t, last, p, name), last + 1) && Kept(t, Attach(t, last, p, name))
  {
    AttachWellFormed(t, last, p, name);
    assert last + 1 !in t;
    hide WellFormed, Attach, Kept, Relinked;
    RelinkedKeeps(t, p, name, true, Some(last + 1), Attach(t, last, p, name));
  }

  lemma RemoveKeeps(t: Tree, last: nat, p: nat, name: string)
    requires WellFormed(t, last) && p in t
    ensures WellFormed(RemoveChild(t, p, name), last) && Kept(t, RemoveChild(t, p, name))
  {
    RemoveWellFormed(t, last, p, name);
    hide WellFormed, RemoveChild, Kept, Relinked;
    RelinkedKeeps(t, p, name, false, None, RemoveChild(t, p, name));
  }

  lemma AddFileKeeps(t: Tree, last: nat, path: string, adapters: bool)
    requires WellFormed(t, last)
    ensures var r := AddFile(t, last, path, adapters);
            WellFormed(r.tree, r.last) && last <= r.last && Kept(t, r.tree)
  {
    AddFileShape(t, last, path, adapters);
    MkDirsKeeps(t, last, ROOT, Components(CutLast(path).0));
    var d := DirPart(t, last, path);
    var r := AddFile(t, last, path, adapters);
    if r.Created? {
      AttachKeeps(d.tree, d.last, d.node, CutLast(path).1);
      KeptTransitive(t, d.tree, r.tree);
    }
  }

  /** An operation on a node that was never created cannot be called and changes nothing here. */
  ghost function Apply(s: State, op: Op): (r: State)
    requires Ok(s)
    ensures Ok(r) && s.last <= r.last && Kept(s.tree, r.tree)
  {
    match op
    case Dir(path) =>
      AddDirMeaning(s.tree, s.last, path);
      MkDirsKeeps(s.tree, s.last, ROOT, Components(path));
      var r := AddDir(s.tree, s.last, path);
      State(r.tree, r.last)
    case File(path, adapters) =>
      AddFileKeeps(s.tree, s.last, path, adapters);
      var r := AddFile(s.tree, s.last, path, adapters);
      State(r.tree, r.last)
    case Add(p, name) =>
      if p !in s.tree then s
      else
        AttachKeeps(s.tree, s.last, p, name);
        State(Attach(s.tree, s.last, p, name), s.last + 1)
    case Remove(p, name) =>
      if p !in s.tree then s
      else
        RemoveKeeps(s.tree, s.last, p, name);
        State(RemoveChild(s.tree, p, name), s.last)
  }

  lemma KeptReflexive(t: Tree)
    ensures Kept(t, t)
  {
  }

  lemma {:induction false} MkDirsKeeps(t: Tree, last: nat, cur: nat, names: seq<string>)
    requires WellFormed(t, last) && cur in t
    ensures Kept(t, MkDirs(t, last, cur, names).tree)
    ensures last <= MkDirs(t, last, cur, names).last
    decreases |names|
  {
    hide WellFormed, Attach, Kept, MkDirs;
    if names == [] {
      MkDirsNone(t, last, cur);
      KeptReflexive(t);
    } else {
      var name, rest := names[0], names[1..];
      assert names == [name] + rest;
      MkDirsCons(t, last, cur, name, rest);
      if name in t[cur].kids {
        MkDirsKeeps(t, last, t[cur].kids[name], rest);
      } else {
        AttachKeeps(t, last, cur, name);
        var t' := Attach(t, last, cur, name);
        MkDirsKeeps(t', last + 1, last + 1, rest);
        KeptTransitive(t, t', MkDirs(t', last + 1, last + 1, rest).tree);
      }
    }
  }

  ghost function Run(ops: seq<Op>): (r: State)
    ensures Ok(r)
  {
    if ops == [] then
      FreshIsWellFormed();
      State(Fresh(), ROOT)
    else
      Apply(Run(ops[..|ops| - 1]), ops[|ops| - 1])
  }

  /** The paths are the old ones and the prefixes of `names`. */
  ghost predicate PathsGrow(t: Tree, t': Tree, names: seq<string>) {
    forall xs :: Resolve(t', xs).Some? <==> Resolve(t, xs).Some? || xs <= names
  }

  /** Node `p` has a new child with the new inode number; a child of that name before is marked as deleted. */
  ghost predicate KidAdded(s: State, p: nat, name: string, s': State) {
    p in s.tree ==>
      && p in s'.tree && s'.last == s.last + 1 && s'.tree[p].kids == s.tree[p].kids[name := s'.last]
      && (name in s.tree[p].kids ==> s.tree[p].kids[name] in s'.tree && s'.tree[s.tree[p].kids[name]].isDel)
  }

  /** Node `p` has lost that child, and the child its parent and nothing else. */
  ghost predicate KidRemoved(s: State, p: nat, name: string, s': State) {
    p in s.tree ==>
      && p in s'.tree && s'.last == s.last && s'.tree[p].kids == s.tree[p].kids - {name}
      && (name in s.tree[p].kids ==>
            && s.tree[p].kids[name] in s'.tree && s.tree[p].kids[name] in s.tree
            && s'.tree[s.tree[p].kids[name]] == s.tree[s.tree[p].kids[name]].(parent := None))
  }

  /** What an operation does to the tree. */
  ghost predicate TakesEffect(s: State, op: Op, s': State) {
    match op
    case Dir(path) => PathsGrow(s.tree, s'.tree, Components(path))
    case File(path, adapters) =>
      var dirs, name := Components(CutLast(path).0), CutLast(path).1;
      PathsGrow(s.tree, s'.tree, if adapters then dirs + [name] else dirs)
    case Add(p, name) => KidAdded(s, p, name, s')
    case Remove(p, name) => KidRemoved(s, p, name, s')
  }

  /** After any run, one operation more takes effect. */
  lemma OperationTakesEffect(ops: seq<Op>, op: Op)
    ensures TakesEffect(Run(ops), op, Run(ops + [op]))
  {
    var s := Run(ops);
    assert (ops + [op])[..|ops + [op]| - 1] == ops;
    assert Run(ops + [op]) == Apply(s, op);
    hide Run;
    if op.Dir? {
      DirTakesEffect(s, op.path);
    } else if op.File? {
      FileTakesEffect(s, op.path, op.adapters);
    } else if op.Add? {
      AddTakesEffect(s, op.parent, op.name);
    } else {
      RemoveTakesEffect(s, op.parent, op.name);
    }
  }

  lemma AddTakesEffect(s: State, p: nat, name: string)
    requires Ok(s)
    ensures KidAdded(s, p, name, Apply(s, Add(p, name)))
  {
    if p in s.tree {
      AttachWellFormed(s.tree, s.last, p, name);
      OtherKid(s, p, name);
      assert Apply(s, Add(p, name)) == State(Attach(s.tree, s.last, p, name), s.last + 1);
      hide Attach, Apply, WellFormed;
    }
  }

  lemma OtherKid(s: State, p: nat, name: string)
    requires Ok(s) && p in s.tree
    ensures s.last + 1 !in s.tree
    ensures name in s.tree[p].kids ==> s.tree[p].kids[name] in s.tree && s.tree[p].kids[name] != p
  {
    assert name in s.tree[p].kids ==> KidAgrees(s.tree, p, name);
  }

  lemma RemoveTakesEffect(s: State, p: nat, name: string)
    requires Ok(s)
    ensures KidRemoved(s, p, name, Apply(s, Remove(p, name)))
  {
    if p in s.tree {
      RemoveWellFormed(s.tree, s.last, p, name);
      OtherKid(s, p, name);
      assert Apply(s, Remove(p, name)) == State(RemoveChild(s.tree, p, name), s.last);
      hide RemoveChild, Apply, WellFormed;
    }
  }

  lemma DirTakesEffect(s: State, path: string)
    requires Ok(s)
    ensures PathsGrow(s.tree, Apply(s, Dir(path)).tree, Components(path))
  {
    AddDirMeaning(s.tree, s.last, path);
    assert [] + Components(path) == Components(path);
  }

  lemma FileTakesEffect(s: State, path: string, adapters: bool)
    requires Ok(s)
    ensures var dirs, name := Components(CutLast(path).0), CutLast(path).1;
            PathsGrow(s.tree, Apply(s, File(path, adapters)).tree, if adapters then dirs + [name] else dirs)
  {
    var dirs, name := Components(CutLast(path).0), CutLast(path).1;
    assert Apply(s, File(path, adapters)).tree == AddFile(s.tree, s.last, path, adapters).tree;
    if adapters {
      AddFileIsMkDirs(s.tree, s.last, path);
      MkDirsMeaning(s.tree, s.last, [], ROOT, dirs + [name]);
      assert [] + (dirs + [name]) == dirs + [name];
    } else {
      AddFileShape(s.tree, s.last, path, false);
      RefusedFileIsDirOnly(s.tree, s.last, path, false);
    }
    hide Apply, AddFile, Resolve, MkDirs, Components, WellFormed;
  }

  /**
   In every run, for every node ever created: `Path` reports no error exactly when the node
   still resolves from the root, and it resolves under at most one list of names.
   */
  lemma RunPathAgreesWithLookup(ops: seq<Op>, n: nat)
    requires n in Run(ops).tree
    ensures Path(Run(ops).tree, n).err.None? <==> exists xs :: Resolve(Run(ops).tree, xs) == Some(n)
    ensures forall xs, ys :: Resolve(Run(ops).tree, xs) == Some(n) && Resolve(Run(ops).tree, ys) == Some(n)
              ==> xs == ys
  {
    var s := Run(ops);
    PathAgreesWithLookup(s.tree, s.last, n);
    forall xs | Resolve(s.tree, xs) == Some(n)
      ensures Names(s.tree, n) == Some(xs)
    {
      ResolveIffNames(s.tree, s.last, n, xs);
    }
  }

  lemma {:induction false} NamesKept(t: Tree, t': Tree, n: nat)
    requires Kept(t, t') && n in t && Names(t', n).Some?
    requires ParentsAgree(t)
    ensures Names(t, n) == Names(t', n)
    decreases n
  {
    if n != ROOT {
      NamesKept(t, t', t[n].parent.value);
    }
  }

  lemma {:induction false} RunKeeps(ops: seq<Op>, more: seq<Op>)
    ensures Kept(Run(ops).tree, Run(ops + more).tree)
    decreases |more|
  {
    if more == [] {
      assert ops + more == ops;
    } else {
      var init := more[..|more| - 1];
      RunKeeps(ops, init);
      assert (ops + more)[..|ops + more| - 1] == ops + init;
    }
  }

  /**
   Nodes never move: under whatever names a node resolves later in a run, it resolved under the
   same names before.  So a node once cut off never comes back.
   */
  lemma NodesNeverMove(ops: seq<Op>, more: seq<Op>, n: nat, xs: seq<string>)
    requires n in Run(ops).tree
    requires Resolve(Run(ops + more).tree, xs) == Some(n)
    ensures Resolve(Run(ops).tree, xs) == Some(n)
  {
    var s, s' := Run(ops), Run(ops + more);
    RunKeeps(ops, more);
    ResolveIffNames(s'.tree, s'.last, n, xs);
    NamesKept(s.tree, s'.tree, n);
    ResolveIffNames(s.tree, s.last, n, xs);
  }
}
