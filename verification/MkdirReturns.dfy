/**
 What racing AddDirNode and AddFileNode calls return.  A call that succeeds returns a node; it must be
 the one in place under the requested path when all calls are done, not one that another call has
 replaced since.
 */
module MkdirReturns {
  import opened Common
  import opened Trees
  import opened MkdirRace
  import opened MkdirLoss
  import Paths
  import R = Requests

  /** No other request shares a prefix of this one's path that is missing at the start. */
  ghost predicate Alone(t0: Tree, threads: map<nat, Thread>, i: nat) {
    forall j, k: nat :: j != i ==> !Sharing(t0, threads, i, j, k)
  }

  /** If call `i` succeeded, the node it returned is the one that its path leads to. */
  ghost predicate ReturnsItsNode(s: State, i: nat)
    requires i in s.threads
  {
    Succeeded(s.threads[i]) ==> Resolve(s.tree, s.threads[i].path) == Some(Cur(s.threads[i]))
  }

  /* ---------- Enough ---------- */

  lemma AloneIsSafe(t0: Tree, threads: map<nat, Thread>, i: nat)
    requires Alone(t0, threads, i)
    ensures Safe(t0, threads, i)
  {
  }

  lemma SamePathsAlone(t0: Tree, threads: map<nat, Thread>, threads': map<nat, Thread>, i: nat)
    requires Alone(t0, threads, i) && threads'.Keys == threads.Keys
    requires forall j :: j in threads ==> threads'[j].path == threads[j].path
    ensures Alone(t0, threads', i)
  {
    forall j, k: nat | j != i ensures !Sharing(t0, threads', i, j, k) {
      assert !Sharing(t0, threads, i, j, k);
    }
  }

  /** The node that a call returned stands at its path. */
  lemma CurStands(t0: Tree, last0: nat, s: State, i: nat)
    requires Inv(t0, last0, s) && i in s.threads && Succeeded(s.threads[i])
    ensures Stands(t0, s, Cur(s.threads[i]), s.threads[i].path)
    ensures Cur(s.threads[i]) in s.born ==> Resolve(t0, s.threads[i].path).None?
  {
    var th := s.threads[i];
    assert ThreadOk(t0, s, i);
    assert th.path[..|th.path|] == th.path;
    assert Stands(t0, s, th.trail[|th.path|], th.path[..|th.path|]);
    if Cur(th) in s.born {
      assert OriginOk(t0, s, Cur(th));
    }
  }

  /** A node that stands at the path of a thread alone there is that thread's own. */
  lemma OnlyOneStands(t0: Tree, last0: nat, s: State, i: nat, n: nat)
    requires Inv(t0, last0, s) && AllFinished(s) && i in s.threads && Alone(t0, s.threads, i)
    requires Succeeded(s.threads[i]) && Stands(t0, s, n, s.threads[i].path)
    ensures n == Cur(s.threads[i])
  {
    var th := s.threads[i];
    CurStands(t0, last0, s, i);
    if n in s.born {
      var u := s.born[n].tid;
      assert OriginOk(t0, s, n);
      assert Finished(s.threads[u]);
      assert th.path[..|th.path|] == th.path;
      assert u != i ==> !Sharing(t0, s.threads, i, u, |th.path|);
    }
  }

  lemma AloneReturnsItsNode(t0: Tree, last0: nat, s: State, i: nat)
    requires Inv(t0, last0, s) && AllFinished(s) && i in s.threads && Alone(t0, s.threads, i)
    ensures ReturnsItsNode(s, i)
  {
    if Succeeded(s.threads[i]) {
      var path := s.threads[i].path;
      AloneIsSafe(t0, s.threads, i);
      hide Inv, AllFinished, Alone, Safe, Stands;
      PathInPlace(t0, last0, s, i, |path|);
      assert path[..|path|] == path;
      ResolvedStands(t0, last0, s, path);
      OnlyOneStands(t0, last0, s, i, Resolve(s.tree, path).value);
    }
  }

  lemma AloneInRun(s0: State, sched: seq<nat>, i: nat)
    requires Init(s0) && i in s0.threads && Alone(s0.tree, s0.threads, i) && AllFinished(Exec(s0, sched))
    ensures i in Exec(s0, sched).threads && ReturnsItsNode(Exec(s0, sched), i)
  {
    InitInv(s0);
    ExecInv(s0.tree, s0.last, s0, sched);
    hide Init, Inv, Alone, AllFinished, Exec;
    SamePathsAlone(s0.tree, s0.threads, Exec(s0, sched).threads, i);
    AloneReturnsItsNode(s0.tree, s0.last, Exec(s0, sched), i);
  }

  /* ---------- Needed ---------- */

  /** Whatever lies below a node that thread `q` has made and not yet left is no older than that node. */
  lemma FinishesBelow(s: State, q: nat, done: seq<string>, r: State, xs: seq<string>)
    requires Sane(s) && WellFormed(s.tree, s.last) && q in s.threads && FinishedAlone(s, q, r)
    requires s.threads[q].trail != [] && Cur(s.threads[q]) in s.tree
    requires |s.threads[q].trail| == |done| + 1 && done <= s.threads[q].path && done <= xs
    requires Resolve(s.tree, done) == Some(Cur(s.threads[q]))
    ensures Resolve(r.tree, xs).Some? ==> Resolve(r.tree, xs).value >= Cur(s.threads[q])
  {
    var c, names := Cur(s.threads[q]), Rest(s.threads[q]);
    MkDirsMeaning(s.tree, s.last, done, c, names);
    assert Resolve(r.tree, done) == Some(c);
    WalkStays(r.tree, r.last, ROOT, done);
    hide MkDirs, MkDirsSpec, FinishedAlone, Sane;
    var ys := xs[|done|..];
    assert xs == done + ys;
    WalkAppend(r.tree, ROOT, done, ys);
    WalkStays(r.tree, r.last, c, ys);
  }

  /** After everybody else, the stalled thread succeeds, and what it shares with `lost` is new. */
  lemma StalledThreadReplaces(s: State, q: nat, k: nat, lost: seq<string>) returns (r: State)
    requires Sane(s) && WellFormed(s.tree, s.last) && q in s.threads && s.threads[q].pc.Missed?
    requires |s.threads[q].trail| == k + 1 && k < |s.threads[q].path|
    requires Resolve(s.tree, s.threads[q].path[..k]) == Some(Cur(s.threads[q]))
    requires s.threads[q].path[..k + 1] <= lost
    ensures Reaches(s, r) && Sane(r)
    ensures Resolve(r.tree, lost).Some? ==> Resolve(r.tree, lost).value > s.last
    ensures r.threads.Keys == s.threads.Keys && Succeeded(r.threads[q]) && r.threads[q].path == s.threads[q].path
    ensures forall i :: i in s.threads && i != q ==> r.threads[i] == s.threads[i]
  {
    hide Reaches, WellFormed, Sane, Resolve, MkDirs;
    var th := s.threads[q];
    var s1 := BranchRemade(s, q, k);
    SaneThread(s1, q);
    r := FinishAlone(s1, q);
    ReachesTransitive(s, s1, r);
    var done := th.path[..k + 1];
    FinishesBelow(s1, q, done, r, lost);
    NothingBelow(s1.tree, done, s1.last, Rest(s1.threads[q]));
  }

  lemma NothingBelow(t: Tree, done: seq<string>, c: nat, ys: seq<string>)
    requires Resolve(t, done) == Some(c) && forall zs :: zs != [] ==> Resolve(t, done + zs).None?
    ensures ys != [] ==> Walk(t, c, ys).None?
  {
    WalkAppend(t, ROOT, done, ys);
  }

  lemma OldNumbers(s: State, i: nat)
    requires Sane(s) && i in s.threads
    ensures s.threads[i].trail != [] && Cur(s.threads[i]) in s.tree && Cur(s.threads[i]) <= s.last
  {
    assert ThreadSane(s.threads[i], s.tree);
  }

  /**
   Two requests that share a missing prefix: a schedule in which all calls finish and these two
   succeed, and yet the path of `p` does not lead to the node that `p` returned.
   */
  lemma SharedIsReplaced(s0: State, p: nat, q: nat, m: nat) returns (r: State)
    requires Init(s0) && p != q && Sharing(s0.tree, s0.threads, p, q, m)
    ensures Reaches(s0, r) && AllFinished(r) && r.threads.Keys == s0.threads.Keys
    ensures Succeeded(r.threads[p]) && Succeeded(r.threads[q]) && !ReturnsItsNode(r, p)
  {
    hide Reaches, WellFormed, Sane, Resolve;
    var s1, k := StallOne(s0, p, q, m);
    OldNumbers(s1, p);
    r := StalledThreadReplaces(s1, q, k, s0.threads[p].path);
    ReachesTransitive(s0, s1, r);
    forall i | i in r.threads ensures Finished(r.threads[i]) {
      if i != q {
        assert Finished(s1.threads[i]);
      }
    }
  }

  lemma SharingLosesNode(s0: State, i: nat) returns (sched: seq<nat>)
    requires Init(s0) && i in s0.threads && !Alone(s0.tree, s0.threads, i)
    ensures AllFinished(Exec(s0, sched)) && i in Exec(s0, sched).threads && !ReturnsItsNode(Exec(s0, sched), i)
  {
    var j, m: nat :| j != i && Sharing(s0.tree, s0.threads, i, j, m);
    var r := SharedIsReplaced(s0, i, j, m);
    sched :| Exec(s0, sched) == r;
  }

  /* ---------- Exactly ---------- */

  /**
   The exact condition for one request, directory or file: in every complete run in which it succeeds
   it has returned the node that its path leads to, if and only if no other request shares a prefix of
   its path that is missing at the start.  So unlike for the paths alone, two requests for the same
   missing path are already too many.
   */
  lemma ReturnedNodeExactCondition(s0: State, i: nat)
    requires Init(s0) && i in s0.threads
    ensures Alone(s0.tree, s0.threads, i) <==>
            forall sched :: AllFinished(Exec(s0, sched)) ==>
              i in Exec(s0, sched).threads && ReturnsItsNode(Exec(s0, sched), i)
  {
    if Alone(s0.tree, s0.threads, i) {
      forall sched | AllFinished(Exec(s0, sched))
        ensures i in Exec(s0, sched).threads && ReturnsItsNode(Exec(s0, sched), i)
      {
        AloneInRun(s0, sched, i);
      }
    } else {
      var sched := SharingLosesNode(s0, i);
    }
  }

  /**
   Racing file requests, among any directory requests: every file whose call reported success is found
   under its path in every complete run, if and only if no file request shares a missing prefix of its
   full path with another request.
   */
  lemma FilesExactCondition(s0: State)
    requires Init(s0)
    ensures (forall i :: i in s0.threads && s0.threads[i].file ==> Alone(s0.tree, s0.threads, i)) <==>
            forall sched :: AllFinished(Exec(s0, sched)) ==>
              forall i :: i in s0.threads && s0.threads[i].file ==>
                i in Exec(s0, sched).threads && ReturnsItsNode(Exec(s0, sched), i)
  {
    hide Init, Alone, AllFinished, Exec, ReturnsItsNode;
    if forall i :: i in s0.threads && s0.threads[i].file ==> Alone(s0.tree, s0.threads, i) {
      forall sched, i | AllFinished(Exec(s0, sched)) && i in s0.threads && s0.threads[i].file
        ensures i in Exec(s0, sched).threads && ReturnsItsNode(Exec(s0, sched), i)
      {
        AloneInRun(s0, sched, i);
      }
    } else {
      var i :| i in s0.threads && s0.threads[i].file && !Alone(s0.tree, s0.threads, i);
      var sched := SharingLosesNode(s0, i);
    }
  }

  /* ---------- When a file request succeeds ---------- */

  lemma FileSuccess(t0: Tree, last0: nat, s: State, i: nat)
    requires Inv(t0, last0, s) && i in s.threads && s.threads[i].file && Succeeded(s.threads[i])
    ensures var th := s.threads[i];
            && Cur(th) !in t0 && Cur(th) in s.born && s.born[Cur(th)] == Origin(i, th.path)
            && Resolve(t0, th.path).None?
  {
    assert FileOk(s, i);
    CurStands(t0, last0, s, i);
    var n := Cur(s.threads[i]);
    assert n in t0 ==> OldOk(t0, s, n);
  }

  /**
   At any moment of a run, a file request that has succeeded returned a node that it made itself in this
   run, for its own path, and nothing was under that path at the start.
   */
  lemma FileSuccessIsNew(s0: State, sched: seq<nat>, i: nat)
    requires Init(s0) && i in Exec(s0, sched).threads
    requires Exec(s0, sched).threads[i].file && Succeeded(Exec(s0, sched).threads[i])
    ensures var s := Exec(s0, sched);
            var th := s.threads[i];
            && Cur(th) !in s0.tree && Cur(th) in s.born && s.born[Cur(th)] == Origin(i, th.path)
            && Resolve(s0.tree, th.path).None?
  {
    InitInv(s0);
    ExecInv(s0.tree, s0.last, s0, sched);
    hide Init, Inv, Exec, Resolve;
    FileSuccess(s0.tree, s0.last, Exec(s0, sched), i);
  }

  /** A request that was refused was so for a child of its directory, and that stands at its path. */
  lemma RefusedForKid(t0: Tree, last0: nat, s: State, i: nat) returns (n: nat)
    requires Inv(t0, last0, s) && AllFinished(s) && i in s.threads && s.threads[i].pc.Refused?
    ensures s.threads[i].file && n in s.tree && Stands(t0, s, n, s.threads[i].path)
    ensures n in s.born ==> OriginOk(t0, s, n) && |s.threads[i].trail| == |s.threads[i].path|
  {
    var th := s.threads[i];
    assert ThreadOk(t0, s, i) && SettledOk(s, i);
    TrailStands(t0, s, i);
    assert th.path[..|th.path|] == th.path;
    hide ThreadOk, Stands;
    SettledAtEnd(s, Cur(th), Name(th));
    n := s.tree[Cur(th)].kids[Name(th)];
    InvStands(t0, last0, s, Cur(th), th.path[..|th.path| - 1], Name(th));
    assert KidOk(t0, s, Cur(th), Name(th));
  }

  /** A node made for the path of a request that is alone there was made by that request. */
  lemma MakerIsItself(t0: Tree, s: State, i: nat, n: nat)
    requires i in s.threads && Alone(t0, s.threads, i) && Resolve(t0, s.threads[i].path).None?
    requires n in s.born ==> OriginOk(t0, s, n) && s.born[n].names == s.threads[i].path
    ensures n in s.born ==> s.born[n].tid == i
  {
    var path := s.threads[i].path;
    assert path[..|path|] == path;
    hide Resolve;
    assert n in s.born && s.born[n].tid != i ==> !Sharing(t0, s.threads, i, s.born[n].tid, |path|);
  }

  /** Alone on its path, and the path was not there: then it is not refused. */
  lemma AloneNotRefused(t0: Tree, last0: nat, s: State, i: nat)
    requires Inv(t0, last0, s) && AllFinished(s) && i in s.threads && Alone(t0, s.threads, i)
    requires Resolve(t0, s.threads[i].path).None?
    ensures Succeeded(s.threads[i])
  {
    var th := s.threads[i];
    assert Finished(th);
    if th.pc.Refused? {
      var n := RefusedForKid(t0, last0, s, i);
      hide Inv, AllFinished, Resolve;
      MakerIsItself(t0, s, i, n);
    }
  }

  /**
   How a file request ends in a complete run: refused if its path was there at the start, whatever the
   others do; and with success if it was not and no other request shares a missing prefix with it.
   */
  lemma FileOutcome(s0: State, sched: seq<nat>, i: nat)
    requires Init(s0) && i in s0.threads && s0.threads[i].file && AllFinished(Exec(s0, sched))
    ensures i in Exec(s0, sched).threads
    ensures Resolve(s0.tree, s0.threads[i].path).Some? ==> Exec(s0, sched).threads[i].pc.Refused?
    ensures Resolve(s0.tree, s0.threads[i].path).None? && Alone(s0.tree, s0.threads, i) ==>
              Succeeded(Exec(s0, sched).threads[i])
  {
    var s := Exec(s0, sched);
    InitInv(s0);
    ExecInv(s0.tree, s0.last, s0, sched);
    ExecFiles(s0, sched);
    assert Finished(s.threads[i]);
    hide Init, Inv, AllFinished, Exec, Resolve, Alone;
    if Resolve(s0.tree, s0.threads[i].path).Some? {
      if Succeeded(s.threads[i]) {
        FileSuccess(s0.tree, s0.last, s, i);
      }
    } else if Alone(s0.tree, s0.threads, i) {
      SamePathsAlone(s0.tree, s0.threads, s.threads, i);
      AloneNotRefused(s0.tree, s0.last, s, i);
    }
  }

  lemma StepFiles(s: State, i: nat)
    requires Sane(s) && i in s.threads
    ensures ThreadSane(s.threads[i], s.tree) && Step(s, i).threads.Keys == s.threads.Keys
    ensures forall j :: j in s.threads ==> Step(s, i).threads[j].file == s.threads[j].file
  {
  }

  lemma {:induction false} ExecFiles(s: State, sched: seq<nat>)
    requires Sane(s)
    ensures Exec(s, sched).threads.Keys == s.threads.Keys
    ensures forall i :: i in s.threads ==> Exec(s, sched).threads[i].file == s.threads[i].file
    decreases |sched|
  {
    if sched != [] && sched[0] in s.threads {
      StepSane(s, sched[0]);
      StepFiles(s, sched[0]);
      hide Step, Sane, ThreadSane;
      ExecFiles(Step(s, sched[0]), sched[1..]);
    } else if sched != [] {
      ExecFiles(s, sched[1..]);
    }
  }

  lemma FinishedAloneIsAddFile(s: State, i: nat, path: string, r: State)
    requires i in s.threads && WellFormed(s.tree, s.last) && ThreadSane(s.threads[i], s.tree)
    requires s.threads[i].trail == [ROOT] && s.threads[i].file && FinishedAlone(s, i, r)
    requires s.threads[i].path == Paths.Components(Paths.CutLast(path).0) + [Paths.CutLast(path).1]
    ensures var made := R.AddFile(s.tree, s.last, path, true);
            && r.tree == made.tree && r.last == made.last && i in r.threads
            && (Succeeded(r.threads[i]) <==> made.Created?) && (r.threads[i].pc.Refused? <==> made.Refused?)
  {
    R.AddFileIsMkDirs(s.tree, s.last, path);
    assert Rest(s.threads[i]) == s.threads[i].path;
    assert Resolve(s.tree, s.threads[i].path) == Walk(s.tree, ROOT, s.threads[i].path);
    hide WellFormed, ThreadSane, MkDirs, R.AddFile, Paths.Components, Paths.CutLast, Walk, Resolve;
  }

  /** Run by itself, a file request leaves what the value-level request leaves, and is refused if that is. */
  lemma FileAlone(s0: State, i: nat, path: string) returns (r: State)
    requires Init(s0) && i in s0.threads && s0.threads[i].file
    requires s0.threads[i].path == Paths.Components(Paths.CutLast(path).0) + [Paths.CutLast(path).1]
    ensures Reaches(s0, r) && i in r.threads
    ensures var made := R.AddFile(s0.tree, s0.last, path, true);
            && r.tree == made.tree && r.last == made.last
            && (Succeeded(r.threads[i]) <==> made.Created?) && (r.threads[i].pc.Refused? <==> made.Refused?)
  {
    hide Sane, WellFormed, ThreadSane, Reaches, FinishedAlone, R.AddFile, Paths.Components, Paths.CutLast;
    SaneThread(s0, i);
    r := FinishAlone(s0, i);
    FinishedAloneIsAddFile(s0, i, path, r);
  }

  /** No node has two addresses. */
  lemma StandsOnce(t0: Tree, last0: nat, s: State, n: nat, a: seq<string>, b: seq<string>)
    requires WellFormed(t0, last0) && Stands(t0, s, n, a) && Stands(t0, s, n, b)
    ensures a == b
  {
    if n !in s.born {
      ResolveIffNames(t0, last0, n, a);
      ResolveIffNames(t0, last0, n, b);
    }
  }

  /** At any moment of a run, the node that a call returned is found under the call's path or not at all. */
  lemma ReturnedUnderOwnPath(s0: State, sched: seq<nat>, i: nat, xs: seq<string>)
    requires Init(s0) && i in Exec(s0, sched).threads && Succeeded(Exec(s0, sched).threads[i])
    requires Resolve(Exec(s0, sched).tree, xs) == Some(Cur(Exec(s0, sched).threads[i]))
    ensures xs == Exec(s0, sched).threads[i].path
  {
    var s := Exec(s0, sched);
    InitInv(s0);
    ExecInv(s0.tree, s0.last, s0, sched);
    assert WellFormed(s0.tree, s0.last);
    hide Init, Inv, Exec, Stands, Resolve, WellFormed;
    ResolvedStands(s0.tree, s0.last, s, xs);
    CurStands(s0.tree, s0.last, s, i);
    StandsOnce(s0.tree, s0.last, s, Cur(s.threads[i]), xs, s.threads[i].path);
  }

  /**
   Two requests for one new file in a directory that is there: both may report success, and one of
   the two files is then not reachable under any name.
   */
  lemma SameFileTwice(t: Tree, last: nat, dir: seq<string>, name: string) returns (s0: State, sched: seq<nat>)
    requires WellFormed(t, last) && Resolve(t, dir).Some? && Resolve(t, dir + [name]).None?
    ensures var request := Thread(dir + [name], [ROOT], Walking, true);
            Init(s0) && s0.tree == t && s0.last == last && s0.threads == map[0 := request, 1 := request]
    ensures var s := Exec(s0, sched);
            && s.threads.Keys == {0, 1} && Succeeded(s.threads[0]) && Succeeded(s.threads[1])
            && forall xs :: Resolve(s.tree, xs) != Some(Cur(s.threads[0]))
  {
    var request := Thread(dir + [name], [ROOT], Walking, true);
    s0 := State(t, last, map[0 := request, 1 := request], map[]);
    assert (dir + [name])[..|dir| + 1] == dir + [name];
    assert Sharing(t, s0.threads, 0, 1, |dir| + 1);
    var r := SharedIsReplaced(s0, 0, 1, |dir| + 1);
    sched :| Exec(s0, sched) == r;
    forall xs ensures Resolve(r.tree, xs) != Some(Cur(r.threads[0])) {
      if Resolve(r.tree, xs) == Some(Cur(r.threads[0])) {
        ReturnedUnderOwnPath(s0, sched, 0, xs);
      }
    }
  }
}
