/**
 The other half of the condition on racing calls: whenever a request shares a missing prefix with one
 that does not go on along its path, some schedule loses its path.  That other thread misses a shared
 directory and stalls; everybody else finishes; then the stalled thread replaces the directory.
 */
module MkdirLoss {
  import opened Common
  import opened Trees
  import opened MkdirRace

  /** Some schedule leads from `s` to `r`. */
  ghost predicate Reaches(s: State, r: State)
    requires Sane(s)
  {
    exists sched :: Exec(s, sched) == r
  }

  lemma {:induction false} ExecAppend(s: State, a: seq<nat>, b: seq<nat>)
    requires Sane(s)
    ensures Exec(s, a + b) == Exec(Exec(s, a), b)
    decreases |a|
  {
    if a == [] {
      assert a + b == b;
    } else {
      assert (a + b)[1..] == a[1..] + b;
      if a[0] in s.threads {
        StepSane(s, a[0]);
        hide Step, Sane;
        ExecAppend(Step(s, a[0]), a[1..], b);
      } else {
        ExecAppend(s, a[1..], b);
      }
    }
  }

  lemma ReachesTransitive(s: State, s': State, s'': State)
    requires Sane(s) && Reaches(s, s') && Sane(s') && Reaches(s', s'')
    ensures Reaches(s, s'')
  {
    hide Sane;
    var a :| Exec(s, a) == s';
    var b :| Exec(s', b) == s'';
    ExecAppend(s, a, b);
  }

  lemma ReachesSelf(s: State)
    requires Sane(s)
    ensures Reaches(s, s)
  {
    assert Exec(s, []) == s;
  }

  lemma StepReaches(s: State, i: nat)
    requires Sane(s) && i in s.threads
    ensures Sane(Step(s, i)) && Reaches(s, Step(s, i))
  {
    StepSane(s, i);
    hide Step, Sane;
    assert [i][1..] == [];
    assert Exec(Step(s, i), []) == Step(s, i);
    assert Exec(s, [i]) == Step(s, i);
  }

  /** `r` is `s` with thread `i` at `th` and another tree and counter. */
  ghost predicate Moved(s: State, i: nat, tree: Tree, last: nat, th: Thread, r: State) {
    r.tree == tree && r.last == last && r.threads == s.threads[i := th]
  }

  /** The thread after it has entered or made the next directory. */
  function Advanced(th: Thread, n: nat): Thread {
    th.(trail := th.trail + [n], pc := Walking)
  }

  /** The thread after a child was found: refused if that was to be its file, else one further. */
  function Entered(th: Thread, n: nat): Thread {
    if th.file && |th.trail| == |th.path| then th.(pc := Refused) else Advanced(th, n)
  }

  lemma TakeAlone(s: State, i: nat) returns (r: State)
    requires Sane(s) && i in s.threads && s.threads[i].pc.Making?
    ensures Reaches(s, r) && Sane(r)
    ensures var th := s.threads[i];
            var cur, x := Cur(th), Name(th);
            Moved(s, i, if x in s.tree[cur].kids then Del(DropKid(s.tree, cur, x), s.tree[cur].kids[x]) else s.tree,
                  s.last, th.(pc := Storing(th.pc.node)), r)
  {
    StepReaches(s, i);
    r := Step(s, i);
    if r.threads[i].pc.Removing? {
      var s1 := r;
      StepReaches(s1, i);
      r := Step(s1, i);
      ReachesTransitive(s, s1, r);
    }
  }

  lemma StoreAlone(s: State, i: nat) returns (r: State)
    requires Sane(s) && i in s.threads && s.threads[i].pc.Storing?
    ensures Reaches(s, r) && Sane(r)
    ensures var th := s.threads[i];
            var cur, c := Cur(th), th.pc.node;
            Moved(s, i, SetParent(PutKid(s.tree, cur, Name(th), c), c, Some(cur)), s.last, Advanced(th, c), r)
  {
    StepReaches(s, i);
    var s1 := Step(s, i);
    StepReaches(s1, i);
    r := Step(s1, i);
    ReachesTransitive(s, s1, r);
  }

  /** The first step: the new node exists but is not attached. */
  lemma DrawAlone(s: State, i: nat) returns (r: State)
    requires Sane(s) && i in s.threads && s.threads[i].pc.Missed?
    ensures Reaches(s, r) && Sane(r)
    ensures var th, c := s.threads[i], s.last + 1;
            Moved(s, i, NewNode(s.tree, c, Name(th)), c, th.(pc := Making(c)), r)
    ensures Cur(s.threads[i]) in s.tree && Cur(s.threads[i]) <= s.last
  {
    StepReaches(s, i);
    r := Step(s, i);
  }

  /** Taking, storing and setting the parent are together what AddChild does. */
  lemma AddChildInSteps(t: Tree, last: nat, cur: nat, x: string)
    requires WellFormed(t, last) && cur in t && cur <= last
    ensures var c := last + 1;
            var t1 := NewNode(t, c, x);
            var t2 := if x in t1[cur].kids then Del(DropKid(t1, cur, x), t1[cur].kids[x]) else t1;
            SetParent(PutKid(t2, cur, x, c), c, Some(cur)) == Attach(t, last, cur, x)
  {
  }

  /** Left alone, a thread that missed a directory attaches a new one, replacing any other. */
  lemma MakeAlone(s: State, i: nat) returns (r: State)
    requires Sane(s) && WellFormed(s.tree, s.last) && i in s.threads && s.threads[i].pc.Missed?
    ensures Reaches(s, r) && Sane(r) && Cur(s.threads[i]) in s.tree
    ensures var th := s.threads[i];
            Moved(s, i, Attach(s.tree, s.last, Cur(th), Name(th)), s.last + 1, Advanced(th, s.last + 1), r)
  {
    hide Reaches, WellFormed, Attach, Sane, NewNode, Del, DropKid, PutKid, SetParent;
    var th := s.threads[i];
    SaneThread(s, i);
    var s1 := DrawAlone(s, i);
    AddChildInSteps(s.tree, s.last, Cur(th), Name(th));
    var s2 := TakeAlone(s1, i);
    r := StoreAlone(s2, i);
    ReachesTransitive(s, s1, s2);
    ReachesTransitive(s, s2, r);
  }

  /** One walking step of thread `i`, spelled out. */
  lemma WalkOnce(s: State, i: nat) returns (r: State)
    requires Sane(s) && i in s.threads && s.threads[i].pc.Walking? && !Finished(s.threads[i])
    ensures Reaches(s, r) && Sane(r) && Cur(s.threads[i]) in s.tree
    ensures var th := s.threads[i];
            var kids := s.tree[Cur(th)].kids;
            Moved(s, i, s.tree, s.last, if Name(th) in kids then Entered(th, kids[Name(th)]) else th.(pc := Missed), r)
  {
    StepReaches(s, i);
    r := Step(s, i);
  }

  /** One component done alone: the tree and the walk are where `mkdir -p` has them. */
  lemma ComponentAlone(s: State, i: nat) returns (r: State)
    requires Sane(s) && WellFormed(s.tree, s.last)
    requires i in s.threads && s.threads[i].pc.Walking? && !Finished(s.threads[i])
    ensures Reaches(s, r) && Sane(r) && Cur(s.threads[i]) in s.tree
    ensures var th := s.threads[i];
            var cur, x := Cur(th), Name(th);
            if x in s.tree[cur].kids then Moved(s, i, s.tree, s.last, Entered(th, s.tree[cur].kids[x]), r)
            else Moved(s, i, Attach(s.tree, s.last, cur, x), s.last + 1, Advanced(th, s.last + 1), r)
  {
    hide Reaches, WellFormed, Attach;
    var th := s.threads[i];
    r := WalkOnce(s, i);
    if Name(th) !in s.tree[Cur(th)].kids {
      hide Sane;
      var s1 := r;
      r := MakeAlone(s1, i);
      ReachesTransitive(s, s1, r);
    }
  }

  /** The rest of the thread's path, from where it is. */
  function Rest(th: Thread): seq<string>
    requires 1 <= |th.trail| <= |th.path| + 1
  {
    th.path[|th.trail| - 1..]
  }

  /**
   Only thread `i` has moved, and it is done; the tree is what `mkdir -p` alone makes of it.  It was
   refused exactly if it is a file request and its whole path was there.
   */
  ghost predicate FinishedAlone(s: State, i: nat, r: State)
    requires i in s.threads && WellFormed(s.tree, s.last) && ThreadSane(s.threads[i], s.tree)
  {
    var th := s.threads[i];
    var made := MkDirs(s.tree, s.last, Cur(th), Rest(th));
    && i in r.threads && Finished(r.threads[i]) && r.threads[i].path == th.path
    && Moved(s, i, made.tree, made.last, r.threads[i], r)
    && (r.threads[i].pc.Refused? <==> th.file && Rest(th) != [] && Walk(s.tree, Cur(th), Rest(th)).Some?)
  }

  /** One component done, by entering or making `n`, and the rest of `mkdir -p` is still to do. */
  ghost predicate OneFurther(s: State, i: nat, n: nat, r: State)
    requires i in s.threads && WellFormed(s.tree, s.last) && ThreadSane(s.threads[i], s.tree)
    requires |s.threads[i].trail| <= |s.threads[i].path|
  {
    var th := s.threads[i];
    var rest := th.path[|th.trail|..];
    && WellFormed(r.tree, r.last) && n in r.tree && Moved(s, i, r.tree, r.last, Advanced(th, n), r)
    && MkDirs(s.tree, s.last, Cur(th), [Name(th)] + rest) == MkDirs(r.tree, r.last, n, rest)
    && if Name(th) in s.tree[Cur(th)].kids
       then n == s.tree[Cur(th)].kids[Name(th)] && r.tree == s.tree && (th.file ==> rest != [])
       else r.tree[n].kids == map[]
  }

  lemma ComponentDone(s: State, i: nat) returns (r: State, n: nat)
    requires Sane(s) && WellFormed(s.tree, s.last) && i in s.threads && ThreadSane(s.threads[i], s.tree)
    requires s.threads[i].pc.Walking? && !Finished(s.threads[i])
    ensures Reaches(s, r) && Sane(r) && i in r.threads
    ensures r.threads[i].pc.Refused? ==> FinishedAlone(s, i, r)
    ensures !r.threads[i].pc.Refused? ==> OneFurther(s, i, n, r)
  {
    hide Reaches, WellFormed, Attach, MkDirs, Sane, FinishedAlone;
    var th := s.threads[i];
    r := ComponentAlone(s, i);
    MkDirsCons(s.tree, s.last, Cur(th), Name(th), th.path[|th.trail|..]);
    AttachedEntry(s.tree, s.last, Cur(th), Name(th));
    if Name(th) !in s.tree[Cur(th)].kids {
      n := s.last + 1;
    } else {
      n := s.tree[Cur(th)].kids[Name(th)];
      if r.threads[i].pc.Refused? {
        RefusedAtLast(s, i, r);
      }
    }
  }

  lemma {:induction false} FinishAlone(s: State, i: nat) returns (r: State)
    requires Sane(s) && WellFormed(s.tree, s.last) && i in s.threads && s.threads[i].pc.Walking?
    ensures Reaches(s, r) && Sane(r) && FinishedAlone(s, i, r)
    decreases |s.threads[i].path| + 1 - |s.threads[i].trail|
  {
    hide Reaches, WellFormed, MkDirs, Sane, FinishedAlone, Walk;
    SaneThread(s, i);
    if Finished(s.threads[i]) {
      ReachesSelf(s);
      r := s;
      AlreadyFinished(s, i);
    } else {
      var s1, n := ComponentDone(s, i);
      r := s1;
      if !s1.threads[i].pc.Refused? {
        SaneThread(s1, i);
        r := FinishAlone(s1, i);
        ReachesTransitive(s, s1, r);
        FinishedAloneCons(s, i, n, s1, r);
      }
    }
  }

  /** The last name is found: a file request ends there, and the tree stays as it is. */
  lemma RefusedAtLast(s: State, i: nat, r: State)
    requires i in s.threads && WellFormed(s.tree, s.last) && ThreadSane(s.threads[i], s.tree)
    requires |s.threads[i].trail| == |s.threads[i].path| && Name(s.threads[i]) in s.tree[Cur(s.threads[i])].kids
    requires s.threads[i].file && Moved(s, i, s.tree, s.last, s.threads[i].(pc := Refused), r)
    ensures FinishedAlone(s, i, r)
  {
    var th := s.threads[i];
    var kid := s.tree[Cur(th)].kids[Name(th)];
    assert Rest(th) == [Name(th)] && [Name(th)][1..] == [];
    assert KidAgrees(s.tree, Cur(th), Name(th));
    assert MkDirs(s.tree, s.last, kid, []) == Made(s.tree, s.last, kid);
  }

  lemma AlreadyFinished(s: State, i: nat)
    requires i in s.threads && WellFormed(s.tree, s.last) && ThreadSane(s.threads[i], s.tree) && Succeeded(s.threads[i])
    ensures FinishedAlone(s, i, s)
  {
    var th := s.threads[i];
    assert Rest(th) == [];
    assert s.threads == s.threads[i := th];
  }

  lemma FinishedAloneCons(s: State, i: nat, n: nat, s1: State, r: State)
    requires i in s.threads && WellFormed(s.tree, s.last) && ThreadSane(s.threads[i], s.tree)
    requires |s.threads[i].trail| <= |s.threads[i].path| && OneFurther(s, i, n, s1)
    requires ThreadSane(s1.threads[i], s1.tree) && FinishedAlone(s1, i, r)
    ensures FinishedAlone(s, i, r)
  {
    RestOfPath(s.threads[i], n);
    var th := s.threads[i];
    assert Rest(th)[1..] == th.path[|th.trail|..];
    assert if Name(th) in s.tree[Cur(th)].kids
           then Walk(s.tree, Cur(th), Rest(th)) == Walk(s1.tree, n, Rest(s1.threads[i]))
           else Walk(s.tree, Cur(th), Rest(th)).None?;
    assert Rest(s1.threads[i]) != [] ==>
        (Walk(s1.tree, n, Rest(s1.threads[i])).Some? ==> Name(th) in s.tree[Cur(th)].kids);
    hide WellFormed, MkDirs, ThreadSane, Walk;
    assert r.threads == s.threads[i := r.threads[i]];
  }

  lemma RestOfPath(th: Thread, n: nat)
    requires 1 <= |th.trail| <= |th.path|
    ensures Rest(th) == [Name(th)] + th.path[|th.trail|..]
    ensures Rest(Advanced(th, n)) == th.path[|th.trail|..]
    ensures Cur(Advanced(th, n)) == n
  {
  }

  lemma SaneThread(s: State, i: nat)
    requires Sane(s) && i in s.threads
    ensures ThreadSane(s.threads[i], s.tree)
  {
  }

  /** Thread `i` walks down what exists until it misses the first directory that does not. */
  lemma {:induction false} WalkToMiss(s: State, i: nat) returns (r: State, k: nat)
    requires Sane(s) && i in s.threads && s.threads[i].pc.Walking?
    requires var th := s.threads[i];
             && 1 <= |th.trail| <= |th.path| + 1
             && Resolve(s.tree, th.path[..|th.trail| - 1]) == Some(Cur(th))
             && Resolve(s.tree, th.path).None?
    ensures Reaches(s, r) && Sane(r)
    ensures var th := s.threads[i];
            && i in r.threads && r.threads[i].pc.Missed? && r.threads[i].path == th.path
            && |r.threads[i].trail| == k + 1 && Moved(s, i, s.tree, s.last, r.threads[i], r)
            && k < |th.path| && Resolve(s.tree, th.path[..k]) == Some(Cur(r.threads[i]))
            && Resolve(s.tree, th.path[..k + 1]).None?
    decreases |s.threads[i].path| + 1 - |s.threads[i].trail|
  {
    hide Reaches, Sane;
    var th := s.threads[i];
    k := |th.trail| - 1;
    assert th.path[..|th.path|] == th.path;
    assert th.path[..k + 1] == th.path[..k] + [th.path[k]];
    ResolveSnoc(s.tree, th.path[..k], th.path[k]);
    r := WalkOnce(s, i);
    if Name(th) in s.tree[Cur(th)].kids {
      var s1 := r;
      r, k := WalkToMiss(s1, i);
      ReachesTransitive(s, s1, r);
    }
  }

  /** All threads but `q` run to their end, one after the other; `q` stays where it stalled. */
  ghost predicate OthersFinished(s: State, q: nat, r: State)
    requires q in s.threads
  {
    && WellFormed(r.tree, r.last)
    && r.threads.Keys == s.threads.Keys && r.threads[q] == s.threads[q]
    && (forall i :: i in s.threads ==> r.threads[i].path == s.threads[i].path)
    && (forall i :: i in s.threads && i != q ==> Finished(r.threads[i]))
    && (forall i :: i in s.threads && Finished(s.threads[i]) ==> r.threads[i] == s.threads[i])
    && (forall xs :: Resolve(s.tree, xs).Some? ==> Resolve(r.tree, xs) == Resolve(s.tree, xs))
  }

  /** A thread that has not started, or is done. */
  predicate AtStartOrEnd(th: Thread) {
    Finished(th) || (th.pc.Walking? && th.trail == [ROOT])
  }

  lemma {:induction false} FinishOthers(s: State, q: nat, todo: set<nat>) returns (r: State)
    requires Sane(s) && WellFormed(s.tree, s.last) && q in s.threads && q !in todo && todo <= s.threads.Keys
    requires forall i :: i in s.threads && i != q ==> AtStartOrEnd(s.threads[i])
    requires forall i :: i in s.threads && i != q && i !in todo ==> Finished(s.threads[i])
    ensures Reaches(s, r) && Sane(r) && OthersFinished(s, q, r)
    decreases |todo|
  {
    hide Reaches, Sane, WellFormed, Resolve, FinishedAlone;
    if todo == {} {
      ReachesSelf(s);
      r := s;
    } else {
      var i :| i in todo;
      if Finished(s.threads[i]) {
        r := FinishOthers(s, q, todo - {i});
      } else {
        var s1 := FinishAlone(s, i);
        FinishedAloneKeeps(s, i, s1);
        r := FinishOthers(s1, q, todo - {i});
        hide OthersFinished;
        ReachesTransitive(s, s1, r);
        OthersFinishedTransitive(s, q, i, s1, r);
      }
    }
  }

  lemma OthersFinishedTransitive(s: State, q: nat, i: nat, s1: State, r: State)
    requires q in s.threads && i in s.threads && i != q
    requires s1.threads.Keys == s.threads.Keys && s1.threads[q] == s.threads[q]
    requires forall j :: j in s.threads ==> s1.threads[j].path == s.threads[j].path
    requires forall j :: j in s.threads && Finished(s.threads[j]) ==> s1.threads[j] == s.threads[j]
    requires forall xs :: Resolve(s.tree, xs).Some? ==> Resolve(s1.tree, xs) == Resolve(s.tree, xs)
    requires OthersFinished(s1, q, r)
    ensures OthersFinished(s, q, r)
  {
  }

  lemma FinishedAloneKeeps(s: State, i: nat, r: State)
    requires Sane(s) && WellFormed(s.tree, s.last) && i in s.threads
    requires s.threads[i].pc.Walking? && s.threads[i].trail == [ROOT]
    requires FinishedAlone(s, i, r)
    ensures WellFormed(r.tree, r.last)
    ensures i in r.threads && Finished(r.threads[i]) && r.threads[i].path == s.threads[i].path
    ensures r.threads == s.threads[i := r.threads[i]]
    ensures forall xs :: Resolve(s.tree, xs).Some? ==> Resolve(r.tree, xs) == Resolve(s.tree, xs)
  {
    var path := s.threads[i].path;
    assert path[0..] == path;
    MkDirsMeaning(s.tree, s.last, [], ROOT, path);
  }

  lemma {:induction false} NamesAbove(t: Tree, t': Tree, n: nat)
    requires ParentsAgree(t)
    requires forall m :: m in t && m <= n ==> m in t' && t'[m] == t[m].(kids := t'[m].kids)
    requires n in t && Names(t, n).Some?
    ensures Names(t', n) == Names(t, n)
    decreases n
  {
    if n != ROOT {
      NamesAbove(t, t', t[n].parent.value);
    }
  }

  /** Replacing a directory that is not there any more for others: only the new branch remains. */
  lemma AttachOverwrites(t: Tree, last: nat, pp: seq<string>, p: nat, x: string)
    requires WellFormed(t, last) && p in t && Resolve(t, pp) == Some(p)
    ensures var t' := Attach(t, last, p, x);
            && WellFormed(t', last + 1) && last + 1 in t'
            && Resolve(t', pp + [x]) == Some(last + 1)
            && forall ys :: ys != [] ==> Resolve(t', pp + [x] + ys).None?
  {
    var t' := Attach(t, last, p, x);
    AttachWellFormed(t, last, p, x);
    ResolveIffNames(t, last, p, pp);
    NamesAbove(t, t', p);
    ResolveIffNames(t', last + 1, p, pp);
    ResolveSnoc(t', pp, x);
    forall ys | ys != [] ensures Resolve(t', pp + [x] + ys).None? {
      WalkAppend(t', ROOT, pp + [x], ys);
    }
  }

  /** What does not lie on the new branch stays lost. */
  lemma StillLost(t: Tree, last: nat, done: seq<string>, c: nat, names: seq<string>, lost: seq<string>)
    requires WellFormed(t, last) && c in t && Resolve(t, done) == Some(c)
    requires forall ys :: ys != [] ==> Resolve(t, done + ys).None?
    requires done <= lost && !(lost <= done + names)
    ensures Resolve(MkDirs(t, last, c, names).tree, lost).None?
  {
    var ys := lost[|done|..];
    assert lost == done + ys;
    assert ys == [] ==> lost == done;
    assert done <= done + names;
    MkDirsMeaning(t, last, done, c, names);
  }

  /** The stalled thread makes its directory anew: nothing lies below it any more. */
  lemma BranchRemade(s: State, q: nat, k: nat) returns (r: State)
    requires Sane(s) && WellFormed(s.tree, s.last) && q in s.threads && s.threads[q].pc.Missed?
    requires |s.threads[q].trail| == k + 1 && k < |s.threads[q].path|
    requires Resolve(s.tree, s.threads[q].path[..k]) == Some(Cur(s.threads[q]))
    ensures Reaches(s, r) && Sane(r)
    ensures var done := s.threads[q].path[..k + 1];
            && WellFormed(r.tree, r.last) && r.last in r.tree && r.last == s.last + 1
            && r.threads == s.threads[q := Advanced(s.threads[q], r.last)]
            && Resolve(r.tree, done) == Some(r.last)
            && forall ys :: ys != [] ==> Resolve(r.tree, done + ys).None?
  {
    hide Reaches, WellFormed, Attach, Sane, Resolve;
    var th := s.threads[q];
    assert th.path[..k + 1] == th.path[..k] + [th.path[k]];
    r := MakeAlone(s, q);
    AttachOverwrites(s.tree, s.last, th.path[..k], Cur(th), th.path[k]);
  }

  /** After everybody else, the stalled thread finishes and `lost` is gone. */
  lemma StalledThreadWins(s: State, q: nat, k: nat, lost: seq<string>) returns (r: State)
    requires Sane(s) && WellFormed(s.tree, s.last) && q in s.threads && s.threads[q].pc.Missed?
    requires |s.threads[q].trail| == k + 1 && k < |s.threads[q].path|
    requires Resolve(s.tree, s.threads[q].path[..k]) == Some(Cur(s.threads[q]))
    requires s.threads[q].path[..k + 1] <= lost && !(lost <= s.threads[q].path)
    ensures Reaches(s, r) && Sane(r) && Resolve(r.tree, lost).None?
    ensures r.threads.Keys == s.threads.Keys && Finished(r.threads[q]) && r.threads[q].path == s.threads[q].path
    ensures forall i :: i in s.threads && i != q ==> r.threads[i] == s.threads[i]
  {
    hide Reaches, WellFormed, Sane, Resolve, MkDirs;
    var th := s.threads[q];
    var s1 := BranchRemade(s, q, k);
    r := FinishAlone(s1, q);
    SaneThread(s1, q);
    ReachesTransitive(s, s1, r);
    var done, names := th.path[..k + 1], th.path[k + 1..];
    assert done + names == th.path;
    StillLost(s1.tree, s1.last, done, s1.last, names, lost);
  }

  lemma LongerMissing(t: Tree, path: seq<string>, m: nat, k: nat)
    requires m <= k <= |path| && Resolve(t, path[..m]).None?
    ensures Resolve(t, path[..k]).None?
  {
    WalkAppend(t, ROOT, path[..m], path[m..k]);
    assert path[..m] + path[m..k] == path[..k];
  }

  /**
   Everybody but `q` is done, `p` with success, and `q` is stuck where it missed component `k` of its
   path, which leads to `p`'s path too.
   */
  ghost predicate Stalled(s0: State, p: nat, q: nat, k: nat, s: State)
    requires p in s0.threads && q in s0.threads
  {
    && WellFormed(s.tree, s.last) && s.threads.Keys == s0.threads.Keys
    && (forall i :: i in s0.threads ==> s.threads[i].path == s0.threads[i].path)
    && (forall i :: i in s0.threads && i != q ==> Finished(s.threads[i]))
    && Succeeded(s.threads[p])
    && var th := s.threads[q];
    && th.pc.Missed? && |th.trail| == k + 1 && k < |th.path|
    && Resolve(s.tree, th.path[..k]) == Some(Cur(th)) && th.path[..k + 1] <= s0.threads[p].path
  }

  /** The first thread to run alone on a path that is not there succeeds. */
  lemma FirstSucceeds(s: State, i: nat) returns (r: State)
    requires Sane(s) && WellFormed(s.tree, s.last) && i in s.threads
    requires s.threads[i].pc.Walking? && s.threads[i].trail == [ROOT] && Resolve(s.tree, s.threads[i].path).None?
    ensures Reaches(s, r) && Sane(r) && WellFormed(r.tree, r.last)
    ensures i in r.threads && Succeeded(r.threads[i]) && r.threads[i].path == s.threads[i].path
    ensures r.threads == s.threads[i := r.threads[i]]
    ensures forall xs :: Resolve(s.tree, xs).Some? ==> Resolve(r.tree, xs) == Resolve(s.tree, xs)
  {
    hide Reaches, WellFormed, MkDirs;
    assert ThreadSane(s.threads[i], s.tree);
    r := FinishAlone(s, i);
    FinishedAloneKeeps(s, i, r);
    assert Rest(s.threads[i]) == s.threads[i].path;
  }

  /** What `q` misses first, on its way down a prefix it shares, is on the other path as well. */
  lemma SharedMiss(t: Tree, mine: seq<string>, other: seq<string>, m: nat, k: nat)
    requires m <= |mine| && m <= |other| && mine[..m] == other[..m] && Resolve(t, mine[..m]).None?
    requires k < |mine| && Resolve(t, mine[..k]).Some?
    ensures k < m && mine[..k + 1] <= other
  {
    if m <= k {
      LongerMissing(t, mine, m, k);
    } else {
      assert mine[..k + 1] == mine[..m][..k + 1] == other[..k + 1];
    }
  }

  /** `q` stalls at the first directory that it misses. */
  lemma StallAtMiss(s0: State, p: nat, q: nat, m: nat) returns (r: State, k: nat)
    requires Init(s0) && p != q && Sharing(s0.tree, s0.threads, p, q, m)
    ensures Reaches(s0, r) && Sane(r) && r.tree == s0.tree && r.last == s0.last
    ensures q in r.threads && r.threads == s0.threads[q := r.threads[q]]
    ensures var th := r.threads[q];
            && th.path == s0.threads[q].path && th.pc.Missed? && |th.trail| == k + 1 && k < |th.path|
            && Resolve(r.tree, th.path[..k]) == Some(Cur(th)) && th.path[..k + 1] <= s0.threads[p].path
    ensures Resolve(s0.tree, s0.threads[p].path).None?
  {
    var mine, other := s0.threads[q].path, s0.threads[p].path;
    assert mine[..0] == [] && mine[..|mine|] == mine && other[..|other|] == other;
    LongerMissing(s0.tree, mine, m, |mine|);
    LongerMissing(s0.tree, other, m, |other|);
    hide Reaches, WellFormed, Sane;
    r, k := WalkToMiss(s0, q);
    hide Resolve;
    SharedMiss(s0.tree, mine, other, m, k);
  }

  /** `q` stalls, `p` runs to its end, then all the others do. */
  lemma StallOne(s0: State, p: nat, q: nat, m: nat) returns (r: State, k: nat)
    requires Init(s0) && p != q && Sharing(s0.tree, s0.threads, p, q, m)
    ensures Reaches(s0, r) && Sane(r) && Stalled(s0, p, q, k, r)
  {
    hide Reaches, WellFormed, Sane, Resolve;
    var s1;
    s1, k := StallAtMiss(s0, p, q, m);
    var s2 := FirstSucceeds(s1, p);
    r := FinishOthers(s2, q, s2.threads.Keys - {q});
    ReachesTransitive(s0, s1, s2);
    ReachesTransitive(s0, s2, r);
  }

  /** Stall `q`, let all others finish, let `q` finish: thread `p` loses its path. */
  lemma ClashLosesPath(s0: State, p: nat, q: nat, m: nat) returns (r: State)
    requires Init(s0) && Sharing(s0.tree, s0.threads, p, q, m) && !(s0.threads[p].path <= s0.threads[q].path)
    ensures Reaches(s0, r) && AllFinished(r) && Resolve(r.tree, s0.threads[p].path).None?
  {
    hide Reaches, WellFormed, Sane, Resolve;
    var s1, k := StallOne(s0, p, q, m);
    r := StalledThreadWins(s1, q, k, s0.threads[p].path);
    ReachesTransitive(s0, s1, r);
    forall i | i in r.threads ensures Finished(r.threads[i]) {
      if i != q {
        assert Finished(s1.threads[i]);
      }
    }
  }

  lemma UnsafeLosesPath(s0: State, i: nat) returns (sched: seq<nat>)
    requires Init(s0) && i in s0.threads && !Safe(s0.tree, s0.threads, i)
    ensures AllFinished(Exec(s0, sched)) && Resolve(Exec(s0, sched).tree, s0.threads[i].path).None?
  {
    var j, m: nat :| Sharing(s0.tree, s0.threads, i, j, m) && !(s0.threads[i].path <= s0.threads[j].path);
    var r := ClashLosesPath(s0, i, j, m);
    sched :| Exec(s0, sched) == r;
  }

  /**
   The exact condition for one request, directory or file: every complete run leaves its path in the
   tree if and only if all that share a missing prefix with it ask for its path or a longer one.
   */
  lemma PathExactCondition(s0: State, i: nat)
    requires Init(s0) && i in s0.threads
    ensures Safe(s0.tree, s0.threads, i) <==>
            forall sched :: AllFinished(Exec(s0, sched)) ==>
              Resolve(Exec(s0, sched).tree, s0.threads[i].path).Some?
  {
    if Safe(s0.tree, s0.threads, i) {
      forall sched | AllFinished(Exec(s0, sched)) ensures Resolve(Exec(s0, sched).tree, s0.threads[i].path).Some? {
        SafePathKept(s0, sched, i);
        var path := s0.threads[i].path;
        assert PrefixInPlace(Exec(s0, sched).tree, path, |path|);
        assert path[..|path|] == path;
      }
    } else {
      var sched := UnsafeLosesPath(s0, i);
    }
  }

  /**
   Hence for all of them: every complete run leaves every requested path in the tree if and only if
   any two requests are for the same path or share only directories that already exist.
   */
  lemma RacingCallsExactCondition(s0: State)
    requires Init(s0)
    ensures Compatible(s0.tree, s0.threads) <==>
            forall sched :: AllFinished(Exec(s0, sched)) ==>
              forall i :: i in s0.threads ==> Resolve(Exec(s0, sched).tree, s0.threads[i].path).Some?
  {
    hide Init, Safe, Compatible, AllFinished, Resolve, Exec;
    CompatibleIffSafe(s0.tree, s0.threads);
    if Compatible(s0.tree, s0.threads) {
      forall sched, i | AllFinished(Exec(s0, sched)) && i in s0.threads
        ensures Resolve(Exec(s0, sched).tree, s0.threads[i].path).Some?
      {
        PathExactCondition(s0, i);
      }
    } else {
      var i :| i in s0.threads && !Safe(s0.tree, s0.threads, i);
      var sched := UnsafeLosesPath(s0, i);
    }
  }
}
