/**
 Any number of threads running AddDirNode and AddFileNode at the same time.  Each call on a child
 table, each locked section and each draw from the inode counter is one step; a schedule is any
 sequence of thread numbers.  `AddChild` is not atomic: it takes an existing child out, deletes it,
 and only later stores the new one and sets its parent pointer.

 A file request makes its directories like a directory request, and then treats the file's name in
 the same way but for one thing: when a child of that name is there already, it is refused.
 */
module MkdirRace {
  import opened Common
  import opened Trees

  /** Where a thread is in the loop body for its current path component. */
  datatype Pc =
    | Walking                            // about to load the child
    | Missed                             // the child was not there
    | Making(node: nat)                  // AddChild called: about to load-and-delete
    | Removing(node: nat, taken: nat)    // about to delete what was found there
    | Storing(node: nat)                 // about to store the new child
    | Parenting(node: nat)               // about to set the new child's parent pointer
    | Refused                            // a file request ended: the name is taken

  /**
   `trail` lists the nodes walked through so far; its last element is the loop's `cur`.  The path of
   a file request (`file`) ends in the file's name.
   */
  datatype Thread = Thread(path: seq<string>, trail: seq<nat>, pc: Pc, file: bool)

  /** History: which thread made a node of this run, and for which prefix of its path. */
  datatype Origin = Origin(tid: nat, names: seq<string>)

  datatype State = State(tree: Tree, last: nat, threads: map<nat, Thread>, born: map<nat, Origin>)

  /** The call has returned a node without an error: the last of its trail. */
  predicate Succeeded(th: Thread) {
    th.pc.Walking? && |th.trail| == |th.path| + 1
  }

  predicate Finished(th: Thread) {
    Succeeded(th) || th.pc.Refused?
  }

  predicate AllFinished(s: State) {
    forall i :: i in s.threads ==> Finished(s.threads[i])
  }

  function Cur(th: Thread): nat
    requires th.trail != []
  {
    th.trail[|th.trail| - 1]
  }

  /** The component the thread is working on. */
  function Name(th: Thread): string
    requires 1 <= |th.trail| <= |th.path|
  {
    th.path[|th.trail| - 1]
  }

  /** The thread found no child and is on its way to add one. */
  predicate Adding(pc: Pc) {
    !pc.Walking? && !pc.Refused?
  }

  /** It has a new node for that in hand. */
  predicate HasNode(pc: Pc) {
    Adding(pc) && !pc.Missed?
  }

  predicate Holds(pc: Pc, n: nat) {
    HasNode(pc) && pc.node == n
  }

  /** The thread made `n` but has not stored it yet. */
  predicate Unstored(pc: Pc, n: nat) {
    Holds(pc, n) && !pc.Parenting?
  }

  predicate ThreadSane(th: Thread, t: Tree) {
    && 1 <= |th.trail| <= |th.path| + 1
    && (!th.pc.Walking? ==> |th.trail| <= |th.path|)
    && (forall i :: 0 <= i < |th.trail| ==> th.trail[i] in t)
    && (HasNode(th.pc) ==> th.pc.node in t)
    && (th.pc.Removing? ==> th.pc.taken in t)
  }

  /** Every node number in use belongs to a node. */
  ghost predicate Sane(s: State) {
    && (forall i :: i in s.threads ==> ThreadSane(s.threads[i], s.tree))
    && (forall n, x :: n in s.tree && x in s.tree[n].kids ==> s.tree[n].kids[x] in s.tree)
    && (forall n :: n in s.tree ==> n <= s.last)
  }

  ghost predicate Init(s: State)
    ensures Init(s) ==> Sane(s)
  {
    && WellFormed(s.tree, s.last)
    && s.born == map[]
    && forall i :: i in s.threads ==>
         && s.threads[i].trail == [ROOT] && s.threads[i].pc == Walking
         && (s.threads[i].file ==> s.threads[i].path != [])
  }

  /** One step of thread `i`; a finished thread stays as it is. */
  ghost function Step(s: State, i: nat): State
    requires i in s.threads && ThreadSane(s.threads[i], s.tree)
  {
    var th := s.threads[i];
    if Finished(th) then s else
    var cur, x := Cur(th), Name(th);
    match th.pc
    case Walking =>
      if x in s.tree[cur].kids then
        s.(threads := s.threads[i := if th.file && |th.trail| == |th.path| then th.(pc := Refused)
                                     else th.(trail := th.trail + [s.tree[cur].kids[x]])])
      else
        s.(threads := s.threads[i := th.(pc := Missed)])
    case Missed =>
      var c := s.last + 1;
      s.(tree := NewNode(s.tree, c, x), last := c,
         threads := s.threads[i := th.(pc := Making(c))],
         born := s.born[c := Origin(i, th.path[..|th.trail|])])
    case Making(c) =>
      if x in s.tree[cur].kids then
        s.(tree := DropKid(s.tree, cur, x),
           threads := s.threads[i := th.(pc := Removing(c, s.tree[cur].kids[x]))])
      else
        s.(threads := s.threads[i := th.(pc := Storing(c))])
    case Removing(c, e) =>
      s.(tree := Del(s.tree, e), threads := s.threads[i := th.(pc := Storing(c))])
    case Storing(c) =>
      s.(tree := PutKid(s.tree, cur, x, c), threads := s.threads[i := th.(pc := Parenting(c))])
    case Parenting(c) =>
      s.(tree := SetParent(s.tree, c, Some(cur)),
         threads := s.threads[i := th.(trail := th.trail + [c], pc := Walking)])
  }

  lemma StepThreadSane(s: State, i: nat, j: nat)
    requires i in s.threads && ThreadSane(s.threads[i], s.tree) && j in s.threads && ThreadSane(s.threads[j], s.tree)
    requires forall n, x :: n in s.tree && x in s.tree[n].kids ==> s.tree[n].kids[x] in s.tree
    ensures j in Step(s, i).threads && ThreadSane(Step(s, i).threads[j], Step(s, i).tree)
  {
    assert forall n :: n in s.tree ==> n in Step(s, i).tree;
  }

  lemma StepTreeSane(s: State, i: nat)
    requires i in s.threads && ThreadSane(s.threads[i], s.tree)
    requires forall n, x :: n in s.tree && x in s.tree[n].kids ==> s.tree[n].kids[x] in s.tree
    requires forall n :: n in s.tree ==> n <= s.last
    ensures var s' := Step(s, i);
            && s'.threads.Keys == s.threads.Keys
            && (forall n, x :: n in s'.tree && x in s'.tree[n].kids ==> s'.tree[n].kids[x] in s'.tree)
            && (forall n :: n in s'.tree ==> n <= s'.last)
  {
  }

  /** What a thread's sanity means for its next step. */
  lemma SaneSteps(s: State, i: nat)
    requires Sane(s) && i in s.threads
    ensures var th := s.threads[i];
            && th.trail != [] && Cur(th) in s.tree && (!Finished(th) && th.pc.Walking? ==> |th.trail| <= |th.path|)
  {
    assert ThreadSane(s.threads[i], s.tree);
  }

  lemma StepSane(s: State, i: nat)
    requires Sane(s) && i in s.threads
    ensures Sane(Step(s, i))
  {
    hide Step, ThreadSane;
    StepTreeSane(s, i);
    forall j | j in s.threads ensures ThreadSane(Step(s, i).threads[j], Step(s, i).tree) {
      StepThreadSane(s, i, j);
    }
  }

  /** Running a schedule; numbers that are no thread's are skipped. */
  ghost function Exec(s: State, sched: seq<nat>): (r: State)
    requires Sane(s)
    ensures Sane(r)
    decreases |sched|
  {
    if sched == [] then s
    else if sched[0] !in s.threads then Exec(s, sched[1..])
    else
      StepSane(s, sched[0]);
      Exec(Step(s, sched[0]), sched[1..])
  }

  /* ---------- The invariant ---------- */

  /** `n` was put at the address `a`: it resolved there at the start, or was made for it. */
  ghost predicate Stands(t0: Tree, s: State, n: nat, a: seq<string>) {
    if n in s.born then s.born[n].names == a else n in t0 && Resolve(t0, a) == Some(n)
  }

  /** A thread that took child `x` of `n` out, or found none, and has yet to store its own. */
  predicate InWindow(th: Thread, n: nat, x: string) {
    && (th.pc.Removing? || th.pc.Storing?)
    && 1 <= |th.trail| <= |th.path|
    && Cur(th) == n && Name(th) == x
  }

  ghost predicate Settled(s: State, n: nat, x: string) {
    || (n in s.tree && x in s.tree[n].kids)
    || exists u :: u in s.threads && InWindow(s.threads[u], n, x)
  }

  /** What was there at the start stays exactly as it was. */
  ghost predicate OldOk(t0: Tree, s: State, n: nat)
    requires n in t0
  {
    && n in s.tree && n !in s.born
    && s.tree[n].parent == t0[n].parent && s.tree[n].isDel == t0[n].isDel
    && forall x :: x in t0[n].kids ==> x in s.tree[n].kids && s.tree[n].kids[x] == t0[n].kids[x]
  }

  ghost predicate OldKept(t0: Tree, s: State) {
    forall n :: n in t0 ==> OldOk(t0, s, n)
  }

  /** Each node of this run is on its maker's trail, or still in its maker's hands. */
  ghost predicate OriginOk(t0: Tree, s: State, n: nat)
    requires n in s.born
  {
    var o := s.born[n];
    && n in s.tree && o.tid in s.threads
    && var th := s.threads[o.tid];
    && 1 <= |o.names| <= |th.path| && o.names == th.path[..|o.names|]
    && Resolve(t0, o.names).None?
    && ((|th.trail| > |o.names| && th.trail[|o.names|] == n)
        || (|th.trail| == |o.names| && Holds(th.pc, n)))
  }

  ghost predicate Origins(t0: Tree, s: State) {
    && (forall n :: n in s.tree ==> n in t0 || n in s.born)
    && (forall n :: n in s.born ==> OriginOk(t0, s, n))
  }

  /** What thread `i` has in hand is of its own making, and its trail follows its path. */
  ghost predicate ThreadOk(t0: Tree, s: State, i: nat)
    requires i in s.threads
  {
    var th := s.threads[i];
    && 1 <= |th.trail| <= |th.path| + 1
    && (!th.pc.Walking? ==> |th.trail| <= |th.path|)
    && (forall k :: 0 <= k < |th.trail| ==> Stands(t0, s, th.trail[k], th.path[..k]))
    && (th.pc.Refused? ==> th.file && |th.trail| == |th.path|)
    && (Adding(th.pc) ==> Cur(th) in t0 ==> Name(th) !in t0[Cur(th)].kids)
    && (HasNode(th.pc) ==>
          th.pc.node in s.born && s.born[th.pc.node] == Origin(i, th.path[..|th.trail|]))
    && (forall c :: Unstored(th.pc, c) && c in s.tree ==> !s.tree[c].isDel)
  }

  ghost predicate ThreadsOk(t0: Tree, s: State) {
    forall i :: i in s.threads ==> ThreadOk(t0, s, i)
  }

  /** A table entry is an old one, or a stored, live node sitting where its maker put it. */
  ghost predicate KidOk(t0: Tree, s: State, n: nat, x: string)
    requires n in s.tree && x in s.tree[n].kids
  {
    var m := s.tree[n].kids[x];
    && m in s.tree
    && (m in t0 ==> n in t0 && x in t0[n].kids && t0[n].kids[x] == m)
    && (m in s.born ==>
          var o := s.born[m];
          && o.tid in s.threads
          && var th := s.threads[o.tid];
          && 1 <= |o.names| <= |th.trail| && |o.names| <= |th.path|
          && th.trail[|o.names| - 1] == n && th.path[|o.names| - 1] == x
          && !Unstored(th.pc, m) && !s.tree[m].isDel
          && (s.tree[m].parent == Some(n) || th.pc == Parenting(m)))
  }

  ghost predicate KidsOk(t0: Tree, s: State) {
    forall n, x :: n in s.tree && x in s.tree[n].kids ==> KidOk(t0, s, n, x)
  }

  /** A node about to be deleted is out of every table, and will not be stored again. */
  ghost predicate RemovingOk(s: State, i: nat)
    requires i in s.threads
  {
    s.threads[i].pc.Removing? ==>
      var e := s.threads[i].pc.taken;
      && e in s.born
      && (s.born[e].tid in s.threads ==> !Unstored(s.threads[s.born[e].tid].pc, e))
      && forall n, x :: n in s.tree && x in s.tree[n].kids ==> s.tree[n].kids[x] != e
  }

  ghost predicate RemovalsOk(s: State) {
    forall i :: i in s.threads ==> RemovingOk(s, i)
  }

  /** What a thread has walked over is in its table, or about to be put back there. */
  ghost predicate SettledOk(s: State, i: nat)
    requires i in s.threads
  {
    var th := s.threads[i];
    && (forall k :: 0 <= k < |th.trail| - 1 && k < |th.path| ==> Settled(s, th.trail[k], th.path[k]))
    && ((th.pc.Parenting? || th.pc.Refused?) && 1 <= |th.trail| <= |th.path| ==> Settled(s, Cur(th), Name(th)))
  }

  ghost predicate AllSettled(s: State) {
    forall i :: i in s.threads ==> SettledOk(s, i)
  }

  /** A file request that has succeeded returned a node that it made itself, for its whole path. */
  ghost predicate FileOk(s: State, i: nat)
    requires i in s.threads
  {
    var th := s.threads[i];
    && (th.file ==> th.path != [])
    && (th.file && Succeeded(th) ==> Cur(th) in s.born && s.born[Cur(th)] == Origin(i, th.path))
  }

  ghost predicate FilesOk(s: State) {
    forall i :: i in s.threads ==> FileOk(s, i)
  }

  ghost predicate Inv(t0: Tree, last0: nat, s: State) {
    && WellFormed(t0, last0) && Sane(s) && last0 <= s.last
    && OldKept(t0, s)
    && Origins(t0, s)
    && ThreadsOk(t0, s)
    && KidsOk(t0, s)
    && RemovalsOk(s)
    && AllSettled(s)
    && FilesOk(s)
  }

  lemma InitInv(s: State)
    requires Init(s)
    ensures Inv(s.tree, s.last, s)
  {
    forall i | i in s.threads ensures ThreadOk(s.tree, s, i) {
      assert s.threads[i].path[..0] == [];
    }
  }

  /* ---------- Every step keeps it ---------- */

  lemma OldStep(t0: Tree, s: State, i: nat, n: nat)
    requires i in s.threads && ThreadSane(s.threads[i], s.tree)
    requires n in t0 && OldOk(t0, s, n) && n <= s.last
    requires ThreadOk(t0, s, i) && RemovingOk(s, i)
    ensures OldOk(t0, Step(s, i), n)
  {
  }

  /** What becomes of a node in the hands of the thread that moves. */
  lemma PcStep(s: State, i: nat, m: nat)
    requires i in s.threads && ThreadSane(s.threads[i], s.tree)
    ensures i in Step(s, i).threads
    ensures var th, th' := s.threads[i], Step(s, i).threads[i];
            && Step(s, i).threads == s.threads[i := th'] && th'.path == th.path && th.trail <= th'.trail
            && (Unstored(th'.pc, m) ==> Unstored(th.pc, m) || m == s.last + 1)
            && (Holds(th.pc, m) ==> (Holds(th'.pc, m) && th'.trail == th.trail) || th'.trail == th.trail + [m])
  {
  }

  lemma OriginStep(t0: Tree, s: State, i: nat, n: nat)
    requires i in s.threads && ThreadSane(s.threads[i], s.tree)
    requires n in Step(s, i).born && s.last + 1 !in s.tree
    requires n in s.born ==> OriginOk(t0, s, n)
    requires ThreadOk(t0, s, i)
    requires Adding(s.threads[i].pc) ==> Resolve(t0, s.threads[i].path[..|s.threads[i].trail|]).None?
    ensures OriginOk(t0, Step(s, i), n)
  {
    hide Resolve;
    var s' := Step(s, i);
    if n in s.born {
      var o := s.born[n];
      assert s'.born[n] == o && n in s'.tree;
      PcStep(s, i, n);
      hide Step;
    }
  }

  /** Names lead from where a node stands to where its children stand. */
  lemma KidStands(t0: Tree, last0: nat, s: State, n: nat, a: seq<string>, x: string)
    requires WellFormed(t0, last0) && Stands(t0, s, n, a)
    requires n in s.tree && x in s.tree[n].kids && KidOk(t0, s, n, x)
    requires n in t0 ==> n !in s.born
    requires var m := s.tree[n].kids[x];
             && (m in t0 <==> m !in s.born)
             && (m in s.born ==> OriginOk(t0, s, m) && ThreadOk(t0, s, s.born[m].tid))
    ensures Stands(t0, s, s.tree[n].kids[x], a + [x])
  {
    var m := s.tree[n].kids[x];
    if m in t0 {
      WalkSnoc(t0, ROOT, a, x);
    } else {
      var o := s.born[m];
      var th := s.threads[o.tid];
      var k := |o.names| - 1;
      assert Stands(t0, s, th.trail[k], th.path[..k]);
      if n !in s.born {
        ResolveIffNames(t0, last0, n, a);
        ResolveIffNames(t0, last0, n, th.path[..k]);
      }
      assert th.path[..k] == a;
      assert th.path[..k + 1] == a + [x];
    }
  }

  /** A step of one thread leaves every other thread in order. */
  lemma OtherThreadStep(t0: Tree, s: State, i: nat, j: nat)
    requires i in s.threads && ThreadSane(s.threads[i], s.tree)
    requires j in s.threads && ThreadSane(s.threads[j], s.tree) && j != i
    requires ThreadOk(t0, s, j) && RemovingOk(s, i)
    requires s.last + 1 !in s.tree
    ensures ThreadOk(t0, Step(s, i), j)
  {
    var s' := Step(s, i);
    var th := s.threads[j];
    assert s'.threads[j] == th;
    forall k | 0 <= k < |th.trail| ensures Stands(t0, s', th.trail[k], th.path[..k]) {
      assert Stands(t0, s, th.trail[k], th.path[..k]);
    }
  }

  /** The trail of the thread that moves stays where its path has it. */
  lemma OwnTrailStep(t0: Tree, s: State, i: nat)
    requires i in s.threads && ThreadSane(s.threads[i], s.tree) && ThreadOk(t0, s, i)
    requires s.last + 1 !in s.tree
    requires var th := s.threads[i];
             th.pc.Walking? && !Finished(th) && Name(th) in s.tree[Cur(th)].kids ==>
               Stands(t0, s, s.tree[Cur(th)].kids[Name(th)], th.path[..|th.trail|])
    ensures var th' := Step(s, i).threads[i];
            && th'.path == s.threads[i].path && |th'.trail| <= |th'.path| + 1
            && forall k :: 0 <= k < |th'.trail| ==> Stands(t0, Step(s, i), th'.trail[k], th'.path[..k])
  {
    var s' := Step(s, i);
    var th, th' := s.threads[i], s'.threads[i];
    forall k | 0 <= k < |th'.trail| ensures Stands(t0, s', th'.trail[k], th'.path[..k]) {
      if k < |th.trail| {
        assert th'.trail[k] == th.trail[k];
        assert Stands(t0, s, th.trail[k], th.path[..k]);
      }
    }
  }

  lemma OwnThreadStep(t0: Tree, s: State, i: nat)
    requires i in s.threads && ThreadSane(s.threads[i], s.tree)
    requires ThreadOk(t0, s, i) && RemovingOk(s, i)
    requires s.last + 1 !in s.tree
    requires var th := s.threads[i];
             th.pc.Walking? && !Finished(th) && Name(th) in s.tree[Cur(th)].kids ==>
               Stands(t0, s, s.tree[Cur(th)].kids[Name(th)], th.path[..|th.trail|])
    requires s.threads[i].pc.Walking? && Cur(s.threads[i]) in t0 ==> OldOk(t0, s, Cur(s.threads[i]))
    ensures ThreadOk(t0, Step(s, i), i)
  {
    OwnTrailStep(t0, s, i);
    OwnShapeStep(t0, s, i);
    OwnNodeStep(t0, s, i);
    hide Stands, Step, RemovingOk, OldOk;
  }

  /** Where the thread is in its loop body afterwards, and for what name. */
  lemma OwnShapeStep(t0: Tree, s: State, i: nat)
    requires i in s.threads && ThreadSane(s.threads[i], s.tree) && ThreadOk(t0, s, i)
    requires s.threads[i].pc.Walking? && Cur(s.threads[i]) in t0 ==> OldOk(t0, s, Cur(s.threads[i]))
    ensures var th' := Step(s, i).threads[i];
            && 1 <= |th'.trail| <= |th'.path| + 1
            && (!th'.pc.Walking? ==> |th'.trail| <= |th'.path|)
            && (th'.pc.Refused? ==> th'.file && |th'.trail| == |th'.path|)
            && (Adding(th'.pc) ==> Cur(th') in t0 ==> Name(th') !in t0[Cur(th')].kids)
  {
    hide Stands;
  }

  /** The node in its hands is of its own making, and not deleted as long as it is not stored. */
  lemma OwnNodeStep(t0: Tree, s: State, i: nat)
    requires i in s.threads && ThreadSane(s.threads[i], s.tree) && ThreadOk(t0, s, i) && RemovingOk(s, i)
    requires s.last + 1 !in s.tree
    ensures var s' := Step(s, i);
            var th' := s'.threads[i];
            && (HasNode(th'.pc) ==>
                  th'.pc.node in s'.born && s'.born[th'.pc.node] == Origin(i, th'.path[..|th'.trail|]))
            && (forall c :: Unstored(th'.pc, c) && c in s'.tree ==> !s'.tree[c].isDel)
  {
    hide Stands;
  }

  /** An entry that a step does not touch stays in order. */
  lemma KeptKidStep(t0: Tree, s: State, i: nat, n: nat, x: string)
    requires i in s.threads && ThreadSane(s.threads[i], s.tree)
    requires n in s.tree && x in s.tree[n].kids && KidOk(t0, s, n, x)
    requires ThreadOk(t0, s, i) && RemovingOk(s, i)
    requires s.last + 1 !in s.tree
    requires n in Step(s, i).tree && x in Step(s, i).tree[n].kids
    requires Step(s, i).tree[n].kids[x] == s.tree[n].kids[x]
    ensures KidOk(t0, Step(s, i), n, x)
  {
    var s' := Step(s, i);
    var m := s.tree[n].kids[x];
    KeptNodeStep(s, i, m);
    if m in s.born {
      KeptMakerStep(t0, s, i, n, x);
    }
  }

  lemma KeptNodeStep(s: State, i: nat, m: nat)
    requires i in s.threads && ThreadSane(s.threads[i], s.tree) && s.last + 1 !in s.tree && m in s.tree
    requires s.threads[i].pc.Removing? ==> s.threads[i].pc.taken != m
    ensures var s' := Step(s, i);
            && m in s'.tree && s'.tree[m].isDel == s.tree[m].isDel
            && (m in s'.born <==> m in s.born || m == s.last + 1) && (m in s.born ==> s'.born[m] == s.born[m])
            && s'.tree[m].parent ==
               (if s.threads[i].pc == Parenting(m) then Some(Cur(s.threads[i])) else s.tree[m].parent)
  {
  }

  lemma KeptMakerStep(t0: Tree, s: State, i: nat, n: nat, x: string)
    requires i in s.threads && ThreadSane(s.threads[i], s.tree)
    requires n in s.tree && x in s.tree[n].kids && KidOk(t0, s, n, x) && s.tree[n].kids[x] in s.born
    requires ThreadOk(t0, s, i) && s.last + 1 !in s.tree
    ensures var m := s.tree[n].kids[x];
            var o, s' := s.born[m], Step(s, i);
            && o.tid in s'.threads
            && var mk, mk' := s.threads[o.tid], s'.threads[o.tid];
            && mk'.path == mk.path && mk.trail <= mk'.trail && !Unstored(mk'.pc, m)
            && (mk.pc == Parenting(m) ==> mk'.pc == Parenting(m) || (o.tid == i && Cur(mk) == n))
  {
    PcStep(s, i, s.tree[n].kids[x]);
    hide Step;
  }

  lemma NewKidStep(t0: Tree, s: State, i: nat)
    requires i in s.threads && ThreadSane(s.threads[i], s.tree) && s.threads[i].pc.Storing?
    requires ThreadOk(t0, s, i) && s.threads[i].pc.node !in t0
    ensures KidOk(t0, Step(s, i), Cur(s.threads[i]), Name(s.threads[i]))
  {
    var th := s.threads[i];
    assert Unstored(th.pc, th.pc.node);
  }

  lemma KidStep(t0: Tree, s: State, i: nat, n: nat, x: string)
    requires i in s.threads && ThreadSane(s.threads[i], s.tree)
    requires n in Step(s, i).tree && x in Step(s, i).tree[n].kids
    requires n in s.tree && x in s.tree[n].kids ==> KidOk(t0, s, n, x)
    requires ThreadOk(t0, s, i) && RemovingOk(s, i)
    requires s.last + 1 !in s.tree
    requires s.threads[i].pc.Storing? ==> s.threads[i].pc.node !in t0
    ensures KidOk(t0, Step(s, i), n, x)
  {
    var th := s.threads[i];
    hide KidOk, ThreadOk, RemovingOk;
    if th.pc.Storing? && n == Cur(th) && x == Name(th) {
      NewKidStep(t0, s, i);
    } else {
      KeptKidStep(t0, s, i, n, x);
    }
  }

  lemma RemovingStep(t0: Tree, s: State, i: nat, j: nat)
    requires i in s.threads && ThreadSane(s.threads[i], s.tree)
    requires j in s.threads && ThreadSane(s.threads[j], s.tree)
    requires ThreadOk(t0, s, i) && RemovingOk(s, i) && RemovingOk(s, j)
    requires s.last + 1 !in s.tree
    requires i == j ==> !s.threads[i].pc.Making?
    ensures RemovingOk(Step(s, i), j)
  {
  }

  /** A node made in this run sits in one table at most, under one name. */
  lemma OneEntry(t0: Tree, s: State, n: nat, x: string, n': nat, x': string)
    requires n in s.tree && x in s.tree[n].kids && KidOk(t0, s, n, x)
    requires n' in s.tree && x' in s.tree[n'].kids && KidOk(t0, s, n', x')
    requires s.tree[n].kids[x] == s.tree[n'].kids[x'] && s.tree[n].kids[x] in s.born
    ensures n == n' && x == x'
  {
  }

  /** What is about to be taken out was made in this run and is stored. */
  lemma TakenIsStored(t0: Tree, s: State, i: nat)
    requires i in s.threads && ThreadSane(s.threads[i], s.tree) && s.threads[i].pc.Making? && ThreadOk(t0, s, i)
    requires forall n :: n in s.tree ==> n in t0 || n in s.born
    requires var th := s.threads[i]; Name(th) in s.tree[Cur(th)].kids && KidOk(t0, s, Cur(th), Name(th))
    ensures var e := s.tree[Cur(s.threads[i])].kids[Name(s.threads[i])];
            && e in s.born && s.born[e].tid in s.threads && !Unstored(s.threads[s.born[e].tid].pc, e)
  {
  }

  /** What is taken out of a table was made in this run and sits in no other table. */
  lemma TakingStep(t0: Tree, s: State, i: nat)
    requires i in s.threads && ThreadSane(s.threads[i], s.tree) && s.threads[i].pc.Making?
    requires ThreadOk(t0, s, i) && KidsOk(t0, s)
    requires forall n :: n in s.tree ==> n in t0 || n in s.born
    ensures RemovingOk(Step(s, i), i)
  {
    hide KidOk, ThreadOk;
    var th := s.threads[i];
    var s' := Step(s, i);
    var cur, x := Cur(th), Name(th);
    if x in s.tree[cur].kids {
      TakenIsStored(t0, s, i);
      forall n, y | n in s'.tree && y in s'.tree[n].kids ensures s'.tree[n].kids[y] != s.tree[cur].kids[x] {
        if s.tree[n].kids[y] == s.tree[cur].kids[x] {
          OneEntry(t0, s, n, y, cur, x);
        }
      }
    }
  }

  lemma SettledStep(s: State, i: nat, n: nat, x: string)
    requires i in s.threads && ThreadSane(s.threads[i], s.tree) && Settled(s, n, x)
    requires s.last + 1 !in s.tree
    ensures Settled(Step(s, i), n, x)
  {
    var th := s.threads[i];
    var s' := Step(s, i);
    if n in s.tree && x in s.tree[n].kids {
      if x !in s'.tree[n].kids {
        assert InWindow(s'.threads[i], n, x);
      }
    } else {
      var u :| u in s.threads && InWindow(s.threads[u], n, x);
      if u != i {
        assert InWindow(s'.threads[u], n, x);
      } else if th.pc.Removing? {
        assert InWindow(s'.threads[i], n, x);
      } else {
        assert x in s'.tree[n].kids;
      }
    }
  }

  /** How a thread's trail grows and when it comes to hold a stored node. */
  lemma TrailStep(s: State, i: nat, j: nat)
    requires i in s.threads && ThreadSane(s.threads[i], s.tree) && j in s.threads && ThreadSane(s.threads[j], s.tree)
    ensures j in Step(s, i).threads
    ensures var th, th' := s.threads[j], Step(s, i).threads[j];
            && th'.path == th.path && th.trail <= th'.trail
            && (th'.trail == th.trail
                || (j == i && |th'.trail| == |th.trail| + 1 <= |th.path| + 1 && th'.pc.Walking?
                    && (th.pc.Parenting? || Name(th) in s.tree[Cur(th)].kids)))
            && (th'.pc.Parenting? || th'.pc.Refused? ==>
                  && |th.trail| <= |th.path|
                  && (th.pc.Parenting? || th.pc.Storing? || th.pc.Refused? || Name(th) in s.tree[Cur(th)].kids))
  {
  }

  lemma SettledThreadStep(s: State, i: nat, j: nat)
    requires i in s.threads && ThreadSane(s.threads[i], s.tree)
    requires j in s.threads && ThreadSane(s.threads[j], s.tree) && SettledOk(s, j)
    requires s.last + 1 !in s.tree
    ensures SettledOk(Step(s, i), j)
  {
    TrailStep(s, i, j);
    hide Step;
    var s' := Step(s, i);
    var th, th' := s.threads[j], s'.threads[j];
    hide Settled;
    forall k | 0 <= k < |th'.trail| - 1 && k < |th'.path| ensures Settled(s', th'.trail[k], th'.path[k]) {
      assert th'.trail[k] == th.trail[k];
      WalkedOver(s, j, k);
      SettledStep(s, i, th.trail[k], th.path[k]);
    }
    if th'.pc.Parenting? || th'.pc.Refused? {
      WalkedOver(s, j, |th.trail| - 1);
      SettledStep(s, i, Cur(th), Name(th));
    }
  }

  lemma WalkedOver(s: State, j: nat, k: nat)
    requires j in s.threads && SettledOk(s, j) && k < |s.threads[j].trail| && k < |s.threads[j].path|
    requires var th := s.threads[j];
             || k < |th.trail| - 1 || th.pc.Parenting? || th.pc.Storing? || th.pc.Refused?
             || (Cur(th) in s.tree && Name(th) in s.tree[Cur(th)].kids)
    ensures Settled(s, s.threads[j].trail[k], s.threads[j].path[k])
  {
    var th := s.threads[j];
    if k == |th.trail| - 1 && th.pc.Storing? {
      assert InWindow(th, Cur(th), Name(th));
    }
  }

  lemma OldKeptStep(t0: Tree, last0: nat, s: State, i: nat)
    requires Inv(t0, last0, s) && i in s.threads
    ensures OldKept(t0, Step(s, i))
  {
    hide Step, OldOk, OriginOk, ThreadOk, KidOk, RemovingOk, SettledOk, ThreadSane;
    forall n | n in t0 ensures OldOk(t0, Step(s, i), n) {
      OldStep(t0, s, i, n);
    }
  }

  /** The address a missing directory is made for did not resolve at the start. */
  lemma NewAddressIsFree(t0: Tree, s: State, i: nat)
    requires i in s.threads && Adding(s.threads[i].pc) && ThreadOk(t0, s, i)
    requires Cur(s.threads[i]) in s.born ==> OriginOk(t0, s, Cur(s.threads[i]))
    ensures Resolve(t0, s.threads[i].path[..|s.threads[i].trail|]).None?
  {
    var th := s.threads[i];
    var k := |th.trail| - 1;
    assert th.path[..k + 1] == th.path[..k] + [th.path[k]];
    WalkSnoc(t0, ROOT, th.path[..k], th.path[k]);
    assert Stands(t0, s, th.trail[k], th.path[..k]);
  }

  lemma KnownNodesStep(t0: Tree, s: State, i: nat)
    requires i in s.threads && ThreadSane(s.threads[i], s.tree)
    requires forall n :: n in s.tree ==> n in t0 || n in s.born
    ensures forall n :: n in Step(s, i).tree ==> n in t0 || n in Step(s, i).born
  {
  }

  lemma OriginsStep(t0: Tree, last0: nat, s: State, i: nat)
    requires Inv(t0, last0, s) && i in s.threads
    ensures Origins(t0, Step(s, i))
  {
    hide OldOk, OriginOk, KidOk, RemovingOk, SettledOk, Step;
    KnownNodesStep(t0, s, i);
    if Adding(s.threads[i].pc) {
      NewAddressIsFree(t0, s, i);
    }
    hide ThreadOk, ThreadSane;
    forall n | n in Step(s, i).born ensures OriginOk(t0, Step(s, i), n) {
      OriginStep(t0, s, i, n);
    }
  }

  lemma ThreadsStep(t0: Tree, last0: nat, s: State, i: nat)
    requires Inv(t0, last0, s) && i in s.threads
    ensures ThreadsOk(t0, Step(s, i))
  {
    hide OldOk, OriginOk, KidOk, RemovingOk, SettledOk, Step, ThreadOk, ThreadSane;
    SaneSteps(s, i);
    var th := s.threads[i];
    if th.pc.Walking? && !Finished(th) && Name(th) in s.tree[Cur(th)].kids {
      NextStands(t0, last0, s, i);
    }
    OwnThreadStep(t0, s, i);
    StepPaths(s, i);
    forall j | j in Step(s, i).threads ensures ThreadOk(t0, Step(s, i), j) {
      if j != i {
        OtherThreadStep(t0, s, i, j);
      }
    }
  }

  lemma TrailStands(t0: Tree, s: State, i: nat)
    requires i in s.threads && ThreadOk(t0, s, i) && |s.threads[i].trail| <= |s.threads[i].path|
    ensures var th := s.threads[i];
            var k := |th.trail| - 1;
            && Stands(t0, s, Cur(th), th.path[..k])
            && th.path[..k + 1] == th.path[..k] + [Name(th)]
  {
    var th := s.threads[i];
    assert Stands(t0, s, th.trail[|th.trail| - 1], th.path[..|th.trail| - 1]);
  }

  lemma NextStands(t0: Tree, last0: nat, s: State, i: nat)
    requires Inv(t0, last0, s) && i in s.threads
    requires var th := s.threads[i];
             th.pc.Walking? && !Finished(th) && Name(th) in s.tree[Cur(th)].kids
    ensures var th := s.threads[i];
            Stands(t0, s, s.tree[Cur(th)].kids[Name(th)], th.path[..|th.trail|])
  {
    var th := s.threads[i];
    assert ThreadOk(t0, s, i) && ThreadSane(th, s.tree);
    hide Inv, ThreadOk, Stands;
    TrailStands(t0, s, i);
    InvStands(t0, last0, s, Cur(th), th.path[..|th.trail| - 1], Name(th));
  }

  lemma InvStands(t0: Tree, last0: nat, s: State, n: nat, a: seq<string>, x: string)
    requires Inv(t0, last0, s) && n in s.tree && x in s.tree[n].kids && Stands(t0, s, n, a)
    ensures Stands(t0, s, s.tree[n].kids[x], a + [x])
  {
    var m := s.tree[n].kids[x];
    assert KidOk(t0, s, n, x);
    assert n in t0 ==> OldOk(t0, s, n);
    assert m in t0 ==> OldOk(t0, s, m);
    assert m in s.born ==> OriginOk(t0, s, m);
    hide OldKept, Origins, KidsOk, RemovalsOk, AllSettled, Sane, WellFormed;
    KidStands(t0, last0, s, n, a, x);
  }

  lemma KidsStep(t0: Tree, last0: nat, s: State, i: nat)
    requires Inv(t0, last0, s) && i in s.threads
    ensures KidsOk(t0, Step(s, i))
  {
    assert s.threads[i].pc.Storing? ==> s.threads[i].pc.node !in t0 by {
      assert ThreadOk(t0, s, i);
    }
    hide Step, OldOk, OriginOk, ThreadOk, KidOk, RemovingOk, SettledOk, ThreadSane;
    var s' := Step(s, i);
    forall n, x | n in s'.tree && x in s'.tree[n].kids ensures KidOk(t0, s', n, x) {
      KidStep(t0, s, i, n, x);
    }
  }

  lemma RemovalsStep(t0: Tree, last0: nat, s: State, i: nat)
    requires Inv(t0, last0, s) && i in s.threads
    ensures RemovalsOk(Step(s, i))
  {
    hide OldOk, OriginOk, ThreadOk, KidOk, RemovingOk, SettledOk;
    if s.threads[i].pc.Making? {
      TakingStep(t0, s, i);
    }
    assert Step(s, i).threads.Keys == s.threads.Keys;
    hide Step, ThreadSane;
    forall j | j in Step(s, i).threads ensures RemovingOk(Step(s, i), j) {
      if i != j || !s.threads[i].pc.Making? {
        RemovingStep(t0, s, i, j);
      }
    }
  }

  lemma AllSettledStep(t0: Tree, last0: nat, s: State, i: nat)
    requires Inv(t0, last0, s) && i in s.threads
    ensures AllSettled(Step(s, i))
  {
    hide OldOk, OriginOk, ThreadOk, KidOk, RemovingOk, SettledOk;
    assert Step(s, i).threads.Keys == s.threads.Keys;
    hide Step, ThreadSane;
    forall j | j in Step(s, i).threads ensures SettledOk(Step(s, i), j) {
      SettledThreadStep(s, i, j);
    }
  }

  lemma FileStep(t0: Tree, s: State, i: nat, j: nat)
    requires i in s.threads && ThreadSane(s.threads[i], s.tree) && ThreadOk(t0, s, i)
    requires j in s.threads && FileOk(s, j) && ThreadSane(s.threads[j], s.tree) && s.last + 1 !in s.tree
    ensures j in Step(s, i).threads && FileOk(Step(s, i), j)
  {
    hide Stands;
    var th := s.threads[i];
    if j == i && th.pc.Parenting? && |th.trail| == |th.path| {
      assert th.path[..|th.trail|] == th.path;
    }
  }

  lemma FilesStep(t0: Tree, last0: nat, s: State, i: nat)
    requires Inv(t0, last0, s) && i in s.threads
    ensures FilesOk(Step(s, i))
  {
    hide OldOk, OriginOk, ThreadOk, KidOk, RemovingOk, SettledOk, FileOk, Step, ThreadSane;
    StepPaths(s, i);
    forall j | j in Step(s, i).threads ensures FileOk(Step(s, i), j) {
      FileStep(t0, s, i, j);
    }
  }

  /** Every step of every thread keeps the invariant. */
  lemma StepInv(t0: Tree, last0: nat, s: State, i: nat)
    requires Inv(t0, last0, s) && i in s.threads
    ensures Inv(t0, last0, Step(s, i))
  {
    hide OldKept, Origins, ThreadsOk, KidsOk, RemovalsOk, AllSettled, FilesOk, WellFormed;
    StepSane(s, i);
    OldKeptStep(t0, last0, s, i);
    OriginsStep(t0, last0, s, i);
    ThreadsStep(t0, last0, s, i);
    KidsStep(t0, last0, s, i);
    RemovalsStep(t0, last0, s, i);
    AllSettledStep(t0, last0, s, i);
    FilesStep(t0, last0, s, i);
  }

  /** The paths asked for never change. */
  lemma {:induction false} ExecInv(t0: Tree, last0: nat, s: State, sched: seq<nat>)
    requires Inv(t0, last0, s)
    ensures Inv(t0, last0, Exec(s, sched))
    ensures Exec(s, sched).threads.Keys == s.threads.Keys
    ensures forall i :: i in s.threads ==> Exec(s, sched).threads[i].path == s.threads[i].path
    decreases |sched|
  {
    if sched != [] {
      if sched[0] in s.threads {
        StepInv(t0, last0, s, sched[0]);
        StepPaths(s, sched[0]);
        hide Step, OldKept, Origins, ThreadsOk, KidsOk, RemovalsOk, AllSettled, WellFormed;
        ExecInv(t0, last0, Step(s, sched[0]), sched[1..]);
      } else {
        ExecInv(t0, last0, s, sched[1..]);
      }
    }
  }

  lemma StepPaths(s: State, i: nat)
    requires i in s.threads && ThreadSane(s.threads[i], s.tree)
    ensures Step(s, i).threads.Keys == s.threads.Keys
    ensures forall j :: j in s.threads ==> Step(s, i).threads[j].path == s.threads[j].path
  {
  }

  /* ---------- What a finished run leaves behind ---------- */

  /** Wherever names lead, they lead to a node that stands there. */
  lemma {:induction false} ResolvedStands(t0: Tree, last0: nat, s: State, xs: seq<string>)
    requires Inv(t0, last0, s) && Resolve(s.tree, xs).Some?
    ensures Resolve(s.tree, xs).value in s.tree && Stands(t0, s, Resolve(s.tree, xs).value, xs)
    decreases |xs|
  {
    if xs == [] {
      assert OldOk(t0, s, ROOT);
    } else {
      var ys, x := xs[..|xs| - 1], xs[|xs| - 1];
      SnocParts(xs);
      WalkSnoc(s.tree, ROOT, ys, x);
      ResolvedStands(t0, last0, s, ys);
      InvStands(t0, last0, s, Resolve(s.tree, ys).value, ys, x);
    }
  }

  /** What resolved at the start resolves to the same node at every moment. */
  lemma {:induction false} OldPathsKept(t0: Tree, last0: nat, s: State, n: nat, xs: seq<string>)
    requires Inv(t0, last0, s) && n in t0 && Walk(t0, n, xs).Some?
    ensures Walk(s.tree, n, xs) == Walk(t0, n, xs)
    decreases |xs|
  {
    if xs != [] {
      assert OldOk(t0, s, n);
      OldPathsKept(t0, last0, s, t0[n].kids[xs[0]], xs[1..]);
    }
  }

  /** Two requests that share a prefix that was not there before. */
  ghost predicate Sharing(t0: Tree, threads: map<nat, Thread>, i: nat, j: nat, k: nat) {
    && i in threads && j in threads && k <= |threads[i].path| && k <= |threads[j].path|
    && threads[i].path[..k] == threads[j].path[..k] && Resolve(t0, threads[i].path[..k]).None?
  }

  /**
   The condition on one request: whoever shares a missing prefix with it asks for the same path or a
   longer one.  A caller can check it against the tree before starting the calls.
   */
  ghost predicate Safe(t0: Tree, threads: map<nat, Thread>, i: nat) {
    forall j, k: nat :: Sharing(t0, threads, i, j, k) ==> threads[i].path <= threads[j].path
  }

  /** For all requests at once: two are for the same path, or every prefix they share was there before. */
  ghost predicate Compatible(t0: Tree, threads: map<nat, Thread>) {
    forall i, j, k: nat :: Sharing(t0, threads, i, j, k) ==> threads[i].path == threads[j].path
  }

  lemma CompatibleIffSafe(t0: Tree, threads: map<nat, Thread>)
    ensures Compatible(t0, threads) <==> forall i :: i in threads ==> Safe(t0, threads, i)
  {
    if forall i :: i in threads ==> Safe(t0, threads, i) {
      forall i, j, k: nat | Sharing(t0, threads, i, j, k) ensures threads[i].path == threads[j].path {
        assert Sharing(t0, threads, j, i, k);
        assert threads[i].path <= threads[j].path <= threads[i].path;
      }
    }
  }

  /** The first `k` names resolve to a live node whose parent pointer leads back up. */
  ghost predicate PrefixInPlace(t: Tree, path: seq<string>, k: nat)
    requires k <= |path|
  {
    && Resolve(t, path[..k]).Some?
    && var n := Resolve(t, path[..k]).value;
    && n in t && !t[n].isDel
    && (k > 0 ==> Resolve(t, path[..k - 1]).Some? && t[n].parent == Some(Resolve(t, path[..k - 1]).value))
  }

  ghost predicate InPlace(t: Tree, path: seq<string>) {
    forall k :: 0 <= k <= |path| ==> PrefixInPlace(t, path, k)
  }

  /** Whoever made a node on a safe request's path went on along that path. */
  lemma MakerPassed(t0: Tree, last0: nat, s: State, i: nat, n: nat, k: nat)
    requires Inv(t0, last0, s) && AllFinished(s) && i in s.threads && Safe(t0, s.threads, i)
    requires k < |s.threads[i].path| && n in s.born && s.born[n].names == s.threads[i].path[..k]
    ensures var j := s.born[n].tid;
            && j in s.threads && s.threads[i].path <= s.threads[j].path
            && k < |s.threads[j].trail| && s.threads[j].trail[k] == n
  {
    var o := s.born[n];
    assert OriginOk(t0, s, n);
    hide Inv;
    assert Finished(s.threads[o.tid]);
    assert |o.names| == k;
    assert Sharing(t0, s.threads, i, o.tid, k);
  }

  /** An old node on a finished thread's path is on its trail. */
  lemma OldOnTrail(t0: Tree, last0: nat, s: State, i: nat, n: nat, k: nat)
    requires Inv(t0, last0, s) && i in s.threads && Finished(s.threads[i])
    requires k < |s.threads[i].path| && n !in s.born && Stands(t0, s, n, s.threads[i].path[..k])
    ensures k < |s.threads[i].trail| && s.threads[i].trail[k] == n
  {
    var th := s.threads[i];
    assert ThreadOk(t0, s, i);
    var m := th.trail[k];
    assert Stands(t0, s, m, th.path[..k]);
    assert m in s.born ==> OriginOk(t0, s, m);
  }

  /** Some thread walked through any node that stands on a safe request's path, and on along it. */
  lemma PassedBy(t0: Tree, last0: nat, s: State, i: nat, n: nat, k: nat) returns (j: nat)
    requires Inv(t0, last0, s) && AllFinished(s) && i in s.threads && Safe(t0, s.threads, i)
    requires k < |s.threads[i].path| && n in s.tree && Stands(t0, s, n, s.threads[i].path[..k])
    ensures j in s.threads && s.threads[i].path <= s.threads[j].path
    ensures k < |s.threads[j].trail| && s.threads[j].trail[k] == n
  {
    hide Inv, Safe;
    if n in s.born {
      MakerPassed(t0, last0, s, i, n, k);
      j := s.born[n].tid;
    } else {
      OldOnTrail(t0, last0, s, i, n, k);
      j := i;
    }
  }

  /** What a finished thread walked through it walked on from, as far as its path goes. */
  lemma WalkedOn(t0: Tree, s: State, j: nat, k: nat)
    requires j in s.threads && ThreadOk(t0, s, j) && SettledOk(s, j) && Finished(s.threads[j])
    requires k < |s.threads[j].path| && k < |s.threads[j].trail|
    ensures Settled(s, s.threads[j].trail[k], s.threads[j].path[k])
  {
  }

  lemma SettledAtEnd(s: State, n: nat, x: string)
    requires Settled(s, n, x) && AllFinished(s)
    ensures n in s.tree && x in s.tree[n].kids
  {
    if u :| u in s.threads && InWindow(s.threads[u], n, x) {
      assert Finished(s.threads[u]);
    }
  }

  lemma NextInPlace(t0: Tree, last0: nat, s: State, i: nat, k: nat)
    requires Inv(t0, last0, s) && AllFinished(s) && i in s.threads && Safe(t0, s.threads, i)
    requires k < |s.threads[i].path| && Resolve(s.tree, s.threads[i].path[..k]).Some?
    ensures var path := s.threads[i].path;
            && Resolve(s.tree, path[..k + 1]).Some?
            && var n := Resolve(s.tree, path[..k + 1]).value;
               n in s.tree && !s.tree[n].isDel && s.tree[n].parent == Some(Resolve(s.tree, path[..k]).value)
  {
    hide OldKept, Origins, KidsOk, RemovalsOk, WellFormed, Sane, Safe, Resolve;
    var path := s.threads[i].path;
    var n, x := Resolve(s.tree, path[..k]).value, path[k];
    assert path[..k + 1] == path[..k] + [x];
    ResolvedStands(t0, last0, s, path[..k]);
    var j := PassedBy(t0, last0, s, i, n, k);
    assert SettledOk(s, j) && ThreadOk(t0, s, j) && Finished(s.threads[j]);
    hide ThreadsOk, AllFinished, SettledOk, ThreadOk, AllSettled;
    WalkedOn(t0, s, j, k);
    SettledAtEnd(s, n, x);
    KidInOrder(t0, last0, s, n, x);
    ResolveSnoc(s.tree, path[..k], x);
  }

  lemma KidInOrder(t0: Tree, last0: nat, s: State, n: nat, x: string)
    requires Inv(t0, last0, s) && AllFinished(s) && n in s.tree && x in s.tree[n].kids
    ensures var m := s.tree[n].kids[x];
            m in s.tree && !s.tree[m].isDel && s.tree[m].parent == Some(n)
  {
    var m := s.tree[n].kids[x];
    assert KidOk(t0, s, n, x);
    if m in s.born {
      assert Finished(s.threads[s.born[m].tid]);
    } else {
      assert OldOk(t0, s, m);
    }
  }

  lemma {:induction false} PathInPlace(t0: Tree, last0: nat, s: State, i: nat, k: nat)
    requires Inv(t0, last0, s) && AllFinished(s) && i in s.threads && Safe(t0, s.threads, i)
    requires k <= |s.threads[i].path|
    ensures Resolve(s.tree, s.threads[i].path[..k]).Some?
  {
    hide Inv, AllFinished, Safe;
    if k == 0 {
      assert s.threads[i].path[..0] == [];
    } else {
      hide Resolve;
      PathInPlace(t0, last0, s, i, k - 1);
      NextInPlace(t0, last0, s, i, k - 1);
    }
  }

  /** A safe request: whatever the schedule and the others, once all are done its path is in place. */
  lemma SafePathKept(s0: State, sched: seq<nat>, i: nat)
    requires Init(s0) && i in s0.threads && Safe(s0.tree, s0.threads, i)
    requires AllFinished(Exec(s0, sched))
    ensures InPlace(Exec(s0, sched).tree, s0.threads[i].path)
  {
    InitInv(s0);
    ExecInv(s0.tree, s0.last, s0, sched);
    hide Init, Inv, AllFinished, Safe, InPlace, Exec;
    SamePathsSafe(s0.tree, s0.threads, Exec(s0, sched).threads, i);
    AllInPlace(s0.tree, s0.last, Exec(s0, sched), i);
  }

  /**
   Racing calls: for any number of directory and file requests whose paths are compatible, whatever
   the schedule, once all are done every path asked for is in place, the paths that resolve are
   exactly those that one call after another would give, and what was there before is where it was.
   */
  lemma RacingCallsKeepPaths(s0: State, sched: seq<nat>)
    requires Init(s0) && Compatible(s0.tree, s0.threads)
    requires AllFinished(Exec(s0, sched))
    ensures var s := Exec(s0, sched);
            && (forall i :: i in s0.threads ==> InPlace(s.tree, s0.threads[i].path))
            && (forall xs :: Resolve(s0.tree, xs).Some? ==> Resolve(s.tree, xs) == Resolve(s0.tree, xs))
            && (forall xs :: Resolve(s.tree, xs).Some? <==>
                  Resolve(s0.tree, xs).Some? || exists i :: i in s0.threads && xs <= s0.threads[i].path)
  {
    var s := Exec(s0, sched);
    InitInv(s0);
    ExecInv(s0.tree, s0.last, s0, sched);
    CompatibleIffSafe(s0.tree, s0.threads);
    hide Inv, AllFinished, Exec, Safe, Compatible, InPlace;
    forall i | i in s0.threads ensures Safe(s0.tree, s.threads, i) && InPlace(s.tree, s0.threads[i].path) {
      SamePathsSafe(s0.tree, s0.threads, s.threads, i);
      SafePathKept(s0, sched, i);
    }
    forall xs ensures Resolve(s0.tree, xs).Some? ==> Resolve(s.tree, xs) == Resolve(s0.tree, xs) {
      if Resolve(s0.tree, xs).Some? {
        OldPathsKept(s0.tree, s0.last, s, ROOT, xs);
      }
    }
    forall xs ensures Resolve(s.tree, xs).Some? <==>
        Resolve(s0.tree, xs).Some? || exists i :: i in s0.threads && xs <= s0.threads[i].path
    {
      FinalPaths(s0.tree, s0.last, s0, s, xs);
    }
  }

  lemma SamePathsSafe(t0: Tree, threads: map<nat, Thread>, threads': map<nat, Thread>, i: nat)
    requires Safe(t0, threads, i) && threads'.Keys == threads.Keys
    requires forall i :: i in threads ==> threads'[i].path == threads[i].path
    ensures Safe(t0, threads', i)
  {
    forall j, k: nat | Sharing(t0, threads', i, j, k) ensures threads'[i].path <= threads'[j].path {
      assert Sharing(t0, threads, i, j, k);
    }
  }

  lemma AllInPlace(t0: Tree, last0: nat, s: State, i: nat)
    requires Inv(t0, last0, s) && AllFinished(s) && i in s.threads && Safe(t0, s.threads, i)
    ensures InPlace(s.tree, s.threads[i].path)
  {
    forall k | 0 <= k <= |s.threads[i].path| ensures PrefixInPlace(s.tree, s.threads[i].path, k) {
      hide Inv, AllFinished, Safe, PrefixInPlace;
      if k == 0 {
        RootInPlace(t0, last0, s, s.threads[i].path);
      } else {
        LongerInPlace(t0, last0, s, i, k);
      }
    }
  }

  lemma RootInPlace(t0: Tree, last0: nat, s: State, path: seq<string>)
    requires Inv(t0, last0, s)
    ensures PrefixInPlace(s.tree, path, 0)
  {
    assert OldOk(t0, s, ROOT);
    assert path[..0] == [];
  }

  lemma LongerInPlace(t0: Tree, last0: nat, s: State, i: nat, k: nat)
    requires Inv(t0, last0, s) && AllFinished(s) && i in s.threads && Safe(t0, s.threads, i)
    requires 1 <= k <= |s.threads[i].path|
    ensures PrefixInPlace(s.tree, s.threads[i].path, k)
  {
    hide Inv, AllFinished, Safe, Resolve;
    PathInPlace(t0, last0, s, i, k - 1);
    NextInPlace(t0, last0, s, i, k - 1);
  }

  /** A path that resolves did so at the start or is a prefix of its maker's. */
  lemma ResolvedWasAsked(t0: Tree, last0: nat, s: State, xs: seq<string>)
    requires Inv(t0, last0, s) && Resolve(s.tree, xs).Some?
    ensures Resolve(t0, xs).Some? || exists i :: i in s.threads && xs <= s.threads[i].path
  {
    ResolvedStands(t0, last0, s, xs);
    var n := Resolve(s.tree, xs).value;
    if n in s.born {
      assert OriginOk(t0, s, n);
      hide Inv, Resolve;
      assert xs <= s.threads[s.born[n].tid].path;
    }
  }

  lemma FinalPaths(t0: Tree, last0: nat, s0: State, s: State, xs: seq<string>)
    requires Inv(t0, last0, s) && AllFinished(s)
    requires forall i :: i in s.threads ==> Safe(t0, s.threads, i)
    requires s.threads.Keys == s0.threads.Keys
    requires forall i :: i in s0.threads ==> s.threads[i].path == s0.threads[i].path
    ensures Resolve(s.tree, xs).Some? <==>
            Resolve(t0, xs).Some? || exists i :: i in s0.threads && xs <= s0.threads[i].path
  {
    if Resolve(t0, xs).Some? {
      OldPathsKept(t0, last0, s, ROOT, xs);
    }
    hide Inv, AllFinished, Safe, Resolve;
    if Resolve(s.tree, xs).Some? {
      ResolvedWasAsked(t0, last0, s, xs);
    }
    if i :| i in s0.threads && xs <= s0.threads[i].path {
      PathInPlace(t0, last0, s, i, |xs|);
      assert xs == s.threads[i].path[..|xs|];
    }
  }

  /* ---------- Runs end ---------- */

  function Stage(pc: Pc): nat {
    match pc
    case Walking => 0
    case Missed => 1
    case Making(_) => 2
    case Removing(_, _) => 3
    case Storing(_) => 4
    case Parenting(_) => 5
    case Refused => 0
  }

  /** At most how many steps a thread has yet to make: six for each component. */
  function Ahead(th: Thread): int {
    if Finished(th) then 0 else 6 * (|th.path| + 1 - |th.trail|) - Stage(th.pc)
  }

  function Turns(sched: seq<nat>, i: nat): nat {
    if sched == [] then 0 else (if sched[0] == i then 1 else 0) + Turns(sched[1..], i)
  }

  /** Every step of an unfinished thread brings it nearer to its end, and no other thread sets it back. */
  lemma AheadStep(s: State, i: nat, j: nat)
    requires i in s.threads && ThreadSane(s.threads[i], s.tree) && j in s.threads && ThreadSane(s.threads[j], s.tree)
    ensures j in Step(s, i).threads
    ensures j != i ==> Step(s, i).threads[j] == s.threads[j]
    ensures Finished(s.threads[i]) ==> Step(s, i) == s
    ensures !Finished(s.threads[i]) ==> 0 <= Ahead(Step(s, i).threads[i]) < Ahead(s.threads[i])
  {
  }

  lemma {:induction false} ThreadEnds(s: State, sched: seq<nat>, i: nat)
    requires Sane(s) && i in s.threads && Ahead(s.threads[i]) <= Turns(sched, i)
    ensures i in Exec(s, sched).threads && Finished(Exec(s, sched).threads[i])
    decreases |sched|
  {
    assert ThreadSane(s.threads[i], s.tree);
    if sched != [] {
      var j := sched[0];
      if j in s.threads {
        assert ThreadSane(s.threads[j], s.tree);
        StepSane(s, j);
        AheadStep(s, j, i);
        hide Step, Sane, ThreadSane;
        ThreadEnds(Step(s, j), sched[1..], i);
      } else {
        ThreadEnds(s, sched[1..], i);
      }
    }
  }

  /** Every schedule that gives each thread six turns for each component of its path completes. */
  lemma FairRunsComplete(s0: State, sched: seq<nat>)
    requires Init(s0)
    requires forall i :: i in s0.threads ==> 6 * |s0.threads[i].path| <= Turns(sched, i)
    ensures AllFinished(Exec(s0, sched))
  {
    InitInv(s0);
    ExecInv(s0.tree, s0.last, s0, sched);
    forall i | i in Exec(s0, sched).threads ensures Finished(Exec(s0, sched).threads[i]) {
      hide Inv, Exec;
      ThreadEnds(s0, sched, i);
    }
  }
}
