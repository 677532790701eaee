/**
 Explicit runs of the FUSE server.  In two of them a Lookup answers with a NodeID that does not resolve: in
 one the node was looked up, forgotten and looked up again; in the other two lookups race, and the one
 that lost answers before the winner has stored the number.  In a third one a file is looked up, opened
 and read, and its handle released and read again.
 */
module ServerWitness {
  import opened Common
  import opened Server
  import opened ServerRequests
  import Cache

  ghost predicate Reaches(files: nat -> seq<byte>, root: nat, s: State) {
    exists states :: Run(files, root, states) && states[|states| - 1] == s
  }

  lemma ReachesOn(files: nat -> seq<byte>, root: nat, s: State, i: nat, s': State)
    requires Reaches(files, root, s) && Step(files, s, i, s')
    ensures Reaches(files, root, s')
  {
    var states :| Run(files, root, states) && states[|states| - 1] == s;
    var longer := states + [s'];
    assert Next(files, s, s');
    hide Step, Init, Next;
    forall k | 0 <= k < |longer| - 1 ensures Next(files, longer[k], longer[k + 1]) {
      if k < |states| - 1 {
        assert Next(files, states[k], states[k + 1]);
      }
    }
    assert Run(files, root, longer) && longer[|longer| - 1] == s';
  }

  /** `s` with thread `i` at `th`. */
  function At(s: State, i: nat, th: Thread): State {
    s.(threads := s.threads[i := th])
  }

  /** A step that changes no table. */
  lemma PassStep(files: nat -> seq<byte>, i: nat, s: State, th: Thread, th': Thread)
    requires th.Idle? || th.Done? || th.Looking? || th.EnsLoad? || th.EnsDone? || th.Answering? || th.CtxLoad?
    requires || EnsureMoves(At(s, i, th), th, th') || RequestMoves(At(s, i, th), th, th')
             || ContextMoves(At(s, i, th), th, th')
    ensures Step(files, At(s, i, th), i, At(s, i, th'))
  {
    hide EnsureMoves, RequestMoves, ContextMoves, ReadMoves;
  }

  lemma Passes(files: nat -> seq<byte>, root: nat, i: nat, s: State, th: Thread, th': Thread)
    requires Reaches(files, root, At(s, i, th))
    requires th.Idle? || th.Done? || th.Looking? || th.EnsLoad? || th.EnsDone? || th.Answering? || th.CtxLoad?
    requires || EnsureMoves(At(s, i, th), th, th') || RequestMoves(At(s, i, th), th, th')
             || ContextMoves(At(s, i, th), th, th')
    ensures Reaches(files, root, At(s, i, th'))
  {
    hide *;
    PassStep(files, i, s, th, th');
    ReachesOn(files, root, At(s, i, th), i, At(s, i, th'));
  }

  function Locked(s: State, n: nat, count: nat): State {
    s.(locks := s.locks[n := count])
  }

  lemma LockStep(files: nat -> seq<byte>, i: nat, s: State, n: nat)
    ensures Step(files, At(s, i, LookedUp(n)), i, At(Locked(s, n, Locks(s, n) + 1), i, Answering(n)))
  {
    hide ReadMoves, EnsureMoves, ContextMoves;
  }

  lemma LockToForgetStep(files: nat -> seq<byte>, i: nat, s: State, id: nat, n: nat)
    ensures Step(files, At(s, i, CtxLock(id, n, Forgetting)), i,
                 At(Locked(s, n, Locks(s, n) + 1), i, Holding(id, n, Forgetting)))
  {
    hide ReadMoves, EnsureMoves, RequestMoves;
  }

  lemma CloseStep(files: nat -> seq<byte>, i: nat, s: State, n: nat, res: Result)
    requires Locks(s, n) > 0
    ensures Step(files, At(s, i, Closing(n, res)), i, At(Locked(s, n, Locks(s, n) - 1), i, Done(res)))
  {
    hide ReadMoves, EnsureMoves, RequestMoves;
  }

  lemma Answers(files: nat -> seq<byte>, root: nat, i: nat, s: State, n: nat)
    requires Reaches(files, root, At(s, i, LookedUp(n))) && n in s.ids
    ensures Reaches(files, root, At(Locked(s, n, Locks(s, n)), i, Done(Entry(n, s.ids[n]))))
  {
    hide Reaches, Step, NewIds, NewRegistry, NewOpenFiles, NewLocks;
    var s1 := Locked(s, n, Locks(s, n) + 1);
    LockStep(files, i, s, n);
    ReachesOn(files, root, At(s, i, LookedUp(n)), i, At(s1, i, Answering(n)));
    Passes(files, root, i, s1, Answering(n), Closing(n, Entry(n, s.ids[n])));
    CloseStep(files, i, s1, n, Entry(n, s.ids[n]));
    ReachesOn(files, root, At(s1, i, Closing(n, Entry(n, s.ids[n]))), i,
              At(Locked(s1, n, Locks(s, n)), i, Done(Entry(n, s.ids[n]))));
    assert s1.locks[n := Locks(s, n)] == s.locks[n := Locks(s, n)];
  }

  lemma DrawStep(files: nat -> seq<byte>, i: nat, s: State, n: nat)
    ensures Step(files, At(s, i, EnsAdd(n, ForLookup)), i,
                 At(s.(lastId := s.lastId + 1), i, EnsCas(n, ForLookup, s.lastId + 1)))
  {
    hide ReadMoves, RequestMoves, ContextMoves;
  }

  lemma WinStep(files: nat -> seq<byte>, i: nat, s: State, n: nat, id: nat)
    requires n !in s.ids
    ensures Step(files, At(s, i, EnsCas(n, ForLookup, id)), i,
                 At(s.(ids := s.ids[n := id]), i, EnsStore(n, ForLookup, id)))
  {
    hide ReadMoves, RequestMoves, ContextMoves;
  }

  lemma StoreStep(files: nat -> seq<byte>, i: nat, s: State, n: nat, id: nat)
    ensures Step(files, At(s, i, EnsStore(n, ForLookup, id)), i,
                 At(s.(registry := s.registry[id := n]), i, EnsDone(n, ForLookup, id)))
  {
    hide ReadMoves, RequestMoves, ContextMoves;
  }

  /** The state after thread `i` has drawn the next number for `n` and set it, before it is stored. */
  function Won(s: State, n: nat): State {
    s.(ids := s.ids[n := s.lastId + 1], lastId := s.lastId + 1)
  }

  /** A node without a NodeID gets one, which is not in the registry yet. */
  lemma Wins(files: nat -> seq<byte>, root: nat, i: nat, s: State, n: nat)
    requires Reaches(files, root, At(s, i, EnsLoad(n, ForLookup))) && n !in s.ids
    ensures Reaches(files, root, At(Won(s, n), i, EnsStore(n, ForLookup, s.lastId + 1)))
  {
    hide Reaches, Step, NewIds, NewRegistry, NewOpenFiles, NewLocks;
    var id := s.lastId + 1;
    Passes(files, root, i, s, EnsLoad(n, ForLookup), EnsAdd(n, ForLookup));
    var s1 := s.(lastId := id);
    DrawStep(files, i, s, n);
    WinStep(files, i, s1, n, id);
    ReachesOn(files, root, At(s, i, EnsAdd(n, ForLookup)), i, At(s1, i, EnsCas(n, ForLookup, id)));
    ReachesOn(files, root, At(s1, i, EnsCas(n, ForLookup, id)), i, At(Won(s, n), i, EnsStore(n, ForLookup, id)));
  }

  function Published(s: State, n: nat): State {
    var won := Won(s, n);
    won.(registry := s.registry[won.lastId := n])
  }

  lemma Publishing(files: nat -> seq<byte>, root: nat, i: nat, s: State, n: nat)
    requires Reaches(files, root, At(s, i, EnsLoad(n, ForLookup))) && n !in s.ids
    ensures Reaches(files, root, At(Published(s, n), i, EnsDone(n, ForLookup, s.lastId + 1)))
  {
    hide Reaches, Step, NewIds, NewRegistry, NewOpenFiles, NewLocks;
    var id := s.lastId + 1;
    Wins(files, root, i, s, n);
    StoreStep(files, i, Won(s, n), n, id);
    ReachesOn(files, root, At(Won(s, n), i, EnsStore(n, ForLookup, id)), i,
              At(Published(s, n), i, EnsDone(n, ForLookup, id)));
  }

  function Gone(s: State, id: nat): State {
    s.(registry := s.registry - {id}, forgotten := s.forgotten + {id})
  }

  lemma ForgetStep(files: nat -> seq<byte>, i: nat, s: State, id: nat, n: nat)
    ensures Step(files, At(s, i, Holding(id, n, Forgetting)), i, At(Gone(s, id), i, Closing(n, NoReply)))
  {
    hide ReadMoves, EnsureMoves, RequestMoves;
  }

  /** Forget of a NodeID that resolves. */
  lemma Forgetful(files: nat -> seq<byte>, root: nat, i: nat, s: State, id: nat)
    requires Reaches(files, root, At(s, i, Idle)) && id in s.registry
    ensures Reaches(files, root, At(Locked(Gone(s, id), s.registry[id], Locks(s, s.registry[id])), i, Done(NoReply)))
  {
    hide Reaches, Step, NewIds, NewRegistry, NewOpenFiles, NewLocks;
    var n := s.registry[id];
    var s1 := Locked(s, n, Locks(s, n) + 1);
    var s2 := Gone(s1, id);
    var held := Holding(id, n, Forgetting);
    Passes(files, root, i, s, Idle, CtxLoad(id, Forgetting));
    Passes(files, root, i, s, CtxLoad(id, Forgetting), CtxLock(id, n, Forgetting));
    LockToForgetStep(files, i, s, id, n);
    ReachesOn(files, root, At(s, i, CtxLock(id, n, Forgetting)), i, At(s1, i, held));
    ForgetStep(files, i, s1, id, n);
    ReachesOn(files, root, At(s1, i, held), i, At(s2, i, Closing(n, NoReply)));
    CloseStep(files, i, s2, n, NoReply);
    ReachesOn(files, root, At(s2, i, Closing(n, NoReply)), i, At(Locked(s2, n, Locks(s, n)), i, Done(NoReply)));
    assert s1.locks[n := Locks(s, n)] == s.locks[n := Locks(s, n)];
  }

  /** The file system is new and no request is in flight. */
  lemma StartsIdle(files: nat -> seq<byte>, root: nat, threads: map<nat, Thread>) returns (s: State)
    requires forall i :: i in threads ==> threads[i].Idle?
    ensures Reaches(files, root, s) && s.threads == threads
    ensures s.openFiles == map[] && s.lastFh == 1 && s.caches == map[]
    ensures s.ids == map[root := 1] && s.lastId == 1 && s.registry == map[1 := root] && s.forgotten == {}
  {
    s := State(map[root := 1], 1, map[1 := root], map[], 1, map[], map[], threads, map[], {}, {});
    assert Run(files, root, [s]);
    assert [s][|[s]| - 1] == s;
  }

  /** A Lookup begins: it has found the child that the name denotes. */
  lemma LooksUp(files: nat -> seq<byte>, root: nat, i: nat, s: State, n: nat)
    requires Reaches(files, root, At(s, i, Idle)) && 1 in s.registry
    ensures Reaches(files, root, At(s, i, EnsLoad(n, ForLookup)))
  {
    hide Reaches;
    Passes(files, root, i, s, Idle, Looking(1));
    Passes(files, root, i, s, Looking(1), EnsLoad(n, ForLookup));
  }

  /** A first Lookup of `n` answers with NodeID 2, and it resolves. */
  lemma FirstLookup(files: nat -> seq<byte>, root: nat, n: nat) returns (s: State)
    requires n != root
    ensures Reaches(files, root, At(s, 0, Done(Entry(n, 2)))) && s.threads == map[0 := Idle]
    ensures s.ids == map[root := 1, n := 2] && s.registry == map[1 := root, 2 := n]
    ensures s.openFiles == map[] && s.lastFh == 1 && s.caches == map[]
  {
    hide Reaches, Step, Run, NewIds, NewRegistry, NewOpenFiles, NewLocks;
    var s0 := StartsIdle(files, root, map[0 := Idle]);
    assert s0.threads[0 := Idle] == s0.threads;
    LooksUp(files, root, 0, s0, n);
    Publishing(files, root, 0, s0, n);
    var s1 := Published(s0, n);
    Passes(files, root, 0, s1, EnsDone(n, ForLookup, 2), LookedUp(n));
    Answers(files, root, 0, s1, n);
    s := Locked(s1, n, Locks(s1, n));
  }

  /** A Lookup of a node that has a NodeID answers with it, whatever became of it. */
  lemma SecondLookup(files: nat -> seq<byte>, root: nat, i: nat, s: State, n: nat)
    requires Reaches(files, root, At(s, i, Idle)) && n in s.ids && 1 in s.registry
    ensures Reaches(files, root, At(Locked(s, n, Locks(s, n)), i, Done(Entry(n, s.ids[n]))))
  {
    hide Reaches, Step, NewIds, NewRegistry, NewOpenFiles, NewLocks;
    LooksUp(files, root, i, s, n);
    Passes(files, root, i, s, EnsLoad(n, ForLookup), EnsDone(n, ForLookup, s.ids[n]));
    Passes(files, root, i, s, EnsDone(n, ForLookup, s.ids[n]), LookedUp(n));
    Answers(files, root, i, s, n);
  }

  /** The node is looked up and forgotten. */
  lemma LookupAndForget(files: nat -> seq<byte>, root: nat, n: nat) returns (s: State)
    requires n != root
    ensures Reaches(files, root, At(s, 0, Idle)) && s.threads == map[0 := Idle]
    ensures s.ids == map[root := 1, n := 2] && s.registry == map[1 := root] && 2 in s.forgotten
  {
    hide Reaches, Step, NewIds, NewRegistry, NewOpenFiles, NewLocks;
    var s0 := FirstLookup(files, root, n);
    Passes(files, root, 0, s0, Done(Entry(n, 2)), Idle);
    Forgetful(files, root, 0, s0, 2);
    s := Locked(Gone(s0, 2), n, Locks(s0, n));
    Passes(files, root, 0, s, Done(NoReply), Idle);
  }

  /** For every node but the root: a run whose last step answers a Lookup with a NodeID that is gone. */
  lemma LookupAfterForget(files: nat -> seq<byte>, root: nat, n: nat) returns (states: seq<State>)
    requires n != root
    ensures Run(files, root, states)
    ensures var s := states[|states| - 1];
            s.threads == map[0 := Done(Entry(n, 2))] && 2 !in s.registry && 2 in s.forgotten
  {
    hide Step, NewIds, NewRegistry, NewOpenFiles, NewLocks, Init, Next;
    var s := LookupAndForget(files, root, n);
    SecondLookup(files, root, 0, s, n);
    var last := At(Locked(s, n, Locks(s, n)), 0, Done(Entry(n, 2)));
    states :| Run(files, root, states) && states[|states| - 1] == last;
  }

  /** A first Lookup of `n` has set NodeID 2 and stops before storing it; thread 1 has not begun. */
  lemma LookupStops(files: nat -> seq<byte>, root: nat, n: nat) returns (s: State)
    requires n != root
    ensures Reaches(files, root, At(s, 1, Idle)) && s.threads == map[0 := EnsStore(n, ForLookup, 2)]
    ensures s.ids == map[root := 1, n := 2] && s.registry == map[1 := root] && s.forgotten == {}
  {
    hide Reaches, Step, Run, NewIds, NewRegistry, NewOpenFiles, NewLocks;
    var s0 := StartsIdle(files, root, map[0 := Idle, 1 := Idle]);
    assert s0.threads[0 := Idle] == s0.threads;
    LooksUp(files, root, 0, s0, n);
    Wins(files, root, 0, s0, n);
    var s1 := Won(s0, n);
    s := s1.(threads := map[0 := EnsStore(n, ForLookup, 2)]);
    assert s1.threads[0 := EnsStore(n, ForLookup, 2)] == s.threads[1 := Idle];
  }

  /** For every node but the root: a run that answers a Lookup with a NodeID not stored yet, and not forgotten. */
  lemma LookupBeforeStore(files: nat -> seq<byte>, root: nat, n: nat) returns (states: seq<State>)
    requires n != root
    ensures Run(files, root, states)
    ensures var s := states[|states| - 1];
            && s.threads == map[0 := EnsStore(n, ForLookup, 2), 1 := Done(Entry(n, 2))]
            && 2 !in s.registry && 2 !in s.forgotten
  {
    hide Step, NewIds, NewRegistry, NewOpenFiles, NewLocks, Init, Next;
    var s := LookupStops(files, root, n);
    SecondLookup(files, root, 1, s, n);
    var last := At(Locked(s, n, Locks(s, n)), 1, Done(Entry(n, 2)));
    states :| Run(files, root, states) && states[|states| - 1] == last;
  }

  /* ---------- Lookup, Open, Read, Release, Read ---------- */

  /** One step of the only thread; what it leaves alone, and what it does to handles and caches. */
  lemma Goes(files: nat -> seq<byte>, root: nat, s: State, th': Thread, cached: seq<Cache.Range>) returns (s': State)
    requires Reaches(files, root, s) && 0 in s.threads
    requires var th := s.threads[0];
             && (if th.InRead? then ReadMoves(files, s, th, th', cached)
                 else RequestMoves(s, th, th') || ContextMoves(s, th, th'))
             && !(th.Holding? && th.job.Forgetting?)
    ensures Reaches(files, root, s') && 0 in s'.threads && s'.threads[0] == th' && s'.registry == s.registry
    ensures s'.lastFh == if s.threads[0].Holding? && s.threads[0].job.Opening? then s.lastFh + 1 else s.lastFh
    ensures s'.openFiles == NewOpenFiles(s, s.threads[0]) && s'.locks == NewLocks(s, s.threads[0])
    ensures s'.caches == if s.threads[0].InRead? then s.caches[s.threads[0].n := cached] else s.caches
  {
    MovedIsStep(files, s, 0, th', cached);
    s' := Moved(s, 0, th', cached);
    hide Step, Reaches, EnsureMoves, RequestMoves, ContextMoves, ReadMoves;
    ReachesOn(files, root, s, 0, s');
  }

  /** An Open of a registered NodeID by the idle thread answers with the next handle. */
  lemma Opens(files: nat -> seq<byte>, root: nat, s: State, id: nat) returns (s': State)
    requires Reaches(files, root, s) && 0 in s.threads && s.threads[0] == Idle && id in s.registry
    ensures Reaches(files, root, s') && 0 in s'.threads && s'.threads[0] == Done(Handle(s.lastFh + 1))
    ensures s'.registry == s.registry && s'.caches == s.caches && s'.openFiles == s.openFiles[s.lastFh + 1 := id]
  {
    hide Reaches, EnsureMoves, ReadMoves;
    var s1 := GetsContext(files, root, s, id, Opening);
    hide RequestMoves;
    var n := s.registry[id];
    var s2 := Goes(files, root, s1, Holding(id, n, Opening), []);
    s' := StoresHandle(files, root, s2, id, n);
  }

  lemma StoresHandle(files: nat -> seq<byte>, root: nat, s: State, id: nat, n: nat) returns (s': State)
    requires Reaches(files, root, s) && 0 in s.threads && s.threads[0] == Holding(id, n, Opening) && Locks(s, n) > 0
    ensures Reaches(files, root, s') && 0 in s'.threads && s'.threads[0] == Done(Handle(s.lastFh + 1))
    ensures s'.registry == s.registry && s'.caches == s.caches && s'.openFiles == s.openFiles[s.lastFh + 1 := id]
  {
    hide Reaches, EnsureMoves, ReadMoves, RequestMoves;
    var fh := s.lastFh + 1;
    var s1 := Goes(files, root, s, GotHandle(id, n, fh), []);
    var s2 := Goes(files, root, s1, Closing(n, Handle(fh)), []);
    s' := Goes(files, root, s2, Done(Handle(fh)), []);
  }

  /** GetNodeCtx finds the node and is about to lock it. */
  lemma GetsContext(files: nat -> seq<byte>, root: nat, s: State, id: nat, job: Job) returns (s': State)
    requires Reaches(files, root, s) && 0 in s.threads && id in s.registry
    requires RequestMoves(s, s.threads[0], CtxLoad(id, job)) && (s.threads[0].Idle? || s.threads[0].ReadLoad?)
    ensures Reaches(files, root, s') && 0 in s'.threads && s'.threads[0] == CtxLock(id, s.registry[id], job)
    ensures s'.registry == s.registry && s'.caches == s.caches && s'.openFiles == s.openFiles && s'.lastFh == s.lastFh
  {
    hide Reaches, EnsureMoves, ReadMoves, RequestMoves;
    var s1 := Goes(files, root, s, CtxLoad(id, job), []);
    s' := Goes(files, root, s1, CtxLock(id, s.registry[id], job), []);
  }

  /** A Read on an open handle gets as far as the inode's cache. */
  lemma ReachesRead(files: nat -> seq<byte>, root: nat, s: State, fh: nat, o: int, z: int) returns (s': State)
    requires Reaches(files, root, s) && 0 in s.threads && s.threads[0] == Idle
    requires 0 <= o && 0 <= z && o + z < Cache.LIMIT
    requires fh in s.openFiles && s.openFiles[fh] in s.registry
    ensures Reaches(files, root, s') && 0 in s'.threads
    ensures var id := s.openFiles[fh];
            s'.threads[0] == InRead(id, s.registry[id], fh, Cache.Reader(o, z, Cache.Start))
    ensures s'.registry == s.registry && s'.caches == s.caches && s'.openFiles == s.openFiles
    ensures Locks(s', s.registry[s.openFiles[fh]]) > 0
  {
    hide Reaches, EnsureMoves, ReadMoves;
    var id := s.openFiles[fh];
    var job := Reading(fh, o, z);
    var s1 := Goes(files, root, s, ReadLoad(fh, o, z), []);
    var s2 := GetsContext(files, root, s1, id, job);
    hide RequestMoves;
    s' := Goes(files, root, s2, InRead(id, s.registry[id], fh, Cache.Reader(o, z, Cache.Start)), []);
  }

  lemma ReadStep(files: nat -> seq<byte>, s: State, th: Thread, rd': Cache.Reader, act: Cache.Action,
          cached: seq<Cache.Range>)
    requires th.InRead? && !th.rd.phase.Returned? && !th.rd.phase.Failed?
    requires Cache.ReaderStep(files(th.n), Cached(s, th.n), th.rd, act, cached, rd')
    ensures ReadMoves(files, s, th, th.(rd := rd'), cached)
  {
  }

  /** On an empty cache, with an adapter that delivers all there is, the answer is the whole window. */
  lemma ReadsAll(files: nat -> seq<byte>, root: nat, s: State) returns (s': State)
    requires Reaches(files, root, s) && 0 in s.threads && s.threads[0].InRead? && s.threads[0].rd.phase.Start?
    requires Cache.Bounded(s.threads[0].rd) && s.threads[0].n !in s.caches && Locks(s, s.threads[0].n) > 0
    ensures Reaches(files, root, s') && 0 in s'.threads && s'.openFiles == s.openFiles && s'.registry == s.registry
    ensures var th := s.threads[0];
            var w := Cache.Window(files(th.n), th.rd.offset, th.rd.size);
            s'.threads[0] == Done(Bytes(th.fh, th.rd.offset, th.rd.size, w))
  {
    var th := s.threads[0];
    var content, rd := files(th.n), th.rd;
    var w := Cache.Window(content, rd.offset, rd.size);
    var rd1 := rd.(phase := Cache.Fetching(seq(rd.size, i => 0), 0));
    assert Cache.ReaderOk(content, rd1);
    var rd2, rd3 := Cache.WholeWindowIsReturned(content, [], rd1);
    hide Reaches, Cache.Window, EnsureMoves, Cache.Store, Cache.ReaderOk;
    ReadStep(files, s, th, rd1, Cache.TakeMiss, []);
    var s1 := Goes(files, root, s, th.(rd := rd1), []);
    hide ReadMoves;
    ReadStep(files, s1, s1.threads[0], rd2, Cache.AdapterWorks, []);
    var s2 := Goes(files, root, s1, th.(rd := rd2), []);
    ReadStep(files, s2, s2.threads[0], rd3, Cache.Keep, Cache.Store([], rd.offset, w));
    var s3 := Goes(files, root, s2, th.(rd := rd3), Cache.Store([], rd.offset, w));
    s' := Answered(files, root, s3);
  }

  lemma Answered(files: nat -> seq<byte>, root: nat, s: State) returns (s': State)
    requires Reaches(files, root, s) && 0 in s.threads && s.threads[0].InRead? && s.threads[0].rd.phase.Returned?
    requires Locks(s, s.threads[0].n) > 0
    ensures Reaches(files, root, s') && 0 in s'.threads && s'.openFiles == s.openFiles && s'.registry == s.registry
    ensures var th := s.threads[0];
            s'.threads[0] == Done(Bytes(th.fh, th.rd.offset, th.rd.size, th.rd.phase.data))
  {
    hide Reaches, EnsureMoves;
    var th := s.threads[0];
    var res := Bytes(th.fh, th.rd.offset, th.rd.size, th.rd.phase.data);
    var s1 := Goes(files, root, s, Closing(th.n, res), Cached(s, th.n));
    s' := Goes(files, root, s1, Done(res), []);
  }

  /** For every node but the root and every window: a run that ends with all of that window of the file. */
  lemma FileIsRead(files: nat -> seq<byte>, root: nat, n: nat, o: int, z: int) returns (s: State)
    requires n != root && 0 <= o && 0 <= z && o + z < Cache.LIMIT
    ensures Reaches(files, root, s) && 0 in s.threads && 2 in s.openFiles
    ensures s.threads[0] == Done(Bytes(2, o, z, Cache.Window(files(n), o, z)))
  {
    hide Reaches, Step, EnsureMoves, RequestMoves, ContextMoves, ReadMoves, Cache.Window;
    var s0 := FirstLookup(files, root, n);
    var s1 := At(s0, 0, Done(Entry(n, 2)));
    var s2 := Rests(files, root, s1);
    var s3 := Opens(files, root, s2, 2);
    var s4 := Rests(files, root, s3);
    var s5 := ReachesRead(files, root, s4, 2, o, z);
    s := ReadsAll(files, root, s5);
  }

  lemma Rests(files: nat -> seq<byte>, root: nat, s: State) returns (s': State)
    requires Reaches(files, root, s) && 0 in s.threads && s.threads[0].Done?
    ensures Reaches(files, root, s') && 0 in s'.threads && s'.threads[0] == Idle
    ensures s'.registry == s.registry && s'.openFiles == s.openFiles && s'.caches == s.caches && s'.lastFh == s.lastFh
  {
    hide Reaches;
    s' := Goes(files, root, s, Idle, []);
  }

  /** After that the handle is released, and a Read on it ends in EBADF. */
  lemma ReleasedIsClosed(files: nat -> seq<byte>, root: nat, n: nat, o: int, z: int) returns (s: State)
    requires n != root && 0 <= o && 0 <= z && o + z < Cache.LIMIT
    ensures Reaches(files, root, s) && 0 in s.threads && s.threads[0] == Done(EBADF)
  {
    hide Reaches, Step, EnsureMoves, RequestMoves, ReadMoves, Cache.Window;
    var s0 := FileIsRead(files, root, n, o, z);
    var s1 := Rests(files, root, s0);
    var s2 := ReleasesIt(files, root, s1, 2);
    var s3 := Rests(files, root, s2);
    s := ReadIsRefused(files, root, s3, 2, o, z);
  }

  lemma ReleasesIt(files: nat -> seq<byte>, root: nat, s: State, fh: nat) returns (s': State)
    requires Reaches(files, root, s) && 0 in s.threads && s.threads[0] == Idle
    ensures Reaches(files, root, s') && 0 in s'.threads && s'.threads[0] == Done(NoReply) && fh !in s'.openFiles
  {
    hide Reaches, EnsureMoves, ReadMoves, ContextMoves;
    var s1 := Goes(files, root, s, Releasing(fh), []);
    s' := Goes(files, root, s1, Done(NoReply), []);
  }

  lemma ReadIsRefused(files: nat -> seq<byte>, root: nat, s: State, fh: nat, o: int, z: int) returns (s': State)
    requires Reaches(files, root, s) && 0 in s.threads && s.threads[0] == Idle && fh !in s.openFiles
    requires 0 <= o && 0 <= z && o + z < Cache.LIMIT
    ensures Reaches(files, root, s') && 0 in s'.threads && s'.threads[0] == Done(EBADF)
  {
    hide Reaches, EnsureMoves, ReadMoves, ContextMoves;
    var s1 := Goes(files, root, s, ReadLoad(fh, o, z), []);
    s' := Goes(files, root, s1, Done(EBADF), []);
  }
}
