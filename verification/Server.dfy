/**
 The FUSE server on top of the node registry: any number of requests in flight, interleaved at
 the granularity of single map operations, atomic operations, lock operations and adapter calls.

 Requests: Lookup, Forget, Open, Read, Release, and `Scanning`, which stands for the handlers
 that hold a directory's context while they work (OpenDir, ReadDir, GetAttr, and ReadDirPlus,
 which ensures a NodeID for each entry).  Which child a name or an entry denotes is left open.
 */
module Server {
  import opened Common
  import Cache

  /** What a caller of GetNodeCtx wants the node for. */
  datatype Job = Forgetting | Opening | Reading(fh: nat, offset: int, size: int) | Scanning

  /** Who called EnsureNodeID; a scan holds its directory meanwhile. */
  datatype Goal = ForLookup | ForScan(id: nat, dir: nat)

  datatype Result = NoReply | ENOENT | EBADF | EIO
                  | Handle(fh: nat)
                  | Entry(node: nat, id: nat)
                  | Bytes(fh: nat, offset: int, size: int, data: seq<byte>)

  datatype Thread =
    | Idle
    | Looking(parent: nat)                              // Lookup: about to load the parent
    | EnsLoad(n: nat, goal: Goal)                       // EnsureNodeID: fast path load
    | EnsAdd(n: nat, goal: Goal)                        //   draw a new number
    | EnsCas(n: nat, goal: Goal, id: nat)               //   compare-and-swap it in
    | EnsStore(n: nat, goal: Goal, id: nat)             //   won: publish it
    | EnsReload(n: nat, goal: Goal)                     //   lost: load the winner's number
    | EnsDone(n: nat, goal: Goal, id: nat)              //   returns `id`
    | LookedUp(n: nat)                                  // Lookup: about to lock the child
    | Answering(n: nat)                                 //   holds it, about to load its NodeID
    | CtxLoad(id: nat, job: Job)                        // GetNodeCtx: about to load the node
    | CtxLock(id: nat, n: nat, job: Job)                //   about to read-lock it
    | Holding(id: nat, n: nat, job: Job)                // the context is open
    | GotHandle(id: nat, n: nat, fh: nat)               // Open: about to store the handle
    | InRead(id: nat, n: nat, fh: nat, rd: Cache.Reader)  // inside Inode.Read
    | Closing(n: nat, res: Result)                      // about to close the context
    | ReadLoad(fh: nat, offset: int, size: int)         // Read: about to load the handle
    | Releasing(fh: nat)
    | Done(res: Result)

  /**
   The last three fields are history: the node whose context was open when a handle was stored, the
   NodeIDs that Forget has deleted, and the handles that Release was called with.
   */
  datatype State = State(
    ids: map<nat, nat>,                       // node -> NodeID; absent means 0
    lastId: nat,
    registry: map<nat, nat>,                  // NodeID -> node
    openFiles: map<nat, nat>,                 // handle -> NodeID
    lastFh: nat,
    caches: map<nat, seq<Cache.Range>>,       // node -> cached ranges; absent means none
    locks: map<nat, nat>,                     // node -> read locks; absent means 0
    threads: map<nat, Thread>,
    openedOn: map<nat, nat>,
    forgotten: set<nat>,
    released: set<nat>)

  function Cached(s: State, n: nat): seq<Cache.Range> {
    if n in s.caches then s.caches[n] else []
  }

  function Locks(s: State, n: nat): nat {
    if n in s.locks then s.locks[n] else 0
  }

  /** The first step of a request, whatever its arguments. */
  predicate Starting(th: Thread) {
    || th.Looking? || th.Releasing?
    || (th.CtxLoad? && !th.job.Reading?)
    || (th.ReadLoad? && 0 <= th.offset && 0 <= th.size && th.offset + th.size < Cache.LIMIT)
  }

  function NotFound(job: Job): Result {
    match job
    case Forgetting => NoReply
    case Reading(_, _, _) => EIO
    case _ => ENOENT
  }

  /* ---------- Control flow: where a thread goes next ---------- */

  /** EnsureNodeID. */
  predicate EnsureMoves(s: State, th: Thread, th': Thread) {
    match th
    case EnsLoad(n, g) => th' == if n in s.ids then EnsDone(n, g, s.ids[n]) else EnsAdd(n, g)
    case EnsAdd(n, g) => th' == EnsCas(n, g, s.lastId + 1)
    case EnsCas(n, g, id) => th' == if n in s.ids then EnsReload(n, g) else EnsStore(n, g, id)
    case EnsStore(n, g, id) => th' == EnsDone(n, g, id)
    case EnsReload(n, g) => n in s.ids && th' == EnsDone(n, g, s.ids[n])
    case EnsDone(n, g, id) => th' == if g.ForLookup? then LookedUp(n) else Holding(g.id, g.dir, Scanning)
    case _ => false
  }

  /** The start and end of requests, Lookup, and loads from the handle table. */
  predicate RequestMoves(s: State, th: Thread, th': Thread) {
    match th
    case Idle => Starting(th')
    case Done(_) => th' == Idle
    case Looking(p) => th' == Done(ENOENT) || (p in s.registry && th'.EnsLoad? && th'.goal == ForLookup)
    case LookedUp(n) => th' == Answering(n)
    case Answering(n) => n in s.ids && th' == Closing(n, Entry(n, s.ids[n]))
    case ReadLoad(fh, o, z) =>
      th' == if fh in s.openFiles then CtxLoad(s.openFiles[fh], Reading(fh, o, z)) else Done(EBADF)
    case Releasing(fh) => th' == Done(NoReply)
    case _ => false
  }

  /** GetNodeCtx and what is done while its context is open. */
  predicate ContextMoves(s: State, th: Thread, th': Thread) {
    match th
    case CtxLoad(id, job) =>
      th' == if id in s.registry then CtxLock(id, s.registry[id], job) else Done(NotFound(job))
    case CtxLock(id, n, job) =>
      th' == if job.Reading? then InRead(id, n, job.fh, Cache.Reader(job.offset, job.size, Cache.Start))
             else Holding(id, n, job)
    case Holding(id, n, job) =>
      if job.Opening? then th' == GotHandle(id, n, s.lastFh + 1)
      else th' == Closing(n, NoReply) || (job.Scanning? && th'.EnsLoad? && th'.goal == ForScan(id, n))
    case GotHandle(id, n, fh) => th' == Closing(n, Handle(fh))
    case Closing(n, res) => Locks(s, n) > 0 && th' == Done(res)
    case _ => false
  }

  /** Inside Inode.Read: a step of the reader on the node's cache, or the way out. */
  ghost predicate ReadMoves(files: nat -> seq<byte>, s: State, th: Thread, th': Thread, cached: seq<Cache.Range>)
    requires th.InRead?
  {
    var rd := th.rd;
    if rd.phase.Returned? then
      th' == Closing(th.n, Bytes(th.fh, rd.offset, rd.size, rd.phase.data)) && cached == Cached(s, th.n)
    else if rd.phase.Failed? then
      th' == Closing(th.n, EIO) && cached == Cached(s, th.n)
    else
      && th'.InRead? && th' == th.(rd := th'.rd)
      && exists act :: Cache.ReaderStep(files(th.n), Cached(s, th.n), rd, act, cached, th'.rd)
  }

  /* ---------- Data: what the step does to the shared tables ---------- */

  function NewIds(s: State, th: Thread): map<nat, nat> {
    if th.EnsCas? && th.n !in s.ids then s.ids[th.n := th.id] else s.ids
  }

  function NewRegistry(s: State, th: Thread): map<nat, nat> {
    if th.EnsStore? then s.registry[th.id := th.n]
    else if th.Holding? && th.job.Forgetting? then s.registry - {th.id}
    else s.registry
  }

  function NewOpenFiles(s: State, th: Thread): map<nat, nat> {
    if th.GotHandle? then s.openFiles[th.fh := th.id]
    else if th.Releasing? then s.openFiles - {th.fh}
    else s.openFiles
  }

  function NewLocks(s: State, th: Thread): map<nat, nat> {
    if th.LookedUp? || th.CtxLock? then s.locks[th.n := Locks(s, th.n) + 1]
    else if th.Closing? && Locks(s, th.n) > 0 then s.locks[th.n := Locks(s, th.n) - 1]
    else s.locks
  }

  /** One step of thread `i`. */
  ghost predicate Step(files: nat -> seq<byte>, s: State, i: nat, s': State) {
    && i in s.threads && i in s'.threads
    && var th, th' := s.threads[i], s'.threads[i];
    && (|| EnsureMoves(s, th, th') || RequestMoves(s, th, th') || ContextMoves(s, th, th')
        || (th.InRead? && ReadMoves(files, s, th, th', Cached(s', th.n))))
    && s'.ids == NewIds(s, th)
    && s'.lastId == (if th.EnsAdd? then s.lastId + 1 else s.lastId)
    && s'.registry == NewRegistry(s, th)
    && s'.openFiles == NewOpenFiles(s, th)
    && s'.lastFh == (if th.Holding? && th.job.Opening? then s.lastFh + 1 else s.lastFh)
    && s'.caches == (if th.InRead? then s.caches[th.n := Cached(s', th.n)] else s.caches)
    && s'.locks == NewLocks(s, th)
    && s'.threads == s.threads[i := th']
    && s'.openedOn == (if th.GotHandle? then s.openedOn[th.fh := th.n] else s.openedOn)
    && s'.forgotten == (if th.Holding? && th.job.Forgetting? then s.forgotten + {th.id} else s.forgotten)
    && s'.released == (if th.Releasing? then s.released + {th.fh} else s.released)
  }

  function Cleared(s: State, n: nat): State {
    s.(caches := s.caches[n := []])
  }

  /** A thread moves, or some node's cache is cleared. */
  ghost predicate Next(files: nat -> seq<byte>, s: State, s': State) {
    || (exists i :: Step(files, s, i, s'))
    || (exists n: nat :: s' == Cleared(s, n))
  }

  ghost predicate Init(s: State, root: nat) {
    && s.ids == map[root := 1] && s.lastId == 1 && s.registry == map[1 := root]
    && s.openFiles == map[] && s.lastFh == 1 && s.caches == map[] && s.locks == map[]
    && s.openedOn == map[] && s.forgotten == {} && s.released == {}
    && forall i :: i in s.threads ==> s.threads[i].Idle?
  }

  /* ---------- The invariant ---------- */

  /** Node `n` has the NodeID `id`. */
  predicate Has(s: State, n: nat, id: nat) {
    n in s.ids && s.ids[n] == id
  }

  ghost predicate IdsOk(s: State) {
    && (forall n :: n in s.ids ==> 1 <= s.ids[n] <= s.lastId)
    && (forall n, m :: n in s.ids && m in s.ids && s.ids[n] == s.ids[m] ==> n == m)
  }

  ghost predicate RegistryOk(s: State) {
    forall id :: id in s.registry ==> Has(s, s.registry[id], id)
  }

  /** The handle was opened on a node that has this NodeID. */
  predicate HandleFor(s: State, fh: nat, id: nat) {
    fh in s.openedOn && Has(s, s.openedOn[fh], id)
  }

  ghost predicate HandlesOk(s: State) {
    && (forall fh :: fh in s.openFiles ==> HandleFor(s, fh, s.openFiles[fh]))
    && (forall fh :: fh in s.openedOn ==> fh <= s.lastFh)
  }

  ghost predicate CachesOk(files: nat -> seq<byte>, s: State) {
    forall n :: n in s.caches ==> Cache.Backed(s.caches[n], files(n))
  }

  /** A number drawn for a node but not published yet. */
  predicate Draws(th: Thread, id: nat) {
    (th.EnsCas? || th.EnsStore?) && th.id == id
  }

  /** A handle number drawn but not stored yet. */
  predicate Numbers(th: Thread, fh: nat) {
    th.GotHandle? && th.fh == fh
  }

  predicate GoalOk(s: State, g: Goal) {
    g.ForScan? ==> Has(s, g.dir, g.id)
  }

  predicate JobOk(s: State, job: Job, id: nat) {
    job.Reading? ==>
      && 0 <= job.offset && 0 <= job.size && job.offset + job.size < Cache.LIMIT
      && HandleFor(s, job.fh, id)
  }

  predicate ResultOk(files: nat -> seq<byte>, s: State, res: Result) {
    match res
    case Handle(fh) => fh in s.openedOn
    case Entry(n, id) => Has(s, n, id)
    case Bytes(fh, o, z, data) =>
      0 <= o && 0 <= z && fh in s.openedOn && data <= Cache.Window(files(s.openedOn[fh]), o, z)
    case _ => true
  }

  ghost predicate ThreadOk(files: nat -> seq<byte>, s: State, th: Thread) {
    match th
    case Idle => true
    case Looking(_) => true
    case EnsLoad(n, g) => GoalOk(s, g)
    case EnsAdd(n, g) => GoalOk(s, g)
    case EnsCas(n, g, id) => GoalOk(s, g) && 1 <= id <= s.lastId && forall m :: m in s.ids ==> s.ids[m] != id
    case EnsStore(n, g, id) => GoalOk(s, g) && Has(s, n, id) && id !in s.registry
    case EnsReload(n, g) => GoalOk(s, g) && n in s.ids
    case EnsDone(n, g, id) => GoalOk(s, g) && Has(s, n, id)
    case LookedUp(n) => n in s.ids
    case Answering(n) => n in s.ids
    case CtxLoad(id, job) => JobOk(s, job, id)
    case CtxLock(id, n, job) => Has(s, n, id) && JobOk(s, job, id)
    case Holding(id, n, job) => Has(s, n, id)
    case GotHandle(id, n, fh) => Has(s, n, id) && fh <= s.lastFh && fh !in s.openedOn
    case InRead(id, n, fh, rd) =>
      Has(s, n, id) && fh in s.openedOn && s.openedOn[fh] == n && Cache.ReaderOk(files(n), rd)
    case Closing(n, res) => ResultOk(files, s, res)
    case ReadLoad(fh, o, z) => 0 <= o && 0 <= z && o + z < Cache.LIMIT
    case Releasing(_) => true
    case Done(res) => ResultOk(files, s, res)
  }

  ghost predicate ThreadsOk(files: nat -> seq<byte>, s: State) {
    forall i :: i in s.threads ==> ThreadOk(files, s, s.threads[i])
  }

  /** No two threads work on the same drawn number or the same new handle. */
  ghost predicate Apart(s: State) {
    && (forall i, j, id ::
          i in s.threads && j in s.threads && Draws(s.threads[i], id) && Draws(s.threads[j], id) ==> i == j)
    && (forall i, j, fh ::
          i in s.threads && j in s.threads && Numbers(s.threads[i], fh) && Numbers(s.threads[j], fh) ==> i == j)
  }

  /** The node whose context a thread has open. */
  function HeldBy(th: Thread): Option<nat> {
    match th
    case Answering(n) => Some(n)
    case Holding(_, n, _) => Some(n)
    case GotHandle(_, n, _) => Some(n)
    case InRead(_, n, _, _) => Some(n)
    case Closing(n, _) => Some(n)
    case EnsLoad(_, g) => HeldFor(g)
    case EnsAdd(_, g) => HeldFor(g)
    case EnsCas(_, g, _) => HeldFor(g)
    case EnsStore(_, g, _) => HeldFor(g)
    case EnsReload(_, g) => HeldFor(g)
    case EnsDone(_, g, _) => HeldFor(g)
    case _ => None
  }

  function HeldFor(g: Goal): Option<nat> {
    match g
    case ForLookup => None
    case ForScan(_, dir) => Some(dir)
  }

  function Holders(threads: map<nat, Thread>, n: nat): set<nat> {
    set i | i in threads && HeldBy(threads[i]) == Some(n)
  }

  /** Each node's read-lock count is the number of contexts open on it. */
  ghost predicate LocksOk(s: State) {
    forall n: nat :: Locks(s, n) == |Holders(s.threads, n)|
  }

  ghost predicate Inv(files: nat -> seq<byte>, s: State) {
    && IdsOk(s) && RegistryOk(s) && HandlesOk(s) && CachesOk(files, s)
    && ThreadsOk(files, s) && Apart(s) && LocksOk(s)
  }

  lemma InitInv(files: nat -> seq<byte>, s: State, root: nat)
    requires Init(s, root)
    ensures Inv(files, s)
  {
    forall n: nat ensures Locks(s, n) == |Holders(s.threads, n)| {
      assert Holders(s.threads, n) == {};
    }
  }

  /* ---------- Every step keeps it ---------- */

  lemma IdsStep(files: nat -> seq<byte>, s: State, i: nat, s': State)
    requires Step(files, s, i, s') && IdsOk(s) && ThreadOk(files, s, s.threads[i])
    ensures IdsOk(s') && s.lastId <= s'.lastId
    ensures forall n :: n in s.ids ==> Has(s', n, s.ids[n])
  {
    hide EnsureMoves, RequestMoves, ContextMoves, ReadMoves;
  }

  lemma RegistryStep(files: nat -> seq<byte>, s: State, i: nat, s': State)
    requires Step(files, s, i, s') && RegistryOk(s) && ThreadOk(files, s, s.threads[i])
    ensures RegistryOk(s')
  {
    hide EnsureMoves, RequestMoves, ContextMoves, ReadMoves;
  }

  lemma HandlesStep(files: nat -> seq<byte>, s: State, i: nat, s': State)
    requires Step(files, s, i, s') && HandlesOk(s) && ThreadOk(files, s, s.threads[i])
    ensures HandlesOk(s') && s.lastFh <= s'.lastFh
    ensures forall fh :: fh in s.openedOn ==> fh in s'.openedOn && s'.openedOn[fh] == s.openedOn[fh]
  {
    hide EnsureMoves, RequestMoves, ContextMoves, ReadMoves;
  }

  /** A thread inside Inode.Read moves as a reader of its node's cache. */
  lemma InReadStep(files: nat -> seq<byte>, s: State, i: nat, s': State)
    requires Step(files, s, i, s') && CachesOk(files, s) && ThreadOk(files, s, s.threads[i])
    requires s.threads[i].InRead?
    ensures ReadMoves(files, s, s.threads[i], s'.threads[i], Cached(s', s.threads[i].n))
    ensures Cache.Backed(Cached(s', s.threads[i].n), files(s.threads[i].n))
    ensures s'.threads[i].InRead? ==> Cache.ReaderOk(files(s.threads[i].n), s'.threads[i].rd)
  {
    var th := s.threads[i];
    if !th.rd.phase.Returned? && !th.rd.phase.Failed? {
      var act :| Cache.ReaderStep(files(th.n), Cached(s, th.n), th.rd, act, Cached(s', th.n), s'.threads[i].rd);
      Cache.ReaderStepKeeps(files(th.n), Cached(s, th.n), th.rd, act, Cached(s', th.n), s'.threads[i].rd);
    }
  }

  lemma CachesStep(files: nat -> seq<byte>, s: State, i: nat, s': State)
    requires Step(files, s, i, s') && CachesOk(files, s) && ThreadOk(files, s, s.threads[i])
    ensures CachesOk(files, s')
  {
    if s.threads[i].InRead? {
      InReadStep(files, s, i, s');
    }
    hide EnsureMoves, RequestMoves, ContextMoves, ReadMoves;
  }

  /** The tables only grow in the respects that a thread relies on. */
  ghost predicate Grown(s: State, s': State) {
    && s.lastId <= s'.lastId && s.lastFh <= s'.lastFh
    && (forall n :: n in s.ids ==> Has(s', n, s.ids[n]))
    && (forall fh :: fh in s.openedOn ==> fh in s'.openedOn && s'.openedOn[fh] == s.openedOn[fh])
  }

  /** A thread in order stays so while others move, unless its drawn numbers are touched. */
  lemma GrownKeepsThread(files: nat -> seq<byte>, s: State, s': State, th: Thread)
    requires Grown(s, s') && ThreadOk(files, s, th)
    requires th.EnsCas? ==> forall m :: m in s'.ids && m !in s.ids ==> s'.ids[m] != th.id
    requires th.EnsStore? ==> th.id !in s'.registry
    requires th.GotHandle? ==> th.fh !in s'.openedOn
    ensures ThreadOk(files, s', th)
  {
  }

  lemma OtherThreadStep(files: nat -> seq<byte>, s: State, i: nat, s': State, j: nat)
    requires Step(files, s, i, s') && IdsOk(s) && HandlesOk(s) && Apart(s) && ThreadOk(files, s, s.threads[i])
    requires j in s.threads && j != i && ThreadOk(files, s, s.threads[j])
    ensures ThreadOk(files, s', s'.threads[j])
  {
    IdsStep(files, s, i, s');
    HandlesStep(files, s, i, s');
    var ti, tj := s.threads[i], s.threads[j];
    if tj.EnsCas? || tj.EnsStore? {
      assert Draws(tj, tj.id) && !Draws(ti, tj.id);
    }
    if tj.GotHandle? {
      assert Numbers(tj, tj.fh) && !Numbers(ti, tj.fh);
    }
    hide EnsureMoves, RequestMoves, ContextMoves, ReadMoves, Apart;
    GrownKeepsThread(files, s, s', tj);
  }

  lemma EnsureOwnStep(files: nat -> seq<byte>, s: State, i: nat, s': State)
    requires Step(files, s, i, s') && IdsOk(s) && RegistryOk(s) && ThreadOk(files, s, s.threads[i])
    requires EnsureMoves(s, s.threads[i], s'.threads[i])
    ensures ThreadOk(files, s', s'.threads[i])
  {
    hide RequestMoves, ContextMoves, ReadMoves;
  }

  lemma RequestOwnStep(files: nat -> seq<byte>, s: State, i: nat, s': State)
    requires Step(files, s, i, s') && HandlesOk(s) && ThreadOk(files, s, s.threads[i])
    requires RequestMoves(s, s.threads[i], s'.threads[i])
    ensures ThreadOk(files, s', s'.threads[i])
  {
    hide EnsureMoves, ContextMoves, ReadMoves;
  }

  lemma ContextOwnStep(files: nat -> seq<byte>, s: State, i: nat, s': State)
    requires Step(files, s, i, s') && IdsOk(s) && RegistryOk(s) && HandlesOk(s) && ThreadOk(files, s, s.threads[i])
    requires ContextMoves(s, s.threads[i], s'.threads[i])
    ensures ThreadOk(files, s', s'.threads[i])
  {
    hide EnsureMoves, RequestMoves, ReadMoves;
  }

  lemma ReadOwnStep(files: nat -> seq<byte>, s: State, i: nat, s': State)
    requires Step(files, s, i, s') && CachesOk(files, s) && ThreadOk(files, s, s.threads[i])
    requires s.threads[i].InRead?
    ensures ThreadOk(files, s', s'.threads[i])
  {
    InReadStep(files, s, i, s');
    hide EnsureMoves, RequestMoves, ContextMoves;
  }

  lemma ThreadsStep(files: nat -> seq<byte>, s: State, i: nat, s': State)
    requires Step(files, s, i, s') && Inv(files, s)
    ensures ThreadsOk(files, s')
  {
    assert ThreadOk(files, s, s.threads[i]);
    hide EnsureMoves, RequestMoves, ContextMoves, ReadMoves;
    hide ThreadOk, IdsOk, RegistryOk, HandlesOk, CachesOk, LocksOk, Apart;
    if EnsureMoves(s, s.threads[i], s'.threads[i]) {
      EnsureOwnStep(files, s, i, s');
    } else if RequestMoves(s, s.threads[i], s'.threads[i]) {
      RequestOwnStep(files, s, i, s');
    } else if ContextMoves(s, s.threads[i], s'.threads[i]) {
      ContextOwnStep(files, s, i, s');
    } else {
      ReadOwnStep(files, s, i, s');
    }
    forall j | j in s'.threads ensures ThreadOk(files, s', s'.threads[j]) {
      if j != i {
        OtherThreadStep(files, s, i, s', j);
      }
    }
  }

  /** A number in hand has been handed out, and a move draws nothing but the next number. */
  lemma DrawnStep(files: nat -> seq<byte>, s: State, i: nat, s': State, id: nat)
    requires Step(files, s, i, s') && Draws(s'.threads[i], id)
    ensures Draws(s.threads[i], id) || id == s.lastId + 1
  {
  }

  lemma NumberedStep(files: nat -> seq<byte>, s: State, i: nat, s': State, fh: nat)
    requires Step(files, s, i, s') && Numbers(s'.threads[i], fh)
    ensures fh == s.lastFh + 1
  {
  }

  lemma DrawnIsOld(files: nat -> seq<byte>, s: State, th: Thread, id: nat)
    requires IdsOk(s) && ThreadOk(files, s, th)
    ensures Draws(th, id) ==> id <= s.lastId
    ensures Numbers(th, id) ==> id <= s.lastFh
  {
  }

  lemma ApartStep(files: nat -> seq<byte>, s: State, i: nat, s': State)
    requires Step(files, s, i, s') && IdsOk(s) && ThreadsOk(files, s) && Apart(s)
    ensures Apart(s')
  {
    hide EnsureMoves, RequestMoves, ContextMoves, ReadMoves, ThreadOk;
    forall j, k, id | j in s'.threads && k in s'.threads && Draws(s'.threads[j], id) && Draws(s'.threads[k], id)
      ensures j == k
    {
      if j != k {
        DrawnIsOld(files, s, s.threads[j], id);
        DrawnIsOld(files, s, s.threads[k], id);
        if j == i || k == i {
          DrawnStep(files, s, i, s', id);
        }
      }
    }
    forall j, k, fh | j in s'.threads && k in s'.threads && Numbers(s'.threads[j], fh) && Numbers(s'.threads[k], fh)
      ensures j == k
    {
      if j != k {
        DrawnIsOld(files, s, s.threads[j], fh);
        DrawnIsOld(files, s, s.threads[k], fh);
        if j == i || k == i {
          NumberedStep(files, s, i, s', fh);
        }
      }
    }
  }

  /** Where a thread gains or loses a context: at the two lock steps and at the close. */
  predicate HeldRule(s: State, th: Thread, th': Thread) {
    && (th.LookedUp? || th.CtxLock? ==> HeldBy(th).None? && HeldBy(th') == Some(th.n))
    && (th.Closing? ==> HeldBy(th) == Some(th.n) && HeldBy(th').None? && Locks(s, th.n) > 0)
    && (!th.LookedUp? && !th.CtxLock? && !th.Closing? ==> HeldBy(th') == HeldBy(th))
  }

  lemma EnsureHeld(s: State, th: Thread, th': Thread)
    requires EnsureMoves(s, th, th')
    ensures HeldRule(s, th, th')
  {
  }

  lemma RequestHeld(s: State, th: Thread, th': Thread)
    requires RequestMoves(s, th, th')
    ensures HeldRule(s, th, th')
  {
  }

  lemma ContextHeld(s: State, th: Thread, th': Thread)
    requires ContextMoves(s, th, th')
    ensures HeldRule(s, th, th')
  {
  }

  lemma ReadHeld(files: nat -> seq<byte>, s: State, th: Thread, th': Thread, cached: seq<Cache.Range>)
    requires th.InRead? && ReadMoves(files, s, th, th', cached)
    ensures HeldRule(s, th, th')
  {
  }

  lemma HeldStep(files: nat -> seq<byte>, s: State, i: nat, s': State)
    requires Step(files, s, i, s')
    ensures HeldRule(s, s.threads[i], s'.threads[i])
  {
    hide EnsureMoves, RequestMoves, ContextMoves, ReadMoves, HeldRule, HeldBy;
    var th, th' := s.threads[i], s'.threads[i];
    if EnsureMoves(s, th, th') {
      EnsureHeld(s, th, th');
    } else if RequestMoves(s, th, th') {
      RequestHeld(s, th, th');
    } else if ContextMoves(s, th, th') {
      ContextHeld(s, th, th');
    } else {
      ReadHeld(files, s, th, th', Cached(s', th.n));
    }
  }

  /** Opening a context takes one read lock, closing it gives it back, nothing else touches locks. */
  lemma LockEffect(files: nat -> seq<byte>, s: State, i: nat, s': State)
    requires Step(files, s, i, s')
    ensures var h, h' := HeldBy(s.threads[i]), HeldBy(s'.threads[i]);
            forall n: nat :: Locks(s', n) - Locks(s, n) ==
                             (if h' == Some(n) then 1 else 0) - (if h == Some(n) then 1 else 0)
  {
    HeldStep(files, s, i, s');
    hide EnsureMoves, RequestMoves, ContextMoves, ReadMoves, HeldBy;
  }

  lemma HoldersUpdate(threads: map<nat, Thread>, i: nat, th: Thread, n: nat)
    requires i in threads
    ensures |Holders(threads[i := th], n)| - |Holders(threads, n)| ==
            (if HeldBy(th) == Some(n) then 1 else 0) - (if HeldBy(threads[i]) == Some(n) then 1 else 0)
  {
    var rest := Holders(threads, n) - {i};
    WithOrWithout(Holders(threads, n), i, rest);
    assert forall j :: j in Holders(threads[i := th], n) - {i} <==> j in rest;
    WithOrWithout(Holders(threads[i := th], n), i, rest);
  }

  lemma WithOrWithout(all: set<nat>, i: nat, rest: set<nat>)
    requires all - {i} == rest
    ensures |all| == |rest| + if i in all then 1 else 0
  {
    if i in all {
      assert all == rest + {i};
    } else {
      assert all == rest;
    }
  }

  lemma LocksStep(files: nat -> seq<byte>, s: State, i: nat, s': State)
    requires Step(files, s, i, s') && LocksOk(s)
    ensures LocksOk(s')
  {
    LockEffect(files, s, i, s');
    forall n: nat ensures Locks(s', n) == |Holders(s'.threads, n)| {
      HoldersUpdate(s.threads, i, s'.threads[i], n);
      assert Locks(s, n) == |Holders(s.threads, n)|;
    }
  }

  /** Every step of every request keeps the invariant, and so does clearing a cache. */
  lemma NextInv(files: nat -> seq<byte>, s: State, s': State)
    requires Inv(files, s) && Next(files, s, s')
    ensures Inv(files, s')
    ensures Grown(s, s')
  {
    if i :| Step(files, s, i, s') {
      StepInv(files, s, i, s');
    } else {
      var n: nat :| s' == Cleared(s, n);
      hide ThreadsOk, ThreadOk, Apart, RegistryOk;
      ClearInv(files, s, n);
    }
  }

  lemma ClearKeepsThread(files: nat -> seq<byte>, s: State, n: nat, th: Thread)
    requires ThreadOk(files, s, th)
    ensures ThreadOk(files, Cleared(s, n), th)
  {
    GrownKeepsThread(files, s, Cleared(s, n), th);
  }

  lemma ClearInv(files: nat -> seq<byte>, s: State, n: nat)
    requires Inv(files, s)
    ensures Inv(files, Cleared(s, n))
  {
    var s' := Cleared(s, n);
    hide ThreadOk, HeldBy;
    forall i | i in s'.threads ensures ThreadOk(files, s', s'.threads[i]) {
      assert ThreadOk(files, s, s.threads[i]);
      ClearKeepsThread(files, s, n, s.threads[i]);
    }
    forall m: nat ensures Locks(s', m) == |Holders(s'.threads, m)| {
      assert Locks(s, m) == |Holders(s.threads, m)|;
    }
  }

  lemma StepInv(files: nat -> seq<byte>, s: State, i: nat, s': State)
    requires Inv(files, s) && Step(files, s, i, s')
    ensures Inv(files, s') && Grown(s, s')
  {
    assert ThreadOk(files, s, s.threads[i]);
    hide Step, ThreadOk, IdsOk, RegistryOk, HandlesOk, CachesOk, Apart, LocksOk, ThreadsOk;
    IdsStep(files, s, i, s');
    RegistryStep(files, s, i, s');
    HandlesStep(files, s, i, s');
    CachesStep(files, s, i, s');
    ThreadsStep(files, s, i, s');
    ApartStep(files, s, i, s');
    LocksStep(files, s, i, s');
  }

  /* ---------- Whole runs ---------- */

  ghost predicate Run(files: nat -> seq<byte>, root: nat, states: seq<State>) {
    && states != [] && Init(states[0], root)
    && forall k :: 0 <= k < |states| - 1 ==> Next(files, states[k], states[k + 1])
  }

  lemma {:induction false} RunInv(files: nat -> seq<byte>, root: nat, states: seq<State>, k: nat)
    requires Run(files, root, states) && k < |states|
    ensures Inv(files, states[k])
  {
    if k == 0 {
      InitInv(files, states[0], root);
    } else {
      RunInv(files, root, states, k - 1);
      assert Next(files, states[k - 1], states[k - 1 + 1]);
      NextInv(files, states[k - 1], states[k]);
    }
  }

  lemma GrownTransitive(s: State, s': State, s'': State)
    requires Grown(s, s') && Grown(s', s'')
    ensures Grown(s, s'')
  {
  }

  lemma GrownReflexive(s: State)
    ensures Grown(s, s)
  {
  }

  /** NodeIDs and the nodes of handles never change once set, whatever happens in between. */
  lemma {:induction false} RunGrown(files: nat -> seq<byte>, root: nat, states: seq<State>, j: nat, k: nat)
    requires Run(files, root, states) && j <= k < |states|
    ensures Grown(states[j], states[k])
    decreases k
  {
    hide Inv, Next, Grown, Init;
    if j == k {
      GrownReflexive(states[j]);
    } else {
      RunGrown(files, root, states, j, k - 1);
      RunInv(files, root, states, k - 1);
      assert Next(files, states[k - 1], states[k - 1 + 1]);
      NextInv(files, states[k - 1], states[k]);
      GrownTransitive(states[j], states[k - 1], states[k]);
    }
  }

  /** The thread gives out `id` as the NodeID of `n`. */
  predicate GivesOut(th: Thread, n: nat, id: nat) {
    || (th.EnsDone? && th.n == n && th.id == id)
    || ((th.Closing? || th.Done?) && th.res == Entry(n, id))
  }

  lemma GivenOutIsHad(files: nat -> seq<byte>, s: State, i: nat, n: nat, id: nat)
    requires Inv(files, s) && i in s.threads && GivesOut(s.threads[i], n, id)
    ensures Has(s, n, id)
  {
    assert ThreadOk(files, s, s.threads[i]);
  }

  /**
   At any two moments of a run, two NodeIDs given out are the same exactly when they are for the
   same node: callers that race agree, and no two nodes ever share a number.
   */
  lemma NodeIdsAgree(files: nat -> seq<byte>, root: nat, states: seq<State>, j: nat, k: nat, a: nat, b: nat, n: nat,
          m: nat, x: nat, y: nat)
    requires Run(files, root, states) && j <= k < |states|
    requires a in states[j].threads && GivesOut(states[j].threads[a], n, x)
    requires b in states[k].threads && GivesOut(states[k].threads[b], m, y)
    ensures n == m <==> x == y
    ensures x != 0 && y != 0
  {
    RunInv(files, root, states, j);
    RunInv(files, root, states, k);
    RunGrown(files, root, states, j, k);
    hide Run, Next;
    GivenOutIsHad(files, states[j], a, n, x);
    GivenOutIsHad(files, states[k], b, m, y);
    assert Has(states[k], n, x);
  }

  /** A number that is handed out, not in the registry and in nobody's hands. */
  ghost predicate Dead(s: State, id: nat) {
    id <= s.lastId && id !in s.registry && forall i :: i in s.threads ==> !Draws(s.threads[i], id)
  }

  lemma DeadStays(files: nat -> seq<byte>, s: State, s': State, id: nat)
    requires Next(files, s, s') && Dead(s, id)
    ensures Dead(s', id)
  {
    if i :| Step(files, s, i, s') {
      assert !Draws(s.threads[i], id);
      if Draws(s'.threads[i], id) {
        DrawnStep(files, s, i, s', id);
      }
      hide EnsureMoves, RequestMoves, ContextMoves, ReadMoves;
    }
  }

  /** A number in the registry is in nobody's hands. */
  lemma RegisteredNotDrawn(files: nat -> seq<byte>, s: State, id: nat)
    requires Inv(files, s) && id in s.registry
    ensures id <= s.lastId && forall j :: j in s.threads ==> !Draws(s.threads[j], id)
  {
    assert Has(s, s.registry[id], id);
    forall j | j in s.threads ensures !Draws(s.threads[j], id) {
      assert ThreadOk(files, s, s.threads[j]);
    }
  }

  lemma ForgottenIsDead(files: nat -> seq<byte>, s: State, s': State, id: nat)
    requires Inv(files, s) && Next(files, s, s') && id in s.registry && id !in s'.registry
    ensures Dead(s', id)
  {
    var i :| Step(files, s, i, s');
    RegisteredNotDrawn(files, s, id);
    hide Inv, EnsureMoves, RequestMoves, ContextMoves, ReadMoves;
    if Draws(s'.threads[i], id) {
      DrawnStep(files, s, i, s', id);
    }
    hide EnsureMoves, RequestMoves, ContextMoves, ReadMoves;
  }

  lemma {:induction false} RunDead(files: nat -> seq<byte>, root: nat, states: seq<State>, j: nat, k: nat, id: nat)
    requires Run(files, root, states) && j <= k < |states| && Dead(states[j], id)
    ensures Dead(states[k], id)
    decreases k
  {
    hide Next, Dead, Init;
    if j < k {
      RunDead(files, root, states, j, k - 1, id);
      assert Next(files, states[k - 1], states[k - 1 + 1]);
      DeadStays(files, states[k - 1], states[k], id);
    }
  }

  /** A NodeID that resolved and then does not never resolves again. */
  lemma {:induction false} ForgottenNeverResolvesAgain(files: nat -> seq<byte>, root: nat, states: seq<State>, j: nat,
          k: nat, m: nat, id: nat)
    requires Run(files, root, states) && j <= k <= m < |states|
    requires id in states[j].registry && id !in states[k].registry
    ensures id !in states[m].registry && Dead(states[m], id)
    decreases k - j
  {
    hide Next, Init, Inv;
    if id in states[j + 1].registry {
      ForgottenNeverResolvesAgain(files, root, states, j + 1, k, m, id);
    } else {
      RunInv(files, root, states, j);
      assert Next(files, states[j], states[j + 1]);
      ForgottenIsDead(files, states[j], states[j + 1], id);
      RunDead(files, root, states, j + 1, m, id);
    }
  }

  /**
   What forgetting a node costs: from then on every EnsureNodeID of that node still gives out the
   dead number, which the registry will never resolve.
   */
  lemma ForgottenNodeKeepsDeadId(files: nat -> seq<byte>, root: nat, states: seq<State>, j: nat, k: nat, b: nat,
          n: nat, x: nat, y: nat)
    requires Run(files, root, states) && j <= k < |states|
    requires Has(states[j], n, x) && Dead(states[j], x)
    requires b in states[k].threads && GivesOut(states[k].threads[b], n, y)
    ensures y == x && y !in states[k].registry
  {
    RunInv(files, root, states, k);
    RunGrown(files, root, states, j, k);
    RunDead(files, root, states, j, k, x);
    assert ThreadOk(files, states[k], states[k].threads[b]);
  }

  /** Storing a handle binds it to the node held; from then on it stays bound. */
  lemma StoredStays(files: nat -> seq<byte>, root: nat, states: seq<State>, j: nat, k: nat, a: nat)
    requires Run(files, root, states) && j < k < |states|
    requires a in states[j].threads && states[j].threads[a].GotHandle? && Step(files, states[j], a, states[j + 1])
    ensures var th := states[j].threads[a];
            th.fh in states[k].openedOn && states[k].openedOn[th.fh] == th.n
  {
    hide Next, Init, EnsureMoves, RequestMoves, ContextMoves, ReadMoves;
    RunGrown(files, root, states, j + 1, k);
    var fh := states[j].threads[a].fh;
    assert fh in states[j + 1].openedOn;
  }

  lemma RunThread(files: nat -> seq<byte>, root: nat, states: seq<State>, k: nat, i: nat)
    requires Run(files, root, states) && k < |states| && i in states[k].threads
    ensures ThreadOk(files, states[k], states[k].threads[i])
  {
    hide Run, ThreadOk;
    RunInv(files, root, states, k);
  }

  /** Handle numbers are never reused: every Open that stores a handle stores a new one. */
  lemma HandlesNeverReused(files: nat -> seq<byte>, root: nat, states: seq<State>, j: nat, k: nat, a: nat, b: nat)
    requires Run(files, root, states) && j < k < |states| - 1
    requires a in states[j].threads && states[j].threads[a].GotHandle? && Step(files, states[j], a, states[j + 1])
    requires b in states[k].threads && states[k].threads[b].GotHandle?
    ensures states[j].threads[a].fh != states[k].threads[b].fh
  {
    hide Run, Step;
    StoredStays(files, root, states, j, k, a);
    RunThread(files, root, states, k, b);
  }

  /**
   End to end: if an Open on NodeID `id` stored handle `fh` while it held node `n`, then whatever
   any later Read on that handle returns is a prefix of the requested window of the file at `n`,
   and of no other file.
   */
  lemma ReadsReturnTheOpenedFile(files: nat -> seq<byte>, root: nat, states: seq<State>, j: nat, k: nat, a: nat,
          b: nat, o: int, z: int, data: seq<byte>)
    requires Run(files, root, states) && j < k < |states|
    requires a in states[j].threads && states[j].threads[a].GotHandle? && Step(files, states[j], a, states[j + 1])
    requires b in states[k].threads && states[k].threads[b] == Done(Bytes(states[j].threads[a].fh, o, z, data))
    ensures 0 <= o && 0 <= z && data <= Cache.Window(files(states[j].threads[a].n), o, z)
  {
    hide Run, Step;
    StoredStays(files, root, states, j, k, a);
    RunThread(files, root, states, k, b);
  }

  /** Bytes only ever come from handles that some Open stored: there is always such an `n`. */
  lemma {:induction false} HandleHasOpen(files: nat -> seq<byte>, root: nat, states: seq<State>, k: nat, fh: nat)
    returns (j: nat, a: nat)
    requires Run(files, root, states) && k < |states| && fh in states[k].openedOn
    ensures j < k && a in states[j].threads && Step(files, states[j], a, states[j + 1])
    ensures states[j].threads[a].GotHandle? && states[j].threads[a].fh == fh
    ensures states[j].threads[a].n == states[k].openedOn[fh]
    decreases k
  {
    assert k > 0;
    assert Next(files, states[k - 1], states[k - 1 + 1]);
    if fh in states[k - 1].openedOn {
      RunInv(files, root, states, k - 1);
      NextInv(files, states[k - 1], states[k]);
      j, a := HandleHasOpen(files, root, states, k - 1, fh);
    } else {
      j := k - 1;
      a :| Step(files, states[j], a, states[k]);
    }
  }

  /**
   Lock balance: at every moment each node's read-lock count is the number of contexts open on it;
   so when no request is in flight no lock is held.
   */
  lemma LocksAreBalanced(files: nat -> seq<byte>, root: nat, states: seq<State>, k: nat, n: nat)
    requires Run(files, root, states) && k < |states|
    ensures Locks(states[k], n) == |Holders(states[k].threads, n)|
    ensures (forall i :: i in states[k].threads ==> states[k].threads[i].Idle? || states[k].threads[i].Done?)
              ==> Locks(states[k], n) == 0
  {
    RunInv(files, root, states, k);
    if forall i :: i in states[k].threads ==> states[k].threads[i].Idle? || states[k].threads[i].Done? {
      assert Holders(states[k].threads, n) == {};
    }
  }

  /* ---------- Exactly when a NodeID resolves and a handle is open ---------- */

  /** The thread that won the race for `n`'s NodeID and has yet to store it. */
  predicate Publishes(th: Thread, n: nat, id: nat) {
    th.EnsStore? && th.n == n && th.id == id
  }

  /** The thread has found a node in the registry under `id`, to forget it or to open it. */
  predicate Found(th: Thread, id: nat) {
    || ((th.CtxLock? || th.Holding?) && (th.job.Forgetting? || th.job.Opening?) && th.id == id)
    || (th.GotHandle? && th.id == id)
  }

  ghost predicate NotDrawn(s: State, id: nat) {
    id <= s.lastId && forall i :: i in s.threads ==> !Draws(s.threads[i], id)
  }

  ghost predicate PublishedOk(s: State) {
    forall n :: n in s.ids ==>
      || s.ids[n] in s.registry || s.ids[n] in s.forgotten
      || exists i :: i in s.threads && Publishes(s.threads[i], n, s.ids[n])
  }

  ghost predicate ForgottenOk(s: State) {
    && (forall id :: id in s.forgotten ==> Dead(s, id))
    && (forall i, id :: i in s.threads && Found(s.threads[i], id) ==> NotDrawn(s, id))
  }

  /** A handle's NodeID was published before the handle was stored. */
  ghost predicate HandleIdsOk(s: State) {
    forall fh :: fh in s.openedOn ==> s.openedOn[fh] in s.ids && NotDrawn(s, s.ids[s.openedOn[fh]])
  }

  ghost predicate ReleasedOk(s: State) {
    forall fh :: fh in s.openedOn ==> fh in s.openFiles || fh in s.released
  }

  lemma PublishedStep(files: nat -> seq<byte>, s: State, i: nat, s': State)
    requires Step(files, s, i, s') && PublishedOk(s)
    ensures PublishedOk(s')
  {
    forall n | n in s'.ids
      ensures || s'.ids[n] in s'.registry || s'.ids[n] in s'.forgotten
              || exists j :: j in s'.threads && Publishes(s'.threads[j], n, s'.ids[n])
    {
      PublishedNodeStep(files, s, i, s', n);
    }
  }

  lemma PublishedNodeStep(files: nat -> seq<byte>, s: State, i: nat, s': State, n: nat)
    requires Step(files, s, i, s') && PublishedOk(s) && n in s'.ids
    ensures || s'.ids[n] in s'.registry || s'.ids[n] in s'.forgotten
            || exists j :: j in s'.threads && Publishes(s'.threads[j], n, s'.ids[n])
  {
    var th := s.threads[i];
    if th.EnsCas? && th.n == n && n !in s.ids {
      assert EnsureMoves(s, th, s'.threads[i]);
      assert Publishes(s'.threads[i], n, s'.ids[n]);
    } else {
      hide EnsureMoves, RequestMoves, ContextMoves, ReadMoves;
      assert n in s.ids && s'.ids[n] == s.ids[n];
      if j :| j in s.threads && Publishes(s.threads[j], n, s.ids[n]) && j != i {
        assert Publishes(s'.threads[j], n, s'.ids[n]);
      }
    }
  }

  lemma ForgottenStep(files: nat -> seq<byte>, s: State, i: nat, s': State)
    requires Step(files, s, i, s') && Inv(files, s) && ForgottenOk(s)
    ensures ForgottenOk(s')
  {
    forall id | id in s'.forgotten ensures Dead(s', id) {
      if id in s.forgotten {
        assert Next(files, s, s');
        DeadStays(files, s, s', id);
      } else {
        assert Found(s.threads[i], id);
        NotDrawnStep(files, s, i, s', id);
        hide EnsureMoves, RequestMoves, ContextMoves, ReadMoves, Inv;
      }
    }
    forall j, id | j in s'.threads && Found(s'.threads[j], id) ensures NotDrawn(s', id) {
      if j == i && !Found(s.threads[i], id) {
        FoundInRegistry(files, s, i, s', id);
        RegisteredNotDrawn(files, s, id);
      }
      hide EnsureMoves, RequestMoves, ContextMoves, ReadMoves, Inv;
      NotDrawnStep(files, s, i, s', id);
    }
  }

  lemma FoundInRegistry(files: nat -> seq<byte>, s: State, i: nat, s': State, id: nat)
    requires Step(files, s, i, s') && Found(s'.threads[i], id) && !Found(s.threads[i], id)
    ensures id in s.registry
  {
  }

  lemma NotDrawnStep(files: nat -> seq<byte>, s: State, i: nat, s': State, id: nat)
    requires Step(files, s, i, s') && NotDrawn(s, id)
    ensures NotDrawn(s', id)
  {
    if Draws(s'.threads[i], id) {
      DrawnStep(files, s, i, s', id);
    }
    hide EnsureMoves, RequestMoves, ContextMoves, ReadMoves;
  }

  lemma HandleIdsStep(files: nat -> seq<byte>, s: State, i: nat, s': State)
    requires Step(files, s, i, s') && IdsOk(s) && ThreadOk(files, s, s.threads[i]) && ForgottenOk(s) && HandleIdsOk(s)
    ensures HandleIdsOk(s')
  {
    IdsStep(files, s, i, s');
    forall fh | fh in s'.openedOn ensures s'.openedOn[fh] in s'.ids && NotDrawn(s', s'.ids[s'.openedOn[fh]]) {
      hide EnsureMoves, RequestMoves, ContextMoves, ReadMoves;
      var n := s'.openedOn[fh];
      assert s.threads[i].GotHandle? ==> Found(s.threads[i], s.threads[i].id);
      assert n in s.ids && Has(s', n, s.ids[n]) && NotDrawn(s, s.ids[n]);
      NotDrawnStep(files, s, i, s', s.ids[n]);
    }
  }

  lemma ReleasedStep(files: nat -> seq<byte>, s: State, i: nat, s': State)
    requires Step(files, s, i, s') && ReleasedOk(s)
    ensures ReleasedOk(s')
  {
    hide EnsureMoves, RequestMoves, ContextMoves, ReadMoves;
  }

  ghost predicate Books(s: State) {
    PublishedOk(s) && ForgottenOk(s) && HandleIdsOk(s) && ReleasedOk(s)
  }

  lemma NextBooks(files: nat -> seq<byte>, s: State, s': State)
    requires Next(files, s, s') && Inv(files, s) && Books(s)
    ensures Books(s')
  {
    if i :| Step(files, s, i, s') {
      assert ThreadOk(files, s, s.threads[i]) && IdsOk(s);
      hide Step, Inv, ThreadOk, IdsOk, PublishedOk, ForgottenOk, HandleIdsOk, ReleasedOk;
      PublishedStep(files, s, i, s');
      ForgottenStep(files, s, i, s');
      HandleIdsStep(files, s, i, s');
      ReleasedStep(files, s, i, s');
    } else {
      var n: nat :| s' == Cleared(s, n);
      ClearBooks(s, n);
    }
  }

  lemma ClearBooks(s: State, n: nat)
    requires Books(s)
    ensures Books(Cleared(s, n))
  {
    var s' := Cleared(s, n);
    forall m | m in s'.ids
      ensures || s'.ids[m] in s'.registry || s'.ids[m] in s'.forgotten
              || exists j :: j in s'.threads && Publishes(s'.threads[j], m, s'.ids[m])
    {
      assert m in s.ids;
    }
    forall id | id in s'.forgotten ensures Dead(s', id) {
      assert Dead(s, id);
    }
    forall j, id | j in s'.threads && Found(s'.threads[j], id) ensures NotDrawn(s', id) {
      assert NotDrawn(s, id);
    }
    forall fh | fh in s'.openedOn ensures s'.openedOn[fh] in s'.ids && NotDrawn(s', s'.ids[s'.openedOn[fh]]) {
      assert NotDrawn(s, s.ids[s.openedOn[fh]]);
    }
  }

  lemma InitBooks(s: State, root: nat)
    requires Init(s, root)
    ensures Books(s)
  {
    assert s.ids[root] in s.registry;
  }

  lemma {:induction false} RunBooks(files: nat -> seq<byte>, root: nat, states: seq<State>, k: nat)
    requires Run(files, root, states) && k < |states|
    ensures Books(states[k])
  {
    hide Inv, Next, Init, Books;
    if k == 0 {
      InitBooks(states[0], root);
    } else {
      RunBooks(files, root, states, k - 1);
      RunInv(files, root, states, k - 1);
      assert Next(files, states[k - 1], states[k - 1 + 1]);
      NextBooks(files, states[k - 1], states[k]);
    }
  }

  /**
   Exactly when a node's NodeID resolves (to that node): unless it was forgotten, or the thread that
   won the race for it has not stored it yet.
   */
  lemma NodeIdResolvesIff(files: nat -> seq<byte>, root: nat, states: seq<State>, k: nat, n: nat)
    requires Run(files, root, states) && k < |states| && n in states[k].ids
    ensures var s := states[k];
            var id := s.ids[n];
            && (id in s.registry ==> s.registry[id] == n)
            && (id in s.registry <==>
                  id !in s.forgotten && forall i :: i in s.threads ==> !Publishes(s.threads[i], n, id))
  {
    RunInv(files, root, states, k);
    RunBooks(files, root, states, k);
    hide Run;
    var s := states[k];
    var id := s.ids[n];
    assert id in s.forgotten ==> Dead(s, id);
    if id in s.registry {
      assert Has(s, s.registry[id], id);
      RegisteredNotDrawn(files, s, id);
    }
  }

  /* ---------- How a Read ends ---------- */

  /** Thread state `th` is a Read of `size` bytes at `offset` on handle `fh`, on its way or just ended. */
  predicate ReadRequest(th: Thread, fh: nat, offset: int, size: int) {
    match th
    case ReadLoad(h, o, z) => h == fh && o == offset && z == size
    case CtxLoad(_, job) => job == Reading(fh, offset, size)
    case CtxLock(_, _, job) => job == Reading(fh, offset, size)
    case InRead(_, _, h, rd) => h == fh && rd.offset == offset && rd.size == size
    case Closing(_, res) => res == EIO || (res.Bytes? && res == Bytes(fh, offset, size, res.data))
    case Done(res) => res == EBADF || res == EIO || (res.Bytes? && res == Bytes(fh, offset, size, res.data))
    case _ => false
  }

  /** At moment `m` thread `i` looks its handle up and does not find it. */
  predicate Refused(states: seq<State>, m: nat, i: nat, fh: nat) {
    && m + 1 < |states| && i in states[m].threads && i in states[m + 1].threads
    && states[m].threads[i].ReadLoad? && !states[m + 1].threads[i].ReadLoad?
    && fh !in states[m].openFiles
  }

  /** Thread `i` is about to look up the NodeID of its handle's node, and that NodeID was forgotten. */
  predicate NodeForgotten(s: State, i: nat, fh: nat) {
    && i in s.threads && s.threads[i].CtxLoad? && fh in s.openedOn && s.openedOn[fh] in s.ids
    && s.ids[s.openedOn[fh]] in s.forgotten
  }

  /** Thread `i` has opened the handle's node and no adapter could read it. */
  predicate ReadFailed(s: State, i: nat, fh: nat) {
    && i in s.threads && s.threads[i].InRead? && s.threads[i].rd.phase.Failed?
    && fh in s.openedOn && s.threads[i].n == s.openedOn[fh]
  }

  predicate Lost(s: State, i: nat, fh: nat) {
    NodeForgotten(s, i, fh) || ReadFailed(s, i, fh)
  }

  lemma ReadRequestStep(files: nat -> seq<byte>, s: State, i: nat, s': State, fh: nat, o: int, z: int)
    requires Step(files, s, i, s') && ReadRequest(s.threads[i], fh, o, z) && !s.threads[i].Done?
    ensures ReadRequest(s'.threads[i], fh, o, z)
    ensures s'.threads[i] == Done(EBADF) <==> s.threads[i].ReadLoad? && fh !in s.openFiles
    ensures !s'.threads[i].ReadLoad?
    ensures (s'.threads[i] == Done(EIO) || (s'.threads[i].Closing? && s'.threads[i].res == EIO)) <==>
            || (s.threads[i].CtxLoad? && s.threads[i].id !in s.registry)
            || (s.threads[i].InRead? && s.threads[i].rd.phase.Failed?)
            || (s.threads[i].Closing? && s.threads[i].res == EIO)
  {
    var th := s.threads[i];
    if th.InRead? {
      assert ReadMoves(files, s, th, s'.threads[i], Cached(s', th.n));
    } else if th.ReadLoad? {
      assert RequestMoves(s, th, s'.threads[i]);
    } else {
      assert ContextMoves(s, th, s'.threads[i]);
    }
  }

  /** A NodeID that a Read got from its handle is missing from the registry only if it was forgotten. */
  lemma MissingIsForgotten(files: nat -> seq<byte>, s: State, i: nat, fh: nat, o: int, z: int)
    requires Inv(files, s) && Books(s) && i in s.threads
    requires s.threads[i].CtxLoad? && s.threads[i].job == Reading(fh, o, z)
    ensures s.threads[i].id !in s.registry <==> NodeForgotten(s, i, fh)
  {
    assert ThreadOk(files, s, s.threads[i]);
    var id := s.threads[i].id;
    var n := s.openedOn[fh];
    assert Has(s, n, id) && NotDrawn(s, id);
    if j :| j in s.threads && Publishes(s.threads[j], n, id) {
      assert Draws(s.threads[j], id);
    }
    assert id in s.forgotten ==> Dead(s, id);
  }

  /** The Read is ending, or has ended, in EIO. */
  predicate GivesUp(th: Thread) {
    (th.Closing? || th.Done?) && th.res == EIO
  }

  /** While others move, a Read stays where it is, and what was lost stays lost. */
  lemma OtherMoves(files: nat -> seq<byte>, s: State, s': State, i: nat, fh: nat)
    requires Next(files, s, s') && Grown(s, s') && i in s.threads && !Step(files, s, i, s')
    ensures i in s'.threads && s'.threads[i] == s.threads[i]
    ensures Lost(s, i, fh) ==> Lost(s', i, fh)
  {
    hide EnsureMoves, RequestMoves, ContextMoves, ReadMoves;
  }

  /** A Read gives up exactly in the step after something was lost. */
  lemma GivesUpStep(files: nat -> seq<byte>, s: State, i: nat, s': State, fh: nat, o: int, z: int)
    requires Inv(files, s) && Books(s) && Step(files, s, i, s')
    requires ReadRequest(s.threads[i], fh, o, z) && !s.threads[i].Done?
    ensures GivesUp(s'.threads[i]) <==> Lost(s, i, fh) || GivesUp(s.threads[i])
  {
    ReadRequestStep(files, s, i, s', fh, o, z);
    assert ThreadOk(files, s, s.threads[i]);
    hide Step, Books, Inv;
    if s.threads[i].CtxLoad? {
      MissingIsForgotten(files, s, i, fh, o, z);
    }
  }

  /** Whoever moves, a Read in progress stays one, and ends for these reasons only. */
  lemma ReadNext(files: nat -> seq<byte>, s: State, s': State, i: nat, fh: nat, o: int, z: int)
    requires Inv(files, s) && Books(s) && Next(files, s, s')
    requires i in s.threads && ReadRequest(s.threads[i], fh, o, z) && !s.threads[i].Done?
    ensures i in s'.threads && ReadRequest(s'.threads[i], fh, o, z)
    ensures s'.threads[i] == Done(EBADF) <==> s.threads[i].ReadLoad? && !s'.threads[i].ReadLoad? && fh !in s.openFiles
    ensures GivesUp(s.threads[i]) || Lost(s, i, fh) ==> GivesUp(s'.threads[i]) || Lost(s', i, fh)
    ensures GivesUp(s'.threads[i]) ==> GivesUp(s.threads[i]) || Lost(s, i, fh)
  {
    hide Inv, Books, Next, Step, Grown, Lost;
    NextInv(files, s, s');
    if Step(files, s, i, s') {
      StepKeepsThread(files, s, i, s');
      ReadRequestStep(files, s, i, s', fh, o, z);
      GivesUpStep(files, s, i, s', fh, o, z);
    } else {
      OtherMoves(files, s, s', i, fh);
    }
  }

  lemma StepKeepsThread(files: nat -> seq<byte>, s: State, i: nat, s': State)
    requires Step(files, s, i, s')
    ensures i in s.threads && i in s'.threads
  {
  }

  /** Thread `i` serves one Read from `j` to `k`. */
  ghost predicate Serving(states: seq<State>, j: nat, k: nat, i: nat, fh: nat, o: int, z: int) {
    && j <= k < |states|
    && i in states[j].threads && states[j].threads[i] == ReadLoad(fh, o, z)
    && forall m :: j <= m < k ==> i in states[m].threads && !states[m].threads[i].Done?
  }

  lemma {:induction false} ReadSoFar(files: nat -> seq<byte>, root: nat, states: seq<State>, j: nat, k: nat, i: nat,
          fh: nat, o: int, z: int)
    requires Run(files, root, states) && Serving(states, j, k, i, fh, o, z)
    ensures i in states[k].threads && ReadRequest(states[k].threads[i], fh, o, z)
    decreases k
  {
    hide Inv, Next, Init, Books, Lost;
    if j < k {
      ReadSoFar(files, root, states, j, k - 1, i, fh, o, z);
      RunInv(files, root, states, k - 1);
      RunBooks(files, root, states, k - 1);
      assert Next(files, states[k - 1], states[k - 1 + 1]);
      ReadNext(files, states[k - 1], states[k], i, fh, o, z);
    }
  }

  /** A step in the course of a Read. */
  lemma ReadNextInRun(files: nat -> seq<byte>, root: nat, states: seq<State>, j: nat, m: nat, i: nat, fh: nat, o: int,
          z: int)
    requires Run(files, root, states) && m + 1 < |states| && Serving(states, j, m + 1, i, fh, o, z) && j <= m
    ensures i in states[m].threads && i in states[m + 1].threads
    ensures states[m + 1].threads[i] == Done(EBADF) <==> Refused(states, m, i, fh)
    ensures GivesUp(states[m].threads[i]) || Lost(states[m], i, fh) ==>
              GivesUp(states[m + 1].threads[i]) || Lost(states[m + 1], i, fh)
    ensures GivesUp(states[m + 1].threads[i]) ==> GivesUp(states[m].threads[i]) || Lost(states[m], i, fh)
  {
    hide Inv, Next, Init, Books, Lost;
    ReadSoFar(files, root, states, j, m, i, fh, o, z);
    RunInv(files, root, states, m);
    RunBooks(files, root, states, m);
    assert Next(files, states[m], states[m + 1]);
    ReadNext(files, states[m], states[m + 1], i, fh, o, z);
  }

  /** The Read is on its way to EIO exactly if something has been lost. */
  lemma {:induction false} LostSoFar(files: nat -> seq<byte>, root: nat, states: seq<State>, j: nat, k: nat, i: nat,
          fh: nat, o: int, z: int)
    requires Run(files, root, states) && Serving(states, j, k, i, fh, o, z) && i in states[k].threads
    ensures GivesUp(states[k].threads[i]) || Lost(states[k], i, fh) <==>
            exists m :: j <= m <= k && Lost(states[m], i, fh)
    decreases k
  {
    hide Run, Inv, Lost, Refused;
    if j < k {
      ReadNextInRun(files, root, states, j, k - 1, i, fh, o, z);
      LostSoFar(files, root, states, j, k - 1, i, fh, o, z);
    }
  }

  lemma RefusedAtEnd(files: nat -> seq<byte>, root: nat, states: seq<State>, j: nat, k: nat, i: nat, fh: nat, o: int,
          z: int)
    requires Run(files, root, states) && Serving(states, j, k, i, fh, o, z)
    requires i in states[k].threads && states[k].threads[i].Done?
    ensures states[k].threads[i].res == EBADF <==> exists m :: j <= m < k && Refused(states, m, i, fh)
  {
    hide Run, Inv, Next, Init, Books, Refused, Lost;
    if states[k].threads[i].res == EBADF {
      ReadNextInRun(files, root, states, j, k - 1, i, fh, o, z);
    }
    forall m | j <= m < k && Refused(states, m, i, fh) ensures states[k].threads[i].res == EBADF {
      ReadNextInRun(files, root, states, j, m, i, fh, o, z);
    }
  }

  /**
   How a Read ends, in every run, from its first step at `j` to its end at `k`.  It ends in EBADF exactly
   if its handle was not open when it looked; in EIO exactly if the NodeID of the handle's node was
   forgotten before it was looked up, or the adapters failed on that node; and in any other case in bytes
   for the handle, offset and size that were asked for, a prefix of that window of the file opened.
   */
  lemma ReadOutcome(files: nat -> seq<byte>, root: nat, states: seq<State>, j: nat, k: nat, i: nat, fh: nat, o: int,
          z: int)
    requires Run(files, root, states) && Serving(states, j, k, i, fh, o, z)
    requires i in states[k].threads && states[k].threads[i].Done?
    ensures var res := states[k].threads[i].res;
            && (res == EBADF <==> exists m :: j <= m < k && Refused(states, m, i, fh))
            && (res == EIO <==> exists m :: j <= m < k && Lost(states[m], i, fh))
            && (res != EBADF && res != EIO ==>
                  && res.Bytes? && res == Bytes(fh, o, z, res.data) && 0 <= o && 0 <= z
                  && fh in states[k].openedOn && res.data <= Cache.Window(files(states[k].openedOn[fh]), o, z))
  {
    hide Run, Inv, Next, Init, Books, Refused;
    ReadSoFar(files, root, states, j, k, i, fh, o, z);
    LostSoFar(files, root, states, j, k, i, fh, o, z);
    RunThread(files, root, states, k, i);
    assert !Lost(states[k], i, fh);
    RefusedAtEnd(files, root, states, j, k, i, fh, o, z);
  }

  /** A handle that some Open stored stays open until a Release of it: only then can a Read get EBADF. */
  lemma HandleStaysOpen(files: nat -> seq<byte>, root: nat, states: seq<State>, j: nat, k: nat, i: nat, fh: nat,
          o: int, z: int)
    requires Run(files, root, states) && Serving(states, j, k, i, fh, o, z) && fh in states[j].openedOn
    requires i in states[k].threads && states[k].threads[i] == Done(EBADF)
    ensures exists m :: j <= m < k && fh in states[m].released
  {
    ReadOutcome(files, root, states, j, k, i, fh, o, z);
    var m :| j <= m < k && Refused(states, m, i, fh);
    RunGrown(files, root, states, j, m);
    RunBooks(files, root, states, m);
  }
}
