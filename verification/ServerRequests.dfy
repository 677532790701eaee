/**
 How the requests of the FUSE server end, over whole runs: which bytes a Read answers with, what an Open
 and a Release do to handles, what a Lookup answers and what a Forget leaves, whatever runs in between.
 */
module ServerRequests {
  import opened Common
  import opened Server
  import Cache

  /** Thread `i` is at the same request from `j` to `k`. */
  ghost predicate InFlight(states: seq<State>, j: nat, k: nat, i: nat) {
    && j <= k < |states| && i in states[k].threads
    && forall m :: j <= m < k ==> i in states[m].threads && !states[m].threads[i].Done?
  }

  lemma ThreadNext(files: nat -> seq<byte>, s: State, s': State, i: nat)
    requires Next(files, s, s') && i in s.threads
    ensures i in s'.threads && (Step(files, s, i, s') || s'.threads[i] == s.threads[i])
  {
    hide EnsureMoves, RequestMoves, ContextMoves, ReadMoves;
  }

  lemma RunNext(files: nat -> seq<byte>, root: nat, states: seq<State>, m: nat)
    requires Run(files, root, states) && m + 1 < |states|
    ensures Inv(files, states[m]) && Books(states[m]) && Next(files, states[m], states[m + 1])
    ensures Grown(states[m], states[m + 1])
  {
    RunInv(files, root, states, m);
    RunBooks(files, root, states, m);
    hide Inv, Books, Next, Grown;
    assert Next(files, states[m], states[m + 1]);
    NextInv(files, states[m], states[m + 1]);
  }

  /* ---------- Read: which bytes ---------- */

  /** The bytes that thread state `th` is going to answer with, once that is settled. */
  function DataOf(th: Thread): Option<seq<byte>> {
    match th
    case InRead(_, _, _, rd) => Cache.SettledBytes(rd.phase)
    case Closing(_, res) => if res.Bytes? then Some(res.data) else None
    case Done(res) => if res.Bytes? then Some(res.data) else None
    case _ => None
  }

  /** At moment `m` thread `i` looks in the cache of its node and finds its whole window. */
  predicate FindsCached(states: seq<State>, m: nat, i: nat) {
    && m + 1 < |states| && i in states[m].threads && i in states[m + 1].threads
    && var th, th' := states[m].threads[i], states[m + 1].threads[i];
    && th.InRead? && th.rd.phase.Start? && th'.InRead? && th' != th && !th'.rd.phase.Failed?
    && Cache.IsCached(Cached(states[m], th.n), th.rd.offset, th.rd.size)
  }

  /** At moment `m` an adapter works for thread `i`. */
  predicate AdapterWorks(states: seq<State>, m: nat, i: nat) {
    && m + 1 < |states| && i in states[m].threads && i in states[m + 1].threads
    && var th, th' := states[m].threads[i], states[m + 1].threads[i];
    th.InRead? && th.rd.phase.Fetching? && th'.InRead? && th'.rd.phase.Fetched?
  }

  /** A thread inside Inode.Read moves as a reader, and what it works on is in order. */
  lemma ReaderMoves(files: nat -> seq<byte>, s: State, i: nat, s': State)
    requires Inv(files, s) && Step(files, s, i, s') && s.threads[i].InRead? && s'.threads[i].InRead?
    ensures var th, th' := s.threads[i], s'.threads[i];
            && th' == th.(rd := th'.rd) && Cache.ReaderOk(files(th.n), th.rd)
            && Cache.Backed(Cached(s, th.n), files(th.n))
            && exists act :: Cache.ReaderStep(files(th.n), Cached(s, th.n), th.rd, act, Cached(s', th.n), th'.rd)
  {
    assert ThreadOk(files, s, s.threads[i]);
    assert ReadMoves(files, s, s.threads[i], s'.threads[i], Cached(s', s.threads[i].n));
  }

  lemma ReaderSettles(files: nat -> seq<byte>, s: State, i: nat, s': State)
    requires Inv(files, s) && Step(files, s, i, s') && s.threads[i].InRead? && s'.threads[i].InRead?
    ensures var th, th' := s.threads[i], s'.threads[i];
            Cache.SettlesBytes(files(th.n), Cached(s, th.n), th.rd, th'.rd)
  {
    ReaderMoves(files, s, i, s');
    var th, th' := s.threads[i], s'.threads[i];
    hide Inv, Step, Cache.ReaderStep, Cache.ReaderOk, Cache.Backed, Cache.SettlesBytes;
    var act :| Cache.ReaderStep(files(th.n), Cached(s, th.n), th.rd, act, Cached(s', th.n), th'.rd);
    Cache.StepSettlesBytes(files(th.n), Cached(s, th.n), th.rd, act, Cached(s', th.n), th'.rd);
  }

  /** A step outside of Inode.Read, or on the way out of it, changes nothing about the bytes. */
  lemma DataOutside(files: nat -> seq<byte>, s: State, i: nat, s': State)
    requires Step(files, s, i, s') && !s.threads[i].Done? && !(s.threads[i].InRead? && s'.threads[i].InRead?)
    ensures DataOf(s'.threads[i]) == DataOf(s.threads[i])
  {
  }

  /** What a step of the thread, or of another one, does to the bytes; `content` is its node's file. */
  ghost predicate DataRule(content: seq<byte>, ranges: seq<Cache.Range>, th: Thread, th': Thread) {
    && (DataOf(th).Some? ==> DataOf(th') == DataOf(th))
    && (DataOf(th).None? && DataOf(th').Some? ==>
          && th.InRead? && th'.InRead? && th' != th
          && ((th.rd.phase.Start? && !th'.rd.phase.Failed? && Cache.IsCached(ranges, th.rd.offset, th.rd.size))
              || (th.rd.phase.Fetching? && th'.rd.phase.Fetched?)))
    && (th.InRead? && th'.InRead? && th.rd.phase.Start? && th' != th && !th'.rd.phase.Failed?
        && Cache.IsCached(ranges, th.rd.offset, th.rd.size) ==>
          && 0 <= th.rd.offset <= th.rd.offset + th.rd.size <= |content|
          && DataOf(th') == Some(content[th.rd.offset..th.rd.offset + th.rd.size]))
    && (th.InRead? && th'.InRead? && th.rd.phase.Fetching? && th'.rd.phase.Fetched? ==>
          var ph := th'.rd.phase; 0 <= ph.n <= |ph.buf| && DataOf(th') == Some(ph.buf[..ph.n]))
  }

  function NodeOf(th: Thread): nat {
    if th.InRead? then th.n else 0
  }

  lemma SettlesIsDataRule(content: seq<byte>, ranges: seq<Cache.Range>, th: Thread, th': Thread)
    requires th.InRead? && th'.InRead? && Cache.SettlesBytes(content, ranges, th.rd, th'.rd) && th' == th.(rd := th'.rd)
    ensures DataRule(content, ranges, th, th')
  {
    hide Cache.IsCached;
  }

  lemma SameIsDataRule(content: seq<byte>, ranges: seq<Cache.Range>, th: Thread, th': Thread)
    requires DataOf(th') == DataOf(th) && (th' == th || !(th.InRead? && th'.InRead?))
    ensures DataRule(content, ranges, th, th')
  {
    hide Cache.IsCached;
  }

  lemma DataNext(files: nat -> seq<byte>, root: nat, states: seq<State>, m: nat, i: nat)
    requires Run(files, root, states) && m + 1 < |states| && i in states[m].threads && !states[m].threads[i].Done?
    ensures i in states[m + 1].threads
    ensures var th := states[m].threads[i];
            DataRule(files(NodeOf(th)), Cached(states[m], NodeOf(th)), th, states[m + 1].threads[i])
  {
    RunNext(files, root, states, m);
    var s, s' := states[m], states[m + 1];
    hide Run, Inv, Next, Books, Step, Grown, DataRule, Cache.SettlesBytes, DataOf, Cached;
    ThreadNext(files, s, s', i);
    var th, th' := s.threads[i], s'.threads[i];
    var content, ranges := files(NodeOf(th)), Cached(s, NodeOf(th));
    if th' != th && th.InRead? && th'.InRead? {
      ReaderSettles(files, s, i, s');
      ReaderMoves(files, s, i, s');
      SettlesIsDataRule(content, ranges, th, th');
    } else {
      if th' != th {
        DataOutside(files, s, i, s');
      }
      SameIsDataRule(content, ranges, th, th');
    }
  }

  /** Bytes get settled only by a cached window or a working adapter. */
  lemma DataSettles(files: nat -> seq<byte>, root: nat, states: seq<State>, m: nat, i: nat)
    requires Run(files, root, states) && m + 1 < |states| && i in states[m].threads && !states[m].threads[i].Done?
    ensures i in states[m + 1].threads
    ensures DataOf(states[m].threads[i]).Some? ==> DataOf(states[m + 1].threads[i]) == DataOf(states[m].threads[i])
    ensures DataOf(states[m].threads[i]).None? && DataOf(states[m + 1].threads[i]).Some? ==>
              FindsCached(states, m, i) || AdapterWorks(states, m, i)
  {
    DataNext(files, root, states, m, i);
    hide Run, Cached, DataOf, Cache.IsCached;
  }

  lemma {:induction false} DataStays(files: nat -> seq<byte>, root: nat, states: seq<State>, m: nat, k: nat, i: nat)
    requires Run(files, root, states) && InFlight(states, m, k, i)
    requires i in states[m].threads && DataOf(states[m].threads[i]).Some?
    ensures DataOf(states[k].threads[i]) == DataOf(states[m].threads[i])
    decreases k - m
  {
    hide Run, FindsCached, AdapterWorks, DataOf;
    if m < k {
      DataSettles(files, root, states, m, i);
      DataStays(files, root, states, m + 1, k, i);
    }
  }

  /** Settled bytes have been settled at some moment. */
  lemma {:induction false} DataHasOrigin(files: nat -> seq<byte>, root: nat, states: seq<State>, j: nat, k: nat, i: nat)
    requires Run(files, root, states) && InFlight(states, j, k, i)
    requires i in states[j].threads && DataOf(states[j].threads[i]).None? && DataOf(states[k].threads[i]).Some?
    ensures exists m :: j <= m < k && (FindsCached(states, m, i) || AdapterWorks(states, m, i))
    decreases k - j
  {
    hide Run, FindsCached, AdapterWorks, DataOf;
    DataSettles(files, root, states, j, i);
    if DataOf(states[j + 1].threads[i]).None? {
      DataHasOrigin(files, root, states, j + 1, k, i);
    }
  }

  /** A Read at moment `m` that is inside Inode.Read: it is there for its own handle, offset and size. */
  lemma ReaderOfRequest(files: nat -> seq<byte>, root: nat, states: seq<State>, j: nat, m: nat, k: nat, i: nat,
          fh: nat, o: int, z: int)
    requires Run(files, root, states) && Serving(states, j, k, i, fh, o, z) && j <= m <= k
    requires i in states[m].threads && states[m].threads[i].InRead?
    ensures var th := states[m].threads[i];
            && th.fh == fh && th.rd.offset == o && th.rd.size == z && 0 <= o && 0 <= z
            && fh in states[k].openedOn && states[k].openedOn[fh] == th.n
  {
    ReadSoFar(files, root, states, j, m, i, fh, o, z);
    RunThread(files, root, states, m, i);
    RunGrown(files, root, states, m, k);
    hide Run;
  }

  /**
   Which bytes a Read answers with, in every run.  If it finds its window in the cache, all of that window
   of the file; if an adapter works for it, all the bytes that this adapter delivered, hence the whole window
   if those were as many; and there is always one of the two.
   */
  lemma ReadBytes(files: nat -> seq<byte>, root: nat, states: seq<State>, j: nat, k: nat, i: nat, fh: nat, o: int,
          z: int)
    requires Run(files, root, states) && Serving(states, j, k, i, fh, o, z)
    requires i in states[k].threads && states[k].threads[i].Done?
    ensures forall m :: j <= m < k && FindsCached(states, m, i) ==>
              && fh in states[k].openedOn && 0 <= o <= o + z <= |files(states[k].openedOn[fh])|
              && states[k].threads[i].res == Bytes(fh, o, z, files(states[k].openedOn[fh])[o..o + z])
    ensures forall m :: j <= m < k && AdapterWorks(states, m, i) ==>
              var ph := states[m + 1].threads[i].rd.phase;
              && 0 <= ph.n <= |ph.buf| && states[k].threads[i].res == Bytes(fh, o, z, ph.buf[..ph.n])
              && 0 <= o && 0 <= z && fh in states[k].openedOn
              && var w := Cache.Window(files(states[k].openedOn[fh]), o, z);
              && ph.n <= |w| && (ph.n == |w| ==> states[k].threads[i].res == Bytes(fh, o, z, w))
    ensures states[k].threads[i].res.Bytes? ==>
              exists m :: j <= m < k && (FindsCached(states, m, i) || AdapterWorks(states, m, i))
  {
    ReadOutcome(files, root, states, j, k, i, fh, o, z);
    forall m | j <= m < k && FindsCached(states, m, i)
      ensures fh in states[k].openedOn && 0 <= o <= o + z <= |files(states[k].openedOn[fh])|
      ensures states[k].threads[i].res == Bytes(fh, o, z, files(states[k].openedOn[fh])[o..o + z])
    {
      hide Run, Refused, Lost;
      CachedIsAnswered(files, root, states, j, m, k, i, fh, o, z);
    }
    forall m | j <= m < k && AdapterWorks(states, m, i)
      ensures var ph := states[m + 1].threads[i].rd.phase;
              && 0 <= ph.n <= |ph.buf| && states[k].threads[i].res == Bytes(fh, o, z, ph.buf[..ph.n])
    {
      hide Run, Refused, Lost;
      DeliveredIsAnswered(files, root, states, j, m, k, i, fh, o, z);
    }
    hide Run, Refused, Lost;
    if states[k].threads[i].res.Bytes? {
      DataHasOrigin(files, root, states, j, k, i);
    }
  }

  lemma CachedIsAnswered(files: nat -> seq<byte>, root: nat, states: seq<State>, j: nat, m: nat, k: nat, i: nat,
          fh: nat, o: int, z: int)
    requires Run(files, root, states) && Serving(states, j, k, i, fh, o, z) && j <= m < k
    requires i in states[k].threads && states[k].threads[i].Done? && FindsCached(states, m, i)
    requires states[k].threads[i].res.Bytes? ==>
               states[k].threads[i].res == Bytes(fh, o, z, states[k].threads[i].res.data)
    ensures fh in states[k].openedOn && 0 <= o <= o + z <= |files(states[k].openedOn[fh])|
    ensures states[k].threads[i].res == Bytes(fh, o, z, files(states[k].openedOn[fh])[o..o + z])
  {
    hide Run, Cached, Cache.IsCached;
    ReaderOfRequest(files, root, states, j, m, k, i, fh, o, z);
    DataNext(files, root, states, m, i);
    DataStays(files, root, states, m + 1, k, i);
  }

  lemma DeliveredIsAnswered(files: nat -> seq<byte>, root: nat, states: seq<State>, j: nat, m: nat, k: nat, i: nat,
          fh: nat, o: int, z: int)
    requires Run(files, root, states) && Serving(states, j, k, i, fh, o, z) && j <= m < k
    requires i in states[k].threads && states[k].threads[i].Done? && AdapterWorks(states, m, i)
    requires states[k].threads[i].res.Bytes? ==>
               states[k].threads[i].res == Bytes(fh, o, z, states[k].threads[i].res.data)
    ensures var ph := states[m + 1].threads[i].rd.phase;
            && 0 <= ph.n <= |ph.buf| && states[k].threads[i].res == Bytes(fh, o, z, ph.buf[..ph.n])
  {
    hide Run, Cached, Cache.IsCached;
    DataNext(files, root, states, m, i);
    DataStays(files, root, states, m + 1, k, i);
  }

  /* ---------- Open and Release: when a handle is open ---------- */

  /** At moment `m` thread `i` moves. */
  predicate Moves(states: seq<State>, m: nat, i: nat) {
    && m + 1 < |states| && i in states[m].threads && i in states[m + 1].threads
    && states[m].threads[i] != states[m + 1].threads[i]
  }

  /** At moment `m` an Open by thread `i` stores handle `fh`. */
  predicate Stores(states: seq<State>, m: nat, i: nat, fh: nat) {
    Moves(states, m, i) && states[m].threads[i].GotHandle? && states[m].threads[i].fh == fh
  }

  /** At moment `m` a Release of `fh` by thread `i` is carried out. */
  predicate Releases(states: seq<State>, m: nat, i: nat, fh: nat) {
    Moves(states, m, i) && states[m].threads[i] == Releasing(fh)
  }

  predicate Released(states: seq<State>, m: nat, fh: nat) {
    m + 1 < |states| && exists b :: b in states[m].threads && Releases(states, m, b, fh)
  }

  lemma MoverSteps(files: nat -> seq<byte>, s: State, s': State, i: nat)
    requires Next(files, s, s') && i in s.threads && i in s'.threads && s'.threads[i] != s.threads[i]
    ensures Step(files, s, i, s')
  {
    hide EnsureMoves, RequestMoves, ContextMoves, ReadMoves;
  }

  lemma StoreOpens(files: nat -> seq<byte>, root: nat, states: seq<State>, m: nat, i: nat, fh: nat)
    requires Run(files, root, states) && Stores(states, m, i, fh)
    ensures fh in states[m + 1].openFiles && fh in states[m + 1].openedOn
    ensures states[m + 1].openFiles[fh] == states[m].threads[i].id
    ensures states[m + 1].openedOn[fh] == states[m].threads[i].n
  {
    assert Next(files, states[m], states[m + 1]);
    MoverSteps(files, states[m], states[m + 1], i);
    hide Next, Init, EnsureMoves, RequestMoves, ContextMoves, ReadMoves;
  }

  /** A stored handle goes out of the table in the step of a Release of it, and in no other. */
  lemma OpenStep(files: nat -> seq<byte>, s: State, i: nat, s': State, fh: nat)
    requires Step(files, s, i, s') && ThreadOk(files, s, s.threads[i]) && fh in s.openedOn
    ensures fh in s'.openFiles <==> fh in s.openFiles && s.threads[i] != Releasing(fh)
  {
    hide EnsureMoves, RequestMoves, ContextMoves, ReadMoves;
  }

  lemma ReleasingMoves(files: nat -> seq<byte>, s: State, i: nat, s': State)
    requires Step(files, s, i, s') && s.threads[i].Releasing?
    ensures s'.threads[i] != s.threads[i]
  {
  }

  lemma OnlyOneMoves(files: nat -> seq<byte>, s: State, i: nat, s': State, b: nat)
    requires Step(files, s, i, s') && b != i && b in s.threads
    ensures b in s'.threads && s'.threads[b] == s.threads[b]
  {
    hide EnsureMoves, RequestMoves, ContextMoves, ReadMoves;
  }

  lemma OpenNext(files: nat -> seq<byte>, root: nat, states: seq<State>, m: nat, fh: nat)
    requires Run(files, root, states) && m + 1 < |states| && fh in states[m].openedOn
    ensures fh in states[m + 1].openFiles <==>
            fh in states[m].openFiles && !Released(states, m, fh)
  {
    var s, s' := states[m], states[m + 1];
    assert Next(files, s, s');
    hide Init, Step;
    if i :| Step(files, s, i, s') {
      assert i in s.threads && i in s'.threads by { StepKeepsThread(files, s, i, s'); }
      RunThread(files, root, states, m, i);
      hide Run, ThreadOk, Next;
      OpenStep(files, s, i, s', fh);
      if s.threads[i] == Releasing(fh) {
        ReleasingMoves(files, s, i, s');
        assert Releases(states, m, i, fh) && Released(states, m, fh);
      }
      forall b | Releases(states, m, b, fh) ensures b == i {
        if b != i {
          OnlyOneMoves(files, s, i, s', b);
        }
      }
    } else {
      assert !Released(states, m, fh);
    }
  }

  lemma StaysBound(files: nat -> seq<byte>, root: nat, states: seq<State>, j: nat, l: nat, fh: nat)
    requires Run(files, root, states) && j <= l < |states| && fh in states[j].openedOn
    ensures fh in states[l].openedOn
  {
    hide Run;
    RunGrown(files, root, states, j, l);
  }

  lemma {:induction false} OpenFrom(files: nat -> seq<byte>, root: nat, states: seq<State>, j: nat, l: nat, fh: nat)
    requires Run(files, root, states) && j <= l < |states|
    requires fh in states[j].openFiles && fh in states[j].openedOn
    ensures fh in states[l].openFiles <==> forall m :: j <= m < l ==> !Released(states, m, fh)
    decreases l
  {
    hide Run, Released;
    if j < l {
      OpenFrom(files, root, states, j, l - 1, fh);
      StaysBound(files, root, states, j, l - 1, fh);
      OpenNext(files, root, states, l - 1, fh);
    }
  }

  /** Exactly when a handle is open: from the step that stores it until the first Release of it. */
  lemma HandleOpenIff(files: nat -> seq<byte>, root: nat, states: seq<State>, j: nat, l: nat, a: nat, fh: nat)
    requires Run(files, root, states) && Stores(states, j, a, fh) && j < l < |states|
    ensures fh in states[l].openFiles <==> forall m :: j < m < l ==> !Released(states, m, fh)
  {
    hide Run, Released, Stores;
    StoreOpens(files, root, states, j, a, fh);
    OpenFrom(files, root, states, j + 1, l, fh);
  }

  /** A Read that has ended has looked its handle up at some moment. */
  lemma {:induction false} LooksUpAt(files: nat -> seq<byte>, root: nat, states: seq<State>, l: nat, k: nat, i: nat,
          fh: nat, o: int, z: int)
    returns (x: nat)
    requires Run(files, root, states) && Serving(states, l, k, i, fh, o, z)
    requires i in states[k].threads && states[k].threads[i].Done?
    ensures l <= x < k && i in states[x].threads && i in states[x + 1].threads
    ensures states[x].threads[i] == ReadLoad(fh, o, z) && !states[x + 1].threads[i].ReadLoad?
    decreases k - l
  {
    hide Run;
    ReadSoFar(files, root, states, l, l + 1, i, fh, o, z);
    if states[l + 1].threads[i].ReadLoad? {
      x := LooksUpAt(files, root, states, l + 1, k, i, fh, o, z);
    } else {
      x := l;
    }
  }

  /**
   A Read on a handle that some Open had stored, with its lookup of the handle at the moment `x`: it ends in
   EBADF exactly if the handle was released between the two.  So once a handle is released it is closed for
   good.
   */
  lemma ReadAfterOpen(files: nat -> seq<byte>, root: nat, states: seq<State>, j: nat, a: nat, l: nat, k: nat, i: nat,
          fh: nat, o: int, z: int)
    returns (x: nat)
    requires Run(files, root, states) && Stores(states, j, a, fh) && j < l
    requires Serving(states, l, k, i, fh, o, z) && i in states[k].threads && states[k].threads[i].Done?
    ensures l <= x < k && i in states[x].threads && states[x].threads[i] == ReadLoad(fh, o, z)
    ensures states[k].threads[i] == Done(EBADF) <==> exists m :: j < m < x && Released(states, m, fh)
  {
    x := LooksUpAt(files, root, states, l, k, i, fh, o, z);
    HandleOpenIff(files, root, states, j, x, a, fh);
    hide Run, Released, Stores;
    assert Refused(states, x, i, fh) <==> fh !in states[x].openFiles;
    LookupDecides(files, root, states, l, x, k, i, fh, o, z);
  }

  /** There is one lookup, and it decides about EBADF. */
  lemma LookupDecides(files: nat -> seq<byte>, root: nat, states: seq<State>, l: nat, x: nat, k: nat, i: nat,
          fh: nat, o: int, z: int)
    requires Run(files, root, states) && Serving(states, l, k, i, fh, o, z) && l <= x < k
    requires i in states[k].threads && states[k].threads[i].Done?
    requires states[x].threads[i].ReadLoad? && i in states[x + 1].threads && !states[x + 1].threads[i].ReadLoad?
    ensures states[k].threads[i] == Done(EBADF) <==> Refused(states, x, i, fh)
  {
    RefusedAtEnd(files, root, states, l, k, i, fh, o, z);
    hide Run, Refused;
    forall m | l <= m < k && Refused(states, m, i, fh) ensures m == x {
      OneLookup(files, root, states, l, x, m, k, i, fh, o, z);
    }
  }

  lemma OneLookup(files: nat -> seq<byte>, root: nat, states: seq<State>, l: nat, x: nat, m: nat, k: nat, i: nat,
          fh: nat, o: int, z: int)
    requires Run(files, root, states) && Serving(states, l, k, i, fh, o, z) && l <= x < k && l <= m < k
    requires states[x].threads[i].ReadLoad? && i in states[x + 1].threads && !states[x + 1].threads[i].ReadLoad?
    requires Refused(states, m, i, fh)
    ensures m == x
  {
    hide Run;
    if m < x {
      NoLoadAgain(files, root, states, l, m + 1, x, i, fh, o, z);
    } else if x < m {
      NoLoadAgain(files, root, states, l, x + 1, m, i, fh, o, z);
    }
  }

  lemma {:induction false} NoLoadAgain(files: nat -> seq<byte>, root: nat, states: seq<State>, l: nat, x: nat, y: nat,
          i: nat, fh: nat, o: int, z: int)
    requires Run(files, root, states) && Serving(states, l, y, i, fh, o, z) && l <= x <= y
    requires i in states[x].threads && !states[x].threads[i].ReadLoad?
    ensures i in states[y].threads && !states[y].threads[i].ReadLoad?
    decreases y - x
  {
    hide Run;
    if x < y {
      ReadSoFar(files, root, states, l, x, i, fh, o, z);
      LeavesLoad(files, root, states, x, i, fh, o, z);
      NoLoadAgain(files, root, states, l, x + 1, y, i, fh, o, z);
    }
  }

  lemma LeavesLoad(files: nat -> seq<byte>, root: nat, states: seq<State>, x: nat, i: nat, fh: nat, o: int, z: int)
    requires Run(files, root, states) && x + 1 < |states| && i in states[x].threads
    requires ReadRequest(states[x].threads[i], fh, o, z)
    requires !states[x].threads[i].Done? && !states[x].threads[i].ReadLoad?
    ensures i in states[x + 1].threads && !states[x + 1].threads[i].ReadLoad?
  {
    RunNext(files, root, states, x);
    hide Run, Inv, Next, Books, Step, Grown;
    ThreadNext(files, states[x], states[x + 1], i);
    if Step(files, states[x], i, states[x + 1]) {
      ReadRequestStep(files, states[x], i, states[x + 1], fh, o, z);
    }
  }

  /* ---------- Open, Lookup and Forget: what they come to ---------- */

  datatype Request = OpenOf(id: nat) | ForgetOf(id: nat) | LookupOf(parent: nat)

  predicate Begins(q: Request, th: Thread) {
    match q
    case OpenOf(id) => th == CtxLoad(id, Opening)
    case ForgetOf(id) => th == CtxLoad(id, Forgetting)
    case LookupOf(p) => th == Looking(p)
  }

  /** Thread state `th` is the request on its way or just ended. */
  predicate At(q: Request, th: Thread) {
    match q
    case OpenOf(id) =>
      || th == CtxLoad(id, Opening)
      || (th.CtxLock? && th.id == id && th.job == Opening)
      || (th.Holding? && th.id == id && th.job == Opening)
      || (th.GotHandle? && th.id == id)
      || (th.Closing? && th.res.Handle?)
      || (th.Done? && (th.res.Handle? || th.res == ENOENT))
    case ForgetOf(id) =>
      || th == CtxLoad(id, Forgetting)
      || (th.CtxLock? && th.id == id && th.job == Forgetting)
      || (th.Holding? && th.id == id && th.job == Forgetting)
      || ((th.Closing? || th.Done?) && th.res == NoReply)
    case LookupOf(p) =>
      || th == Looking(p)
      || ((th.EnsLoad? || th.EnsAdd? || th.EnsCas? || th.EnsStore? || th.EnsReload? || th.EnsDone?)
          && th.goal == ForLookup)
      || th.LookedUp? || th.Answering?
      || (th.Closing? && th.res.Entry?)
      || (th.Done? && (th.res.Entry? || th.res == ENOENT))
  }

  /** The answer that thread state `th` owes to something that has happened. */
  function Owed(q: Request, th: Thread): Option<Result> {
    match q
    case LookupOf(_) => if th.Looking? || (th.Done? && th.res == ENOENT) then None else Some(NoReply)
    case _ => if th.Closing? || th.Done? then Some(th.res) else None
  }

  /** The NodeID is not registered when thread state `th` looks it up. */
  predicate Unknown(s: State, th: Thread) {
    th.CtxLoad? && th.id !in s.registry
  }

  /** What must have happened, in a step from `s` to `s'` that takes the thread from `th` on, for the answer `r`. */
  predicate Happens(q: Request, s: State, s': State, th: Thread, r: Result) {
    match q
    case OpenOf(id) =>
      if r.Handle? then
        && th.GotHandle? && th.id == id && th.fh == r.fh && r.fh !in s.openedOn
        && r.fh in s'.openFiles && s'.openFiles[r.fh] == id
        && r.fh in s'.openedOn && s'.openedOn[r.fh] == th.n && Has(s', th.n, id)
      else r == ENOENT && Unknown(s, th) && th.id == id
    case ForgetOf(id) =>
      || (Unknown(s, th) && th.id == id)
      || (th.Holding? && th.id == id && id in s'.forgotten && id !in s'.registry)
    case LookupOf(p) => th == Looking(p) && p in s.registry
  }

  /** Each step of such a request leaves it one, and the answer is owed to that step or to an earlier one. */
  ghost predicate Follows(q: Request, s: State, s': State, th: Thread, th': Thread) {
    && At(q, th')
    && (Owed(q, th').Some? ==> Owed(q, th) == Owed(q, th') || Happens(q, s, s', th, Owed(q, th').value))
  }

  lemma OpenFollows(files: nat -> seq<byte>, s: State, i: nat, s': State, q: Request)
    requires Step(files, s, i, s') && ThreadOk(files, s, s.threads[i]) && IdsOk(s)
    requires q.OpenOf? && At(q, s.threads[i]) && !s.threads[i].Done?
    ensures Follows(q, s, s', s.threads[i], s'.threads[i])
  {
    hide EnsureMoves, RequestMoves, ReadMoves;
    OnlyContextMoves(files, s, i, s');
  }

  lemma ForgetFollows(files: nat -> seq<byte>, s: State, i: nat, s': State, q: Request)
    requires Step(files, s, i, s') && q.ForgetOf? && At(q, s.threads[i]) && !s.threads[i].Done?
    ensures Follows(q, s, s', s.threads[i], s'.threads[i])
  {
    hide EnsureMoves, RequestMoves, ReadMoves;
    OnlyContextMoves(files, s, i, s');
  }

  lemma OnlyContextMoves(files: nat -> seq<byte>, s: State, i: nat, s': State)
    requires Step(files, s, i, s')
    requires var th := s.threads[i]; th.CtxLoad? || th.CtxLock? || th.Holding? || th.GotHandle? || th.Closing?
    ensures ContextMoves(s, s.threads[i], s'.threads[i])
  {
  }

  lemma LookupFollows(files: nat -> seq<byte>, s: State, i: nat, s': State, q: Request)
    requires Step(files, s, i, s') && q.LookupOf? && At(q, s.threads[i]) && !s.threads[i].Done?
    ensures Follows(q, s, s', s.threads[i], s'.threads[i])
  {
  }

  lemma FollowsNext(files: nat -> seq<byte>, root: nat, states: seq<State>, m: nat, i: nat, q: Request)
    requires Run(files, root, states) && m + 1 < |states| && i in states[m].threads
    requires At(q, states[m].threads[i]) && !states[m].threads[i].Done?
    ensures i in states[m + 1].threads
            && Follows(q, states[m], states[m + 1], states[m].threads[i], states[m + 1].threads[i])
  {
    RunNext(files, root, states, m);
    RunThread(files, root, states, m, i);
    var s, s' := states[m], states[m + 1];
    assert IdsOk(s);
    hide Run, Inv, Next, Books, Step, Grown, ThreadOk, IdsOk;
    ThreadNext(files, s, s', i);
    if Step(files, s, i, s') {
      hide Follows, At;
      match q
      case OpenOf(_) => OpenFollows(files, s, i, s', q);
      case ForgetOf(_) => ForgetFollows(files, s, i, s', q);
      case LookupOf(_) => LookupFollows(files, s, i, s', q);
    }
  }

  /** At moment `m` of the request something happens that the answer `r` is owed to. */
  predicate HappensAt(q: Request, states: seq<State>, m: nat, i: nat, r: Result) {
    m + 1 < |states| && i in states[m].threads && Happens(q, states[m], states[m + 1], states[m].threads[i], r)
  }

  lemma {:induction false} RequestSoFar(files: nat -> seq<byte>, root: nat, states: seq<State>, j: nat, k: nat, i: nat,
          q: Request)
    requires Run(files, root, states) && InFlight(states, j, k, i) && i in states[j].threads
    requires Begins(q, states[j].threads[i])
    ensures At(q, states[k].threads[i])
    ensures var r := Owed(q, states[k].threads[i]);
            r.Some? ==> exists m :: j <= m < k && HappensAt(q, states, m, i, r.value)
    decreases k
  {
    hide Run, Happens;
    if j < k {
      RequestSoFar(files, root, states, j, k - 1, i, q);
      FollowsNext(files, root, states, k - 1, i, q);
      hide At, Owed;
      var r := Owed(q, states[k].threads[i]);
      if r.Some? && Owed(q, states[k - 1].threads[i]) != r {
        assert HappensAt(q, states, k - 1, i, r.value);
      }
    }
  }

  /**
   How an Open ends: with a handle, new, that it has itself stored for the NodeID asked for, whose node's
   context it held; or in ENOENT, because the NodeID was not registered when it looked.
   */
  lemma OpenOutcome(files: nat -> seq<byte>, root: nat, states: seq<State>, j: nat, k: nat, i: nat, id: nat)
    requires Run(files, root, states) && InFlight(states, j, k, i) && i in states[j].threads
    requires states[j].threads[i] == CtxLoad(id, Opening) && states[k].threads[i].Done?
    ensures states[k].threads[i].res.Handle? || states[k].threads[i].res == ENOENT
    ensures exists m :: j <= m < k && HappensAt(OpenOf(id), states, m, i, states[k].threads[i].res)
  {
    hide Run, HappensAt, Happens;
    RequestSoFar(files, root, states, j, k, i, OpenOf(id));
  }

  /** How a Forget ends: the NodeID was not registered when it looked, or has been forgotten and stays so. */
  lemma ForgetOutcome(files: nat -> seq<byte>, root: nat, states: seq<State>, j: nat, k: nat, l: nat, i: nat, id: nat)
    requires Run(files, root, states) && InFlight(states, j, k, i) && i in states[j].threads
    requires states[j].threads[i] == CtxLoad(id, Forgetting) && states[k].threads[i].Done? && k <= l < |states|
    ensures || (exists m :: j <= m < k && i in states[m].threads && Unknown(states[m], states[m].threads[i]))
            || (id in states[l].forgotten && id !in states[l].registry)
  {
    var q := ForgetOf(id);
    hide Run, HappensAt, Happens, Unknown;
    RequestSoFar(files, root, states, j, k, i, q);
    hide InFlight, At, Owed;
    var m :| j <= m < k && HappensAt(q, states, m, i, NoReply);
    ForgetHappens(states, m, i, id);
    if id in states[m + 1].forgotten {
      RunForgotten(files, root, states, m + 1, l, id);
      ForgottenIsGone(files, root, states, l, id);
    }
  }

  lemma ForgetHappens(states: seq<State>, m: nat, i: nat, id: nat)
    requires HappensAt(ForgetOf(id), states, m, i, NoReply)
    ensures m + 1 < |states| && i in states[m].threads
    ensures Unknown(states[m], states[m].threads[i]) || id in states[m + 1].forgotten
  {
  }

  lemma ForgottenIsGone(files: nat -> seq<byte>, root: nat, states: seq<State>, l: nat, id: nat)
    requires Run(files, root, states) && l < |states| && id in states[l].forgotten
    ensures id !in states[l].registry
  {
    RunBooks(files, root, states, l);
    hide Run;
    assert Dead(states[l], id);
  }

  lemma {:induction false} RunForgotten(files: nat -> seq<byte>, root: nat, states: seq<State>, j: nat, k: nat, id: nat)
    requires Run(files, root, states) && j <= k < |states| && id in states[j].forgotten
    ensures id in states[k].forgotten
    decreases k
  {
    if j < k {
      RunForgotten(files, root, states, j, k - 1, id);
      assert Next(files, states[k - 1], states[k - 1 + 1]);
      hide EnsureMoves, RequestMoves, ContextMoves, ReadMoves, Init;
    }
  }

  /**
   How a Lookup ends: in ENOENT, or with a node and the NodeID that this node has for good, and then the
   parent was registered when it looked.
   */
  lemma LookupOutcome(files: nat -> seq<byte>, root: nat, states: seq<State>, j: nat, k: nat, i: nat, p: nat)
    requires Run(files, root, states) && InFlight(states, j, k, i) && i in states[j].threads
    requires states[j].threads[i] == Looking(p) && states[k].threads[i].Done?
    ensures var res := states[k].threads[i].res;
            || res == ENOENT
            || (res.Entry? && Has(states[k], res.node, res.id) && exists m :: j <= m < k && p in states[m].registry)
  {
    hide Run, HappensAt, Happens;
    RequestSoFar(files, root, states, j, k, i, LookupOf(p));
    EntryIsHad(files, root, states, k, i);
    var res := states[k].threads[i].res;
    hide Has;
    if res != ENOENT {
      var m :| j <= m < k && HappensAt(LookupOf(p), states, m, i, NoReply);
      ParentWasKnown(states, m, i, p);
    }
  }

  lemma ParentWasKnown(states: seq<State>, m: nat, i: nat, p: nat)
    requires HappensAt(LookupOf(p), states, m, i, NoReply)
    ensures m < |states| && p in states[m].registry
  {
  }

  lemma EntryIsHad(files: nat -> seq<byte>, root: nat, states: seq<State>, k: nat, i: nat)
    requires Run(files, root, states) && k < |states| && i in states[k].threads && states[k].threads[i].Done?
    ensures var res := states[k].threads[i].res; res.Entry? ==> Has(states[k], res.node, res.id)
  {
    RunThread(files, root, states, k, i);
    hide Run;
  }

  /* ---------- No request gets stuck ---------- */

  /** The state after thread `i` has moved to `th'`, leaving `cached` in its node's cache if it is reading. */
  function Moved(s: State, i: nat, th': Thread, cached: seq<Cache.Range>): State
    requires i in s.threads
  {
    var th := s.threads[i];
    State(NewIds(s, th), if th.EnsAdd? then s.lastId + 1 else s.lastId, NewRegistry(s, th), NewOpenFiles(s, th),
          if th.Holding? && th.job.Opening? then s.lastFh + 1 else s.lastFh,
          if th.InRead? then s.caches[th.n := cached] else s.caches, NewLocks(s, th),
          s.threads[i := th'], if th.GotHandle? then s.openedOn[th.fh := th.n] else s.openedOn,
          if th.Holding? && th.job.Forgetting? then s.forgotten + {th.id} else s.forgotten,
          if th.Releasing? then s.released + {th.fh} else s.released)
  }

  lemma MovedIsStep(files: nat -> seq<byte>, s: State, i: nat, th': Thread, cached: seq<Cache.Range>)
    requires i in s.threads
    requires var th := s.threads[i];
             || EnsureMoves(s, th, th') || RequestMoves(s, th, th') || ContextMoves(s, th, th')
             || (th.InRead? && ReadMoves(files, s, th, th', cached))
    requires s.threads[i].InRead? ==> ReadMoves(files, s, s.threads[i], th', cached)
    ensures Step(files, s, i, Moved(s, i, th', cached))
  {
    hide EnsureMoves, RequestMoves, ContextMoves, ReadMoves;
  }

  lemma ReaderNotStuck(files: nat -> seq<byte>, s: State, th: Thread) returns (th': Thread, cached: seq<Cache.Range>)
    requires CachesOk(files, s) && ThreadOk(files, s, th) && th.InRead?
    ensures ReadMoves(files, s, th, th', cached)
  {
    var rd := th.rd;
    cached := Cached(s, th.n);
    if rd.phase.Returned? {
      th' := Closing(th.n, Bytes(th.fh, rd.offset, rd.size, rd.phase.data));
    } else if rd.phase.Failed? {
      th' := Closing(th.n, EIO);
    } else {
      var act, ranges', rd' := Cache.ReaderCanStep(files(th.n), Cached(s, th.n), rd);
      th', cached := th.(rd := rd'), ranges';
    }
  }

  lemma HolderHasLock(files: nat -> seq<byte>, s: State, i: nat)
    requires LocksOk(s) && i in s.threads && s.threads[i].Closing?
    ensures Locks(s, s.threads[i].n) > 0
  {
    assert i in Holders(s.threads, s.threads[i].n);
    assert Locks(s, s.threads[i].n) == |Holders(s.threads, s.threads[i].n)|;
  }

  lemma ThreadNotStuck(files: nat -> seq<byte>, s: State, th: Thread) returns (th': Thread)
    requires ThreadOk(files, s, th) && !th.InRead? && (th.Closing? ==> Locks(s, th.n) > 0)
    ensures EnsureMoves(s, th, th') || RequestMoves(s, th, th') || ContextMoves(s, th, th')
  {
    match th
    case Idle => th' := Releasing(0);
    case Looking(_) => th' := Done(ENOENT);
    case EnsLoad(n, g) => th' := if n in s.ids then EnsDone(n, g, s.ids[n]) else EnsAdd(n, g);
    case EnsAdd(n, g) => th' := EnsCas(n, g, s.lastId + 1);
    case EnsCas(n, g, id) => th' := if n in s.ids then EnsReload(n, g) else EnsStore(n, g, id);
    case EnsStore(n, g, id) => th' := EnsDone(n, g, id);
    case EnsReload(n, g) => th' := EnsDone(n, g, s.ids[n]);
    case EnsDone(n, g, _) => th' := if g.ForLookup? then LookedUp(n) else Holding(g.id, g.dir, Scanning);
    case LookedUp(n) => th' := Answering(n);
    case Answering(n) => th' := Closing(n, Entry(n, s.ids[n]));
    case CtxLoad(id, job) => th' := if id in s.registry then CtxLock(id, s.registry[id], job) else Done(NotFound(job));
    case CtxLock(id, n, job) =>
      th' := if job.Reading? then InRead(id, n, job.fh, Cache.Reader(job.offset, job.size, Cache.Start))
             else Holding(id, n, job);
    case Holding(id, n, job) => th' := if job.Opening? then GotHandle(id, n, s.lastFh + 1) else Closing(n, NoReply);
    case GotHandle(_, n, fh) => th' := Closing(n, Handle(fh));
    case InRead(_, _, _, _) =>
    case Closing(_, res) => th' := Done(res);
    case ReadLoad(fh, o, z) =>
      th' := if fh in s.openFiles then CtxLoad(s.openFiles[fh], Reading(fh, o, z)) else Done(EBADF);
    case Releasing(_) => th' := Done(NoReply);
    case Done(_) => th' := Idle;
  }

  /** At every moment of a run every thread can make a step: no request blocks another, or itself. */
  lemma NeverStuck(files: nat -> seq<byte>, root: nat, states: seq<State>, k: nat, i: nat) returns (s': State)
    requires Run(files, root, states) && k < |states| && i in states[k].threads
    ensures Step(files, states[k], i, s')
  {
    var s := states[k];
    RunInv(files, root, states, k);
    assert ThreadOk(files, s, s.threads[i]) && CachesOk(files, s) && LocksOk(s);
    hide Run, Inv, ThreadOk, CachesOk, LocksOk, EnsureMoves, RequestMoves, ContextMoves, ReadMoves, Step;
    if s.threads[i].InRead? {
      var th', cached := ReaderNotStuck(files, s, s.threads[i]);
      MovedIsStep(files, s, i, th', cached);
      s' := Moved(s, i, th', cached);
    } else {
      if s.threads[i].Closing? {
        HolderHasLock(files, s, i);
      }
      var th' := ThreadNotStuck(files, s, s.threads[i]);
      MovedIsStep(files, s, i, th', []);
      s' := Moved(s, i, th', []);
    }
  }
}
