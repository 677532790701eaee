/**
 Node contexts: a context takes a read lock on its node and keeps a stack of clean-up callbacks
 that Close unwinds.
 */
module Contexts {

  /** The reader side of a node's lock. */
  class RWLock {
    var readers: nat

    constructor ()
      ensures readers == 0
    {
      readers := 0;
    }
  }

  /** A callback: releasing a read lock, or something else that locks do not see. */
  datatype Callback = RUnlock(lock: RWLock) | Other(tag: nat)

  /** How often a list of callbacks releases a lock. */
  ghost function Releases(fns: seq<Callback>, l: RWLock): nat {
    if fns == [] then 0 else Releases(fns[1..], l) + (if fns[0] == RUnlock(l) then 1 else 0)
  }

  ghost function Locks(fns: seq<Callback>): set<RWLock> {
    set f | f in fns && f.RUnlock? :: f.lock
  }

  function Reversed(fns: seq<Callback>): seq<Callback> {
    if fns == [] then [] else Reversed(fns[1..]) + [fns[0]]
  }

  /** The last pushed comes first, and each once. */
  lemma {:induction false} ReversedAt(fns: seq<Callback>)
    ensures |Reversed(fns)| == |fns|
    ensures forall k :: 0 <= k < |fns| ==> Reversed(fns)[k] == fns[|fns| - 1 - k]
  {
    if fns != [] {
      ReversedAt(fns[1..]);
    }
  }

  /** A lock is released as often as its release was pushed. */
  lemma {:induction false} ReleasesCount(fns: seq<Callback>, l: RWLock)
    ensures Releases(fns, l) == multiset(fns)[RUnlock(l)]
  {
    if fns != [] {
      ReleasesCount(fns[1..], l);
      assert fns == [fns[0]] + fns[1..];
    }
  }

  class NodeContext {
    const lock: RWLock
    var closeFns: seq<Callback>

    /** NewNodeContext: takes the read lock and pushes its release. */
    constructor (lock: RWLock)
      modifies lock
      ensures this.lock == lock && closeFns == [RUnlock(lock)] && lock.readers == old(lock.readers) + 1
    {
      this.lock := lock;
      closeFns := [RUnlock(lock)];
      new;
      lock.readers := lock.readers + 1;
    }

    method AddClose(fn: Callback)
      modifies this
      ensures closeFns == old(closeFns) + [fn]
    {
      closeFns := closeFns + [fn];
    }
  }

  ghost function Pending(ctx: NodeContext?): seq<Callback>
    reads ctx
  {
    if ctx == null then [] else ctx.closeFns
  }

  /**
   Close: runs each pushed callback exactly once, the last pushed first, and forgets them, so that
   a second Close (or one of nil) runs nothing.  Every lock is released as often as was pushed.
   */
  method Close(ctx: NodeContext?) returns (ran: seq<Callback>)
    requires forall l :: l in Locks(Pending(ctx)) ==> l.readers >= Releases(Pending(ctx), l)
    modifies ctx, Locks(Pending(ctx))
    ensures ran == Reversed(old(Pending(ctx))) && Pending(ctx) == []
    ensures |ran| == |old(Pending(ctx))|
    ensures forall k :: 0 <= k < |ran| ==> ran[k] == old(Pending(ctx))[|ran| - 1 - k]
    ensures forall l :: l in old(Locks(Pending(ctx))) ==>
              l.readers == old(l.readers) - multiset(old(Pending(ctx)))[RUnlock(l)]
  {
    ran := [];
    if ctx == null {
      return;
    }
    ghost var fns := ctx.closeFns;
    var i := |ctx.closeFns|;
    assert fns[i..] == [];
    while i > 0
      invariant 0 <= i <= |fns| && ctx.closeFns == fns
      invariant ran == Reversed(fns[i..])
      invariant forall l :: l in Locks(fns) ==> l.readers == old(l.readers) - Releases(fns[i..], l)
    {
      i := i - 1;
      var fn := ctx.closeFns[i];
      assert fns[i..][1..] == fns[i + 1..] && fns[i..][0] == fn;
      if fn.RUnlock? {
        assert fn in fns;
        SuffixReleases(fns, i, fn.lock);
        fn.lock.readers := fn.lock.readers - 1;
      }
      ran := ran + [fn];
    }
    assert fns[0..] == fns;
    ctx.closeFns := [];
    ReversedAt(fns);
    forall l ensures Releases(fns, l) == multiset(fns)[RUnlock(l)] {
      ReleasesCount(fns, l);
    }
  }

  lemma {:induction false} SuffixReleases(fns: seq<Callback>, i: nat, l: RWLock)
    requires i <= |fns|
    ensures Releases(fns[i..], l) <= Releases(fns, l)
    decreases i
  {
    if i == 0 {
      assert fns[0..] == fns;
    } else {
      assert fns[1..][i - 1..] == fns[i..];
      SuffixReleases(fns[1..], i - 1, l);
    }
  }

  /**
   IterChildren: `seen` is the lock count that each callback finds, one more than before, and all locks
   are as before at the end.
   */
  method IterChildren(children: seq<RWLock>) returns (visited: seq<RWLock>, seen: seq<nat>)
    modifies children
    ensures visited == children && |seen| == |children|
    ensures forall i :: 0 <= i < |children| ==> seen[i] == old(children[i].readers) + 1
    ensures forall l :: l in children ==> l.readers == old(l.readers)
  {
    visited, seen := [], [];
    for i := 0 to |children|
      invariant visited == children[..i] && |seen| == i
      invariant forall k :: 0 <= k < i ==> seen[k] == old(children[k].readers) + 1
      invariant forall l :: l in children ==> l.readers == old(l.readers)
    {
      var child := children[i];
      var ctx := new NodeContext(child);
      visited, seen := visited + [child], seen + [child.readers];
      assert Releases(ctx.closeFns, child) == 1;
      assert Locks(ctx.closeFns) == {child};
      var ran := Close(ctx);
    }
  }
}
