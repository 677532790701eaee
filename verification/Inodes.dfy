/**
 The inode's objects: adapters with their health marks, the pool that fails over between them,
 the range cache with its own byte arrays, and `Inode.Read`, whose adapters all share one buffer.
 Each method is tied to the value-level definitions in Failover and Cache.
 */
module Inodes {
  import opened Common
  import F = Failover
  import Cache

  class InodeAdapter {
    const id: nat
    var isHealthy: bool
    var failCount: nat
    var lastAttempt: int

    constructor (id: nat)
      ensures this.id == id && View() == F.FreshHealth()
    {
      this.id := id;
      isHealthy := true;
      failCount := 0;
      lastAttempt := 0;
    }

    ghost function View(): F.Health
      reads this
    {
      F.Health(isHealthy, failCount, lastAttempt)
    }

    method MarkFailed(now: int)
      modifies this
      ensures View() == F.MarkFailed(old(View()), now)
    {
      isHealthy := false;
      failCount := failCount + 1;
      lastAttempt := now;
    }

    method MarkHealthy()
      modifies this
      ensures View() == F.MarkHealthy(old(View()))
    {
      isHealthy := true;
      failCount := 0;
    }

    method ShouldRetry(now: int) returns (retry: bool)
      ensures retry == F.ShouldRetry(View(), now)
    {
      if isHealthy {
        return true;
      }
      if failCount >= F.MAX_RETRIES {
        return false;
      }
      return now - lastAttempt > failCount * F.SECOND;
    }

    /** The test by which the pool takes an adapter into its list. */
    method Due(now: int) returns (due: bool)
      ensures due == F.ShouldRetry(View(), now)
    {
      if isHealthy {
        return true;
      }
      due := ShouldRetry(now);
    }
  }

  /**
   What an adapter does when asked to read: whether it reports success, the byte count it reports,
   and what it writes over the front of the buffer.
   */
  datatype Reply = Reply(works: bool, count: int, image: seq<byte>)

  function Overlay(buf: seq<byte>, image: seq<byte>): (r: seq<byte>)
    ensures |r| == |buf|
    ensures forall k :: 0 <= k < |buf| ==> r[k] == if k < |image| then image[k] else buf[k]
  {
    var m := Min(|buf|, |image|);
    image[..m] + buf[m..]
  }

  /** The closure that `Inode.Read` hands to the pool: one buffer and one count for all adapters. */
  class ReadOperation {
    const replies: seq<Reply>
    const buf: array<byte>
    var bytesRead: int

    constructor (replies: seq<Reply>, buf: array<byte>)
      ensures this.replies == replies && this.buf == buf
    {
      this.replies := replies;
      this.buf := buf;
      bytesRead := 0;
    }

    /** The call of adapter `i`, successful or not, leaves its traces in the shared variables. */
    method Run(i: nat) returns (works: bool)
      requires i < |replies|
      modifies this, buf
      ensures works == replies[i].works && bytesRead == replies[i].count
      ensures buf[..] == Overlay(old(buf[..]), replies[i].image)
    {
      var image := replies[i].image;
      var m := Min(buf.Length, |image|);
      for k := 0 to m
        invariant buf[..k] == image[..k]
        invariant buf[k..] == old(buf[..])[k..]
      {
        buf[k] := image[k];
        assert buf[..k + 1] == buf[..k] + [buf[k]];
        assert image[..k + 1] == image[..k] + [image[k]];
      }
      assert buf[..] == buf[..m] + buf[m..];
      bytesRead := replies[i].count;
      works := replies[i].works;
    }
  }

  class AdapterPool {
    const primary: InodeAdapter
    const backups: seq<InodeAdapter>

    /** The first adapter is the primary, the rest are backups. */
    constructor (n: nat)
      requires n > 0
      ensures Valid() && |All()| == n && View() == F.FreshPool(n)
      ensures fresh(All())
    {
      var first := new InodeAdapter(0);
      var rest: seq<InodeAdapter> := [];
      for i := 1 to n
        invariant |rest| == i - 1 && fresh(rest)
        invariant first.View() == F.FreshHealth()
        invariant forall k :: 0 <= k < |rest| ==> rest[k].id == k + 1 && rest[k].View() == F.FreshHealth()
      {
        var backup := new InodeAdapter(i);
        rest := rest + [backup];
      }
      primary, backups := first, rest;
      new;
      assert forall i :: 0 <= i < n ==> All()[i].View() == F.FreshHealth();
    }

    ghost function All(): seq<InodeAdapter> {
      [primary] + backups
    }

    /** Adapters are known by their position. */
    ghost predicate Valid() {
      forall i :: 0 <= i < |All()| ==> All()[i].id == i
    }

    ghost function View(): (p: F.Pool)
      reads All()
      ensures |p| == |All()|
      ensures forall i :: 0 <= i < |All()| ==> p[i] == All()[i].View()
    {
      seq(|All()|, i requires 0 <= i < |All()| reads All() => All()[i].View())
    }

    /** The adapters to try: those healthy or due for a retry, or else the primary. */
    method Select(env: F.Env) returns (adapters: seq<InodeAdapter>)
      requires Valid() && F.Fits(env, |All()|)
      ensures var list := F.Selected(View(), env);
              && |adapters| == |list| && F.InRange(list, |All()|)
              && forall k :: 0 <= k < |list| ==> adapters[k] == All()[list[k]]
    {
      ghost var list: seq<nat> := [];
      ghost var p := View();
      hide F.Candidates, F.ShouldRetry, AdapterPool.View;
      assert p[0] == primary.View() && |p| == |backups| + 1;
      adapters := [];
      var due := primary.Due(env.considered[0]);
      F.CandidatesCons(p, env, 0);
      if due {
        adapters, list := adapters + [primary], list + [0];
      }
      for i := 0 to |backups|
        invariant |adapters| == |list| && F.InRange(list, |p|)
        invariant forall k :: 0 <= k < |list| ==> adapters[k] == All()[list[k]]
        invariant F.Candidates(p, env, 0) == list + F.Candidates(p, env, i + 1)
      {
        var backup := backups[i];
        F.CandidatesCons(p, env, i + 1);
        assert All()[i + 1] == backup && p[i + 1] == backup.View();
        due := backup.Due(env.considered[i + 1]);
        if due {
          adapters, list := adapters + [backup], list + [i + 1];
        }
      }
      F.NoCandidatesLeft(p, env);
      assert F.Candidates(p, env, 0) == list;
      if |adapters| == 0 {
        adapters, list := [primary], [0];
      }
    }

    /** Calls one adapter and marks it. */
    method CallOne(adapter: InodeAdapter, op: ReadOperation, env: F.Env) returns (works: bool)
      requires Valid() && adapter in All() && F.Fits(env, |All()|) && |op.replies| == |All()|
      requires adapter.id < |All()| && All()[adapter.id] == adapter
      requires env.works[adapter.id] == op.replies[adapter.id].works
      modifies adapter, op, op.buf
      ensures works == env.works[adapter.id]
      ensures View() == old(View())[adapter.id := F.After(old(View())[adapter.id], env, adapter.id)]
      ensures op.bytesRead == op.replies[adapter.id].count
      ensures op.buf[..] == Overlay(old(op.buf[..]), op.replies[adapter.id].image)
    {
      works := op.Run(adapter.id);
      if works {
        adapter.MarkHealthy();
      } else {
        adapter.MarkFailed(env.stamped[adapter.id]);
      }
    }

    method TryOperation(op: ReadOperation, env: F.Env) returns (outcome: F.Outcome)
      requires Valid() && F.Fits(env, |All()|) && |op.replies| == |All()|
      requires forall i :: 0 <= i < |All()| ==> env.works[i] == op.replies[i].works
      modifies All(), op, op.buf
      ensures View() == F.TryOperation(old(View()), env).pool
      ensures outcome == F.TryOperation(old(View()), env).outcome
      ensures outcome.Success? ==>
                var w := outcome.winner;
                && w < |op.replies| && op.replies[w].works && op.bytesRead == op.replies[w].count
                && forall k :: 0 <= k < op.buf.Length && k < |op.replies[w].image| ==>
                     op.buf[k] == op.replies[w].image[k]
    {
      ghost var p0 := View();
      var adapters := Select(env);
      ghost var list := F.Selected(p0, env);
      ghost var c := F.TryOperation(p0, env);
      assert list[0..] == list;
      for k := 0 to |adapters|
        invariant F.Attempt(View(), list[k..], env).pool == c.pool
        invariant F.Attempt(View(), list[k..], env).outcome == c.outcome
      {
        var adapter := adapters[k];
        assert list[k..][0] == adapter.id && list[k..][1..] == list[k + 1..];
        if env.cancelled[adapter.id] {
          return F.Cancelled;
        }
        var works := CallOne(adapter, op, env);
        if works {
          return F.Success(adapter.id);
        }
      }
      outcome := F.AllFailed;
    }
  }

  /* ---------- The cache ---------- */

  datatype CachedRange = CachedRange(start: int, end: int, data: array<byte>)

  /** A Go slice: a window into an array that others may share. */
  datatype Slice = Slice(base: array<byte>, lo: nat, hi: nat)

  ghost predicate InBounds(s: Slice) {
    s.lo <= s.hi <= s.base.Length
  }

  ghost function Bytes(s: Slice): seq<byte>
    requires InBounds(s)
    reads s.base
  {
    s.base[s.lo..s.hi]
  }

  datatype Lookup = Found(slice: Slice) | NotCached | Panics

  class DataCache {
    var ranges: seq<CachedRange>

    constructor ()
      ensures ranges == [] && Valid()
    {
      ranges := [];
    }

    /** Every range is as `Store` makes it. */
    ghost predicate Valid()
      reads this, Storage()
    {
      Cache.AllStored(View())
    }

    ghost function Storage(): set<array<byte>>
      reads this
    {
      set r | r in ranges :: r.data
    }

    ghost function View(): (v: seq<Cache.Range>)
      reads this, Storage()
      ensures |v| == |ranges|
      ensures forall i :: 0 <= i < |v| ==> v[i] == Cache.Range(ranges[i].start, ranges[i].end, ranges[i].data[..])
    {
      seq(|ranges|, i requires 0 <= i < |ranges| reads this, Storage() =>
        assert ranges[i] in ranges; Cache.Range(ranges[i].start, ranges[i].end, ranges[i].data[..]))
    }

    lemma PanicsIff(offset: int, size: int)
      requires Valid()
      ensures Cache.Request(offset, size) ==>
                (Cache.Get(View(), offset, size) == Cache.OutOfBounds <==> Cache.Overruns(View(), offset, size))
    {
      if Cache.Request(offset, size) {
        Cache.GetOutOfBoundsIff(View(), offset, size);
      }
    }

    /**
     A hit is a window into the cache's own array.  The slice indices go out of bounds exactly when the
     end of the request overflows and that of the first range that matches does not.
     */
    method Get(offset: int, size: int) returns (r: Lookup)
      requires Valid()
      ensures Cache.Request(offset, size) ==> (r.Panics? <==> Cache.Overruns(View(), offset, size))
      ensures r.Found? ==>
                && InBounds(r.slice) && r.slice.base in Storage()
                && Cache.Get(View(), offset, size) == Cache.Hit(Bytes(r.slice))
      ensures r.NotCached? ==> Cache.Get(View(), offset, size) == Cache.Miss
      ensures r.Panics? ==> Cache.Get(View(), offset, size) == Cache.OutOfBounds
    {
      hide DataCache.Valid, Cache.Overruns;
      PanicsIff(offset, size);
      var end := Cache.Wrap(offset + size);
      assert View()[0..] == View();
      for i := 0 to |ranges|
        invariant Cache.Get(View(), offset, size) == Cache.Get(View()[i..], offset, size)
      {
        var c := ranges[i];
        assert View()[i..][0] == View()[i] && View()[i..][1..] == View()[i + 1..];
        if c.start <= offset && c.end >= end {
          var lo := Cache.Wrap(offset - c.start);
          var hi := Cache.Wrap(lo + size);
          if 0 <= lo <= hi <= c.data.Length {
            return Found(Slice(c.data, lo, hi));
          }
          return Panics;
        }
      }
      r := NotCached;
    }

    method IsCached(offset: int, size: int) returns (cached: bool)
      ensures cached == Cache.IsCached(View(), offset, size)
    {
      var end := Cache.Wrap(offset + size);
      for i := 0 to |ranges|
        invariant forall k :: 0 <= k < i ==> !Cache.Matches(View()[k], offset, size)
      {
        if ranges[i].start <= offset && ranges[i].end >= end {
          assert Cache.Matches(View()[i], offset, size);
          return true;
        }
      }
      cached := false;
    }

    /** Keeps a private copy of the first `n` bytes of the buffer. */
    method Store(offset: int, buf: array<byte>, n: nat)
      requires n <= buf.Length
      modifies this
      ensures View() == Cache.Store(old(View()), offset, buf[..n])
      ensures old(Valid()) && Cache.Fits64(offset) && n < Cache.LIMIT ==> Valid()
      ensures forall a :: a in Storage() ==> a in old(Storage()) || fresh(a)
    {
      if Valid() && Cache.Fits64(offset) && n < Cache.LIMIT {
        Cache.StoreKeepsStored(View(), offset, buf[..n]);
      }
      if n == 0 {
        return;
      }
      var data := new byte[n](i requires 0 <= i < n <= buf.Length reads buf => buf[i]);
      assert data[..] == buf[..n];
      ranges := ranges + [CachedRange(offset, Cache.Wrap(offset + n), data)];
    }

    method Clear()
      modifies this
      ensures ranges == [] && View() == [] && Valid()
    {
      ranges := [];
    }
  }

  /* ---------- Inode.Read ---------- */

  datatype ReadResult = Data(slice: Slice) | NoAdapters | OutOfBounds | ReadFailed(why: F.Outcome)

  /** What the FileAdapter interface asks of an adapter that reports success. */
  ghost predicate KeepsContract(r: Reply, size: nat) {
    r.works ==> 0 <= r.count <= size && r.count <= |r.image|
  }

  class Inode {
    const ino: nat
    const pool: AdapterPool?
    const cache: DataCache

    constructor (ino: nat, adapters: nat)
      ensures this.ino == ino && fresh(cache) && cache.ranges == [] && Valid()
      ensures adapters == 0 <==> pool == null
      ensures pool != null ==>
                pool.Valid() && |pool.All()| == adapters && fresh(pool.All()) && pool.View() == F.FreshPool(adapters)
    {
      this.ino := ino;
      var c := new DataCache();
      cache := c;
      if adapters == 0 {
        pool := null;
      } else {
        var p := new AdapterPool(adapters);
        pool := p;
      }
    }

    ghost predicate Valid()
      reads cache, cache.Storage()
    {
      (pool != null ==> pool.Valid()) && cache.Valid()
    }

    ghost function AdapterCount(): nat {
      if pool == null then 0 else |pool.All()|
    }

    ghost function Adapters(): set<InodeAdapter> {
      if pool == null then {} else set a | a in pool.All()
    }

    /**
     Read: from the cache if some range contains the request, otherwise from the adapters into a
     fresh buffer.  Whatever failing adapters wrote and reported, the bytes returned and the bytes
     cached are those of the adapter that worked, and the cached copy is a different array.
     */
    method Read(offset: int, size: nat, replies: seq<Reply>, env: F.Env) returns (r: ReadResult)
      requires Valid() && Cache.Request(offset, size)
      requires pool != null ==>
                 && F.Fits(env, |pool.All()|) && |replies| == |pool.All()|
                 && forall i :: 0 <= i < |replies| ==>
                      env.works[i] == replies[i].works && KeepsContract(replies[i], size)
      modifies cache, Adapters()
      ensures Valid()
      ensures r.NoAdapters? <==> pool == null
      ensures pool == null ==> cache.ranges == old(cache.ranges)
      ensures pool != null && !old(Cache.Get(cache.View(), offset, size)).Miss? ==>
                pool.View() == old(pool.View()) && cache.View() == old(cache.View())
      ensures pool != null ==>
                match old(Cache.Get(cache.View(), offset, size))
                case Hit(d) => r.Data? && InBounds(r.slice) && Bytes(r.slice) == d && r.slice.base in cache.Storage()
                case OutOfBounds => r.OutOfBounds?
                case Miss =>
                  var call := F.TryOperation(old(pool.View()), env);
                  && pool.View() == call.pool
                  && (!call.outcome.Success? ==> r == ReadFailed(call.outcome) && cache.View() == old(cache.View()))
                  && (call.outcome.Success? ==>
                        && r.Data? && InBounds(r.slice) && fresh(r.slice.base) && r.slice.base !in cache.Storage()
                        && call.outcome.winner < |replies|
                        && var w := replies[call.outcome.winner];
                        && 0 <= w.count <= |w.image| && Bytes(r.slice) == w.image[..w.count]
                        && cache.View() == Cache.Store(old(cache.View()), offset, w.image[..w.count]))
    {
      if pool == null {
        return NoAdapters;
      }
      ghost var v, p := cache.View(), pool.View();
      var cached := cache.Get(offset, size);
      assert cache.View() == v && pool.View() == p;
      if cached.Found? {
        return Data(cached.slice);
      }
      if cached.Panics? {
        return OutOfBounds;
      }
      assert Cache.Get(v, offset, size).Miss?;
      r := Fetch(offset, size, replies, env);
      hide F.TryOperation, F.Fits;
      if r.Data? {
        ghost var w := replies[F.TryOperation(p, env).outcome.winner];
        Cache.StoreKeepsStored(v, offset, w.image[..w.count]);
      }
    }

    /** A miss: the adapters fill a fresh buffer, and what the winner wrote is cached and returned. */
    method Fetch(offset: int, size: nat, replies: seq<Reply>, env: F.Env) returns (r: ReadResult)
      requires pool != null && pool.Valid() && F.Fits(env, |pool.All()|) && |replies| == |pool.All()|
      requires forall i :: 0 <= i < |replies| ==> env.works[i] == replies[i].works && KeepsContract(replies[i], size)
      modifies cache, Adapters()
      ensures var call := F.TryOperation(old(pool.View()), env);
              && pool.View() == call.pool
              && (!call.outcome.Success? ==> r == ReadFailed(call.outcome) && cache.View() == old(cache.View()))
              && (call.outcome.Success? ==>
                    && r.Data? && InBounds(r.slice) && fresh(r.slice.base) && r.slice.base !in cache.Storage()
                    && call.outcome.winner < |replies|
                    && var w := replies[call.outcome.winner];
                    && 0 <= w.count <= |w.image| && w.count <= size && Bytes(r.slice) == w.image[..w.count]
                    && cache.View() == Cache.Store(old(cache.View()), offset, w.image[..w.count]))
    {
      hide F.TryOperation, F.Fits, DataCache.Valid, Cache.Store;
      var buf := new byte[size](_ => 0);
      var op := new ReadOperation(replies, buf);
      ghost var v, kept := cache.View(), cache.Storage();
      var outcome := pool.TryOperation(op, env);
      assert cache.View() == v && cache.Storage() == kept;
      if !outcome.Success? {
        return ReadFailed(outcome);
      }
      assert KeepsContract(replies[outcome.winner], size);
      SameFront(buf[..], replies[outcome.winner].image, op.bytesRead);
      r := Keep(offset, buf, op.bytesRead);
    }

    /** The first `n` bytes of the buffer are cached, as a copy, and returned. */
    method Keep(offset: int, buf: array<byte>, n: nat) returns (r: ReadResult)
      requires n <= buf.Length
      modifies cache
      ensures r == Data(Slice(buf, 0, n)) && cache.View() == Cache.Store(old(cache.View()), offset, buf[..n])
      ensures forall a :: a in cache.Storage() ==> a in old(cache.Storage()) || fresh(a)
    {
      cache.Store(offset, buf, n);
      r := Data(Slice(buf, 0, n));
    }
  }

  lemma SameFront(s: seq<byte>, t: seq<byte>, n: int)
    requires 0 <= n <= |s| && n <= |t|
    requires forall k :: 0 <= k < |s| && k < |t| ==> s[k] == t[k]
    ensures s[..n] == t[..n]
  {
  }
}
