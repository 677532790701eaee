/**
 The adapter pool as a value: which adapters one operation tries, what it leaves behind, and
 what that adds up to over whole runs of operations made one after the other.

 Adapter 0 is the primary, the others are backups in list order.  Clock readings, answers of the
 adapters and cancellation are inputs, so every statement is about all of them.
 */
module Failover {

  const MAX_RETRIES: nat := 3
  const SECOND: nat := 1_000_000_000

  /** `lastAttempt` is in nanoseconds. */
  datatype Health = Health(isHealthy: bool, failCount: nat, lastAttempt: int)

  type Pool = seq<Health>

  function FreshHealth(): Health {
    Health(true, 0, 0)
  }

  function MarkFailed(h: Health, now: int): Health {
    Health(false, h.failCount + 1, now)
  }

  function MarkHealthy(h: Health): Health {
    Health(true, 0, h.lastAttempt)
  }

  /** The longer the run of failures, the longer the wait; after `MAX_RETRIES` of them, never. */
  predicate ShouldRetry(h: Health, now: int) {
    h.isHealthy || (h.failCount < MAX_RETRIES && now - h.lastAttempt > h.failCount * SECOND)
  }

  /**
   Everything one call meets, by adapter number: the clock when the adapter is considered, the
   clock when it is marked failed, whether its operation works, and whether cancellation is seen
   just before it would be tried.
   */
  datatype Env = Env(considered: seq<int>, stamped: seq<int>, works: seq<bool>, cancelled: seq<bool>)

  predicate Fits(env: Env, n: nat) {
    |env.considered| == n && |env.stamped| == n && |env.works| == n && |env.cancelled| == n
  }

  /** The adapters from number `i` on that are healthy or due for another try. */
  function Candidates(p: Pool, env: Env, i: nat): seq<nat>
    requires Fits(env, |p|) && i <= |p|
    decreases |p| - i
  {
    if i == |p| then []
    else if ShouldRetry(p[i], env.considered[i]) then [i] + Candidates(p, env, i + 1)
    else Candidates(p, env, i + 1)
  }

  lemma CandidatesCons(p: Pool, env: Env, i: nat)
    requires Fits(env, |p|) && i < |p|
    ensures Candidates(p, env, i) ==
            (if ShouldRetry(p[i], env.considered[i]) then [i] else []) + Candidates(p, env, i + 1)
  {
  }

  lemma NoCandidatesLeft(p: Pool, env: Env)
    requires Fits(env, |p|)
    ensures Candidates(p, env, |p|) == []
  {
  }

  /** If there is none, the primary is tried anyway. */
  function Selected(p: Pool, env: Env): seq<nat>
    requires Fits(env, |p|) && |p| > 0
  {
    var c := Candidates(p, env, 0);
    if c == [] then [0] else c
  }

  datatype Outcome = Success(winner: nat) | AllFailed | Cancelled

  /** The pool afterwards, the adapters called in order, and how the call ended. */
  datatype Call = Call(pool: Pool, trace: seq<nat>, outcome: Outcome)

  predicate InRange(list: seq<nat>, n: nat) {
    forall k :: 0 <= k < |list| ==> list[k] < n
  }

  predicate Increasing(list: seq<nat>) {
    forall a, b :: 0 <= a < b < |list| ==> list[a] < list[b]
  }

  function Attempt(p: Pool, list: seq<nat>, env: Env): Call
    requires Fits(env, |p|) && InRange(list, |p|)
    decreases |list|
  {
    if list == [] then Call(p, [], AllFailed)
    else
      var i := list[0];
      if env.cancelled[i] then Call(p, [], Cancelled)
      else if env.works[i] then Call(p[i := MarkHealthy(p[i])], [i], Success(i))
      else
        var rest := Attempt(p[i := MarkFailed(p[i], env.stamped[i])], list[1..], env);
        Call(rest.pool, [i] + rest.trace, rest.outcome)
  }

  function TryOperation(p: Pool, env: Env): Call
    requires Fits(env, |p|) && |p| > 0
  {
    SelectedInOrder(p, env);
    Attempt(p, Selected(p, env), env)
  }

  /* ---------- One call ---------- */

  lemma {:induction false} CandidatesInOrder(p: Pool, env: Env, i: nat)
    requires Fits(env, |p|) && i <= |p|
    ensures var c := Candidates(p, env, i);
            && InRange(c, |p|) && Increasing(c)
            && (forall k :: 0 <= k < |c| ==> i <= c[k])
            && (forall j :: j in c <==> i <= j < |p| && ShouldRetry(p[j], env.considered[j]))
    decreases |p| - i
  {
    if i < |p| {
      CandidatesInOrder(p, env, i + 1);
    }
  }

  lemma SelectedInOrder(p: Pool, env: Env)
    requires Fits(env, |p|) && |p| > 0
    ensures InRange(Selected(p, env), |p|) && Increasing(Selected(p, env)) && Selected(p, env) != []
    ensures forall j :: j in Selected(p, env) && j > 0 ==> ShouldRetry(p[j], env.considered[j])
  {
    CandidatesInOrder(p, env, 0);
  }

  /** What an adapter's health becomes if it is called. */
  function After(h: Health, env: Env, i: nat): Health
    requires Fits(env, |env.works|) && i < |env.works|
  {
    if env.works[i] then MarkHealthy(h) else MarkFailed(h, env.stamped[i])
  }

  /**
   The calls made are the first part of the list.  The last of them worked exactly when the whole
   call succeeded, all earlier ones failed; those called are marked, all others are untouched.
   */
  ghost predicate AttemptSpec(p: Pool, list: seq<nat>, env: Env, c: Call)
    requires Fits(env, |p|)
  {
    && |c.pool| == |p|
    && c.trace <= list && InRange(c.trace, |p|)
    && (forall k :: 0 <= k < |c.trace| ==> !env.cancelled[c.trace[k]])
    && (forall k :: 0 <= k < |c.trace| - 1 ==> !env.works[c.trace[k]])
    && (c.outcome.Success? <==> c.trace != [] && env.works[c.trace[|c.trace| - 1]])
    && (c.outcome.Success? ==> c.outcome.winner == c.trace[|c.trace| - 1])
    && (c.outcome.AllFailed? ==> c.trace == list)
    && (c.outcome.Cancelled? ==> |c.trace| < |list| && list[|c.trace|] < |p| && env.cancelled[list[|c.trace|]])
    && (forall i :: 0 <= i < |p| ==> c.pool[i] == if i in c.trace then After(p[i], env, i) else p[i])
  }

  lemma {:induction false} AttemptMeaning(p: Pool, list: seq<nat>, env: Env)
    requires Fits(env, |p|) && InRange(list, |p|) && Increasing(list)
    ensures AttemptSpec(p, list, env, Attempt(p, list, env))
    decreases |list|
  {
    if list != [] && !env.cancelled[list[0]] && !env.works[list[0]] {
      var i := list[0];
      var p' := p[i := MarkFailed(p[i], env.stamped[i])];
      AttemptMeaning(p', list[1..], env);
      AttemptAfterFailure(p, list, env, Attempt(p', list[1..], env));
    }
  }

  lemma AttemptAfterFailure(p: Pool, list: seq<nat>, env: Env, rest: Call)
    requires Fits(env, |p|) && list != [] && InRange(list, |p|) && Increasing(list)
    requires !env.cancelled[list[0]] && !env.works[list[0]]
    requires AttemptSpec(p[list[0] := MarkFailed(p[list[0]], env.stamped[list[0]])], list[1..], env, rest)
    ensures AttemptSpec(p, list, env, Call(rest.pool, [list[0]] + rest.trace, rest.outcome))
  {
    var i := list[0];
    var trace := [i] + rest.trace;
    TailFacts(list, rest.trace);
    assert |trace| == 1 + |rest.trace| && trace[0] == i;
    assert forall k :: 1 <= k < |trace| ==> trace[k] == rest.trace[k - 1];
    assert trace <= list;
    hide InRange, Increasing;
    assert InRange(trace, |p|) by { InRangeCons(i, rest.trace, |p|); }
    assert forall j :: j in trace <==> j == i || j in rest.trace;
  }

  lemma InRangeCons(i: nat, rest: seq<nat>, n: nat)
    requires i < n && InRange(rest, n)
    ensures InRange([i] + rest, n)
  {
  }

  lemma TailFacts(list: seq<nat>, rest: seq<nat>)
    requires list != [] && Increasing(list) && rest <= list[1..]
    ensures list[0] !in rest && [list[0]] + rest <= list
  {
    assert forall k :: 0 <= k < |rest| ==> rest[k] == list[1..][k] == list[k + 1];
  }

  /**
   `tryOperation`: the adapters called are an in-order part of primary and backups, at least one
   unless cancelled, and the outcome and the marks are as `AttemptSpec` says.
   */
  lemma TryOperationMeaning(p: Pool, env: Env)
    requires Fits(env, |p|) && |p| > 0
    ensures var c := TryOperation(p, env);
            && AttemptSpec(p, Selected(p, env), env, c)
            && Increasing(c.trace)
            && (c.trace == [] ==> c.outcome.Cancelled?)
            && (forall i :: i in c.trace && i > 0 ==> i < |p| && ShouldRetry(p[i], env.considered[i]))
  {
    SelectedInOrder(p, env);
    AttemptMeaning(p, Selected(p, env), env);
    var c := TryOperation(p, env);
    forall i | i in c.trace && i > 0 ensures i < |p| && ShouldRetry(p[i], env.considered[i]) {
      assert i in Selected(p, env);
    }
  }

  /** An adapter that a call may count on: healthy, or with fewer than 3 failures and a long enough wait. */
  predicate Usable(p: Pool, env: Env, j: nat)
    requires Fits(env, |p|) && j < |p|
  {
    var h := p[j];
    h.isHealthy || (h.failCount < 3 && env.considered[j] - h.lastAttempt > h.failCount * 1_000_000_000)
  }

  /** The adapters a call turns to: the usable ones, or the primary if there are none. */
  predicate TurnsTo(p: Pool, env: Env, j: nat)
    requires Fits(env, |p|) && j < |p|
  {
    Usable(p, env, j) || (j == 0 && forall i :: 0 <= i < |p| ==> !Usable(p, env, i))
  }

  lemma SelectedExactly(p: Pool, env: Env, j: nat)
    requires Fits(env, |p|) && 0 < |p| && j < |p|
    ensures j in Selected(p, env) <==> TurnsTo(p, env, j)
  {
    CandidatesInOrder(p, env, 0);
    var c := Candidates(p, env, 0);
    if c != [] {
      assert c[0] in c && Usable(p, env, c[0]);
    }
  }

  /** In an increasing list whatever comes before an element of a first part is in that part too. */
  lemma PrefixHasSmaller(list: seq<nat>, front: seq<nat>, w: nat, j: nat)
    requires Increasing(list) && front <= list && w in front && j in list && j <= w
    ensures j in front
  {
    var a :| 0 <= a < |list| && list[a] == j;
    var b :| 0 <= b < |front| && front[b] == w;
    assert list[b] == w;
  }

  /**
   Failover happens: exactly which adapters a call reaches.  All those it turns to before the winner
   have been called and failed, all of them if none works, and it fails only if none of them works
   or the call is cancelled.
   */
  lemma FailoverReachesAll(p: Pool, env: Env)
    requires Fits(env, |p|) && |p| > 0
    ensures var c := TryOperation(p, env);
            && (forall j :: j in c.trace ==> j < |p| && TurnsTo(p, env, j) && !env.cancelled[j])
            && (c.outcome.AllFailed? ==>
                  forall j :: 0 <= j < |p| && TurnsTo(p, env, j) ==> j in c.trace && !env.works[j])
            && (c.outcome.Success? ==>
                  && c.outcome.winner in c.trace && env.works[c.outcome.winner]
                  && forall j :: 0 <= j < c.outcome.winner && TurnsTo(p, env, j) ==> j in c.trace && !env.works[j])
            && (c.outcome.Cancelled? ==> exists j :: 0 <= j < |p| && TurnsTo(p, env, j) && env.cancelled[j])
  {
    TryOperationMeaning(p, env);
    SelectedInOrder(p, env);
    var c, list := TryOperation(p, env), Selected(p, env);
    forall j | 0 <= j < |p| ensures j in list <==> TurnsTo(p, env, j) {
      SelectedExactly(p, env, j);
    }
    hide TurnsTo, TryOperation, Selected;
    forall j | j in c.trace ensures j < |p| && TurnsTo(p, env, j) && !env.cancelled[j] {
      assert j in list;
    }
    if c.outcome.AllFailed? {
      assert forall j :: j in list ==> j in c.trace;
      forall j | j in c.trace ensures !env.works[j] {
      }
    }
    if c.outcome.Success? {
      var w := c.outcome.winner;
      forall j | 0 <= j < w && TurnsTo(p, env, j) ensures j in c.trace && !env.works[j] {
        PrefixHasSmaller(list, c.trace, w, j);
      }
    }
    if c.outcome.Cancelled? {
      var j := list[|c.trace|];
      assert j in list && TurnsTo(p, env, j);
    }
  }

  /** If nothing is cancelled and some usable adapter works, the call succeeds, with the first such. */
  lemma WorkingAdapterIsFound(p: Pool, env: Env, w: nat)
    requires Fits(env, |p|) && |p| > 0 && forall j :: 0 <= j < |p| ==> !env.cancelled[j]
    ensures TryOperation(p, env).outcome == Success(w) <==>
            && w < |p| && TurnsTo(p, env, w) && env.works[w]
            && forall j :: 0 <= j < w && TurnsTo(p, env, j) ==> !env.works[j]
    ensures (exists j :: 0 <= j < |p| && Usable(p, env, j) && env.works[j]) ==> TryOperation(p, env).outcome.Success?
  {
    FailoverReachesAll(p, env);
    hide TryOperation;
    assert forall j :: 0 <= j < |p| && Usable(p, env, j) ==> TurnsTo(p, env, j);
    hide TurnsTo, Usable;
  }

  /* ---------- Whole runs ---------- */

  predicate AllFit(envs: seq<Env>, n: nat) {
    forall k :: 0 <= k < |envs| ==> Fits(envs[k], n)
  }

  function FreshPool(n: nat): Pool {
    seq(n, i => FreshHealth())
  }

  /** The pool of `n` adapters after a run of calls. */
  ghost function PoolAfter(n: nat, envs: seq<Env>): (p: Pool)
    requires n > 0 && AllFit(envs, n)
    ensures |p| == n
  {
    if envs == [] then FreshPool(n)
    else
      var p := PoolAfter(n, envs[..|envs| - 1]);
      TryOperationMeaning(p, envs[|envs| - 1]);
      TryOperation(p, envs[|envs| - 1]).pool
  }

  /** The last call of a non-empty run. */
  ghost function LastCall(n: nat, envs: seq<Env>): Call
    requires n > 0 && AllFit(envs, n) && envs != []
  {
    TryOperation(PoolAfter(n, envs[..|envs| - 1]), envs[|envs| - 1])
  }

  /** How often adapter `i` was called in a run with the given result. */
  ghost function Calls(n: nat, envs: seq<Env>, i: nat, works: bool): nat
    requires n > 0 && AllFit(envs, n) && i < n
  {
    if envs == [] then 0
    else
      Calls(n, envs[..|envs| - 1], i, works) +
      if i in LastCall(n, envs).trace && envs[|envs| - 1].works[i] == works then 1 else 0
  }

  /** The stamps of adapter `i`'s failures since its last success, in order. */
  ghost function Streak(n: nat, envs: seq<Env>, i: nat): seq<int>
    requires n > 0 && AllFit(envs, n) && i < n
  {
    if envs == [] then []
    else
      var env := envs[|envs| - 1];
      if i !in LastCall(n, envs).trace then Streak(n, envs[..|envs| - 1], i)
      else if env.works[i] then []
      else Streak(n, envs[..|envs| - 1], i) + [env.stamped[i]]
  }

  /** How one call changes the books of one adapter. */
  lemma LastCallOf(n: nat, envs: seq<Env>, i: nat)
    requires n > 0 && AllFit(envs, n) && i < n && envs != []
    ensures var before := PoolAfter(n, envs[..|envs| - 1])[i];
            var env := envs[|envs| - 1];
            && PoolAfter(n, envs)[i] == (if i in LastCall(n, envs).trace then After(before, env, i) else before)
            && (i in LastCall(n, envs).trace && i > 0 ==> ShouldRetry(before, env.considered[i]))
  {
    TryOperationMeaning(PoolAfter(n, envs[..|envs| - 1]), envs[|envs| - 1]);
  }

  /** The failure count is the length of the streak, and an adapter is healthy when it is zero. */
  lemma {:induction false} CountIsStreak(n: nat, envs: seq<Env>, i: nat)
    requires n > 0 && AllFit(envs, n) && i < n
    ensures var h := PoolAfter(n, envs)[i];
            && h.failCount == |Streak(n, envs, i)|
            && (h.isHealthy <==> h.failCount == 0)
            && (h.failCount > 0 ==> h.lastAttempt == Streak(n, envs, i)[h.failCount - 1])
    decreases |envs|
  {
    if envs != [] {
      CountIsStreak(n, envs[..|envs| - 1], i);
      LastCallOf(n, envs, i);
      hide PoolAfter, LastCall, TryOperation;
    }
  }

  /**
   Over any run, a backup's failure count stays within `MAX_RETRIES`, and its failed calls number
   at most `MAX_RETRIES` for each success and `MAX_RETRIES` more.
   */
  lemma {:induction false} BackupFailuresBounded(n: nat, envs: seq<Env>, i: nat)
    requires n > 0 && AllFit(envs, n) && 0 < i < n
    ensures PoolAfter(n, envs)[i].failCount <= MAX_RETRIES
    ensures Calls(n, envs, i, false) <= MAX_RETRIES * Calls(n, envs, i, true) + PoolAfter(n, envs)[i].failCount
    ensures Calls(n, envs, i, false) <= MAX_RETRIES * (Calls(n, envs, i, true) + 1)
    decreases |envs|
  {
    if envs != [] {
      BackupFailuresBounded(n, envs[..|envs| - 1], i);
      CountIsStreak(n, envs[..|envs| - 1], i);
      LastCallOf(n, envs, i);
    }
  }

  lemma ExhaustedNotCalled(n: nat, envs: seq<Env>, i: nat)
    requires n > 0 && AllFit(envs, n) && 0 < i < n && envs != []
    requires var h := PoolAfter(n, envs[..|envs| - 1])[i]; !h.isHealthy && h.failCount == MAX_RETRIES
    ensures PoolAfter(n, envs)[i] == PoolAfter(n, envs[..|envs| - 1])[i] && i !in LastCall(n, envs).trace
  {
    LastCallOf(n, envs, i);
  }

  lemma FitAppend(envs: seq<Env>, more: seq<Env>, n: nat)
    requires AllFit(envs, n) && AllFit(more, n)
    ensures AllFit(envs + more, n)
    ensures more != [] ==>
              (envs + more)[..|envs + more| - 1] == envs + more[..|more| - 1] && AllFit(more[..|more| - 1], n)
  {
  }

  /** After `MAX_RETRIES` straight failures a backup is never called again. */
  lemma {:induction false} ExhaustedBackupNeverCalled(n: nat, envs: seq<Env>, more: seq<Env>, i: nat)
    requires n > 0 && AllFit(envs, n) && AllFit(more, n) && 0 < i < n
    requires |Streak(n, envs, i)| == MAX_RETRIES
    ensures AllFit(envs + more, n)
    ensures PoolAfter(n, envs + more)[i] == PoolAfter(n, envs)[i]
    ensures more != [] ==> i !in LastCall(n, envs + more).trace
    decreases |more|
  {
    hide PoolAfter, LastCall, Streak, AllFit, Fits, TryOperation;
    FitAppend(envs, more, n);
    if more == [] {
      assert envs + more == envs;
    } else {
      ExhaustedBackupNeverCalled(n, envs, more[..|more| - 1], i);
      CountIsStreak(n, envs, i);
      ExhaustedNotCalled(n, envs + more, i);
    }
  }

  /* ---------- Backoff ---------- */

  /** The clock does not run backwards within a call: adapters are considered before any is stamped. */
  ghost predicate ClockForward(envs: seq<Env>, n: nat)
    requires AllFit(envs, n)
  {
    forall k, i, j :: 0 <= k < |envs| && 0 <= i < n && 0 <= j < n ==> envs[k].considered[i] <= envs[k].stamped[j]
  }

  /** Each failure of a streak comes later than the one before by more than its number in seconds. */
  lemma {:induction false} StreakSpacing(n: nat, envs: seq<Env>, i: nat)
    requires n > 0 && AllFit(envs, n) && ClockForward(envs, n) && 0 < i < n
    ensures var s := Streak(n, envs, i);
            forall k :: 0 <= k < |s| - 1 ==> s[k + 1] - s[k] > (k + 1) * SECOND
    decreases |envs|
  {
    if envs != [] {
      var less := envs[..|envs| - 1];
      assert forall k :: 0 <= k < |less| ==> less[k] == envs[k];
      StreakSpacing(n, less, i);
      CountIsStreak(n, less, i);
      LastCallOf(n, envs, i);
    }
  }

  /** A backup's third straight failure is stamped more than three seconds after its first. */
  lemma ThirdFailureComesLate(n: nat, envs: seq<Env>, i: nat)
    requires n > 0 && AllFit(envs, n) && ClockForward(envs, n) && 0 < i < n
    requires |Streak(n, envs, i)| >= 3
    ensures Streak(n, envs, i)[2] - Streak(n, envs, i)[0] > 3 * SECOND
  {
    StreakSpacing(n, envs, i);
    var s := Streak(n, envs, i);
    assert s[0 + 1] - s[0] > 1 * SECOND && s[1 + 1] - s[1] > 2 * SECOND;
  }

  /* ---------- Recovery ---------- */

  /** What every reachable pool satisfies. */
  ghost predicate Reached(p: Pool) {
    && |p| > 0
    && (forall i :: 0 <= i < |p| ==> (p[i].isHealthy <==> p[i].failCount == 0))
    && (forall i :: 0 < i < |p| ==> p[i].failCount <= MAX_RETRIES)
  }

  lemma PoolAfterIsReached(n: nat, envs: seq<Env>)
    requires n > 0 && AllFit(envs, n)
    ensures Reached(PoolAfter(n, envs))
  {
    var p := PoolAfter(n, envs);
    forall i | 0 <= i < |p|
      ensures p[i].isHealthy <==> p[i].failCount == 0
      ensures i > 0 ==> p[i].failCount <= MAX_RETRIES
    {
      CountIsStreak(n, envs, i);
      if i > 0 {
        BackupFailuresBounded(n, envs, i);
      }
    }
  }

  /** How many more failures the backups can take between them. */
  ghost function Patience(p: Pool, from: nat): nat
    requires from <= |p| && forall i :: from <= i < |p| ==> p[i].failCount <= MAX_RETRIES
    decreases |p| - from
  {
    if from == |p| then 0 else MAX_RETRIES - p[from].failCount + Patience(p, from + 1)
  }

  lemma {:induction false} PatienceBounded(p: Pool, from: nat)
    requires from <= |p| && forall i :: from <= i < |p| ==> p[i].failCount <= MAX_RETRIES
    ensures Patience(p, from) <= MAX_RETRIES * (|p| - from)
    decreases |p| - from
  {
    if from < |p| {
      PatienceBounded(p, from + 1);
    }
  }

  lemma {:induction false} PatienceDrops(p: Pool, p': Pool, from: nat, i: nat)
    requires |p'| == |p| && from <= |p|
    requires forall k :: from <= k < |p| ==> p[k].failCount <= p'[k].failCount <= MAX_RETRIES
    ensures Patience(p', from) <= Patience(p, from)
    ensures from <= i < |p| && p[i].failCount < p'[i].failCount ==> Patience(p', from) < Patience(p, from)
    decreases |p| - from
  {
    if from < |p| {
      PatienceDrops(p, p', from + 1, i);
    }
  }

  /** The primary's operation works and nothing is cancelled. */
  predicate PrimaryWorks(env: Env, n: nat)
    requires Fits(env, n) && n > 0
  {
    env.works[0] && forall i :: 0 <= i < n ==> !env.cancelled[i]
  }

  /**
   With a working primary, a call that fails all the same has called at least one backup and
   strictly lowered what the backups can still take.
   */
  lemma FailingCallLowersPatience(p: Pool, env: Env)
    requires Reached(p) && Fits(env, |p|) && PrimaryWorks(env, |p|)
    requires !TryOperation(p, env).outcome.Success?
    ensures var p' := TryOperation(p, env).pool;
            Reached(p') && |p'| == |p| && Patience(p', 1) < Patience(p, 1)
  {
    hide TryOperation;
    FailingCallCallsBackups(p, env);
    var c := TryOperation(p, env);
    AllFailedCounts(p, env, c);
    PatienceDrops(p, c.pool, 1, c.trace[|c.trace| - 1]);
  }

  lemma FailingCallCallsBackups(p: Pool, env: Env)
    requires |p| > 0 && Fits(env, |p|) && PrimaryWorks(env, |p|)
    requires !TryOperation(p, env).outcome.Success?
    ensures var c := TryOperation(p, env);
            && |c.pool| == |p| && c.trace != [] && 0 < c.trace[|c.trace| - 1] < |p|
            && (forall i :: i in c.trace ==>
                  i < |p| && !env.works[i] && (i > 0 ==> ShouldRetry(p[i], env.considered[i])))
            && (forall i :: 0 <= i < |p| ==> c.pool[i] == if i in c.trace then After(p[i], env, i) else p[i])
  {
    TryOperationMeaning(p, env);
    FailoverReachesAll(p, env);
    hide TryOperation, Selected, Increasing, TurnsTo, ShouldRetry, After;
    var c := TryOperation(p, env);
    assert !c.outcome.Cancelled?;
    assert c.trace[|c.trace| - 1] in c.trace;
  }

  /** When every adapter called has failed, each of them has one more failure on its account. */
  lemma AllFailedCounts(p: Pool, env: Env, c: Call)
    requires Reached(p) && Fits(env, |p|) && |c.pool| == |p|
    requires forall i :: i in c.trace ==> i < |p| && !env.works[i] && (i > 0 ==> ShouldRetry(p[i], env.considered[i]))
    requires forall i :: 0 <= i < |p| ==> c.pool[i] == if i in c.trace then After(p[i], env, i) else p[i]
    ensures Reached(c.pool)
    ensures forall k :: 0 < k < |p| ==> p[k].failCount <= c.pool[k].failCount <= MAX_RETRIES
    ensures forall k :: 0 < k < |p| && k in c.trace ==> p[k].failCount < c.pool[k].failCount
  {
  }

  ghost predicate AllCallsFail(p: Pool, envs: seq<Env>)
    requires |p| > 0 && AllFit(envs, |p|)
    decreases |envs|
  {
    TryOperationKeepsLength(p, envs);
    envs == [] || (!TryOperation(p, envs[0]).outcome.Success? && AllCallsFail(TryOperation(p, envs[0]).pool, envs[1..]))
  }

  lemma TryOperationKeepsLength(p: Pool, envs: seq<Env>)
    requires |p| > 0 && AllFit(envs, |p|)
    ensures envs != [] ==> |TryOperation(p, envs[0]).pool| == |p|
  {
    if envs != [] {
      TryOperationMeaning(p, envs[0]);
    }
  }

  /**
   Recovery: from any reachable pool, while the primary's operation works and nothing is cancelled,
   at most `MAX_RETRIES` calls per backup can fail in a row.
   */
  lemma {:induction false} RecoveryBound(p: Pool, envs: seq<Env>)
    requires Reached(p) && AllFit(envs, |p|)
    requires forall k :: 0 <= k < |envs| ==> PrimaryWorks(envs[k], |p|)
    requires AllCallsFail(p, envs)
    ensures |envs| <= Patience(p, 1) <= MAX_RETRIES * (|p| - 1)
    decreases |envs|
  {
    PatienceBounded(p, 1);
    if envs != [] {
      TryOperationKeepsLength(p, envs);
      FailingCallLowersPatience(p, envs[0]);
      RecoveryBound(TryOperation(p, envs[0]).pool, envs[1..]);
    }
  }

  ghost predicate AllCallsSucceed(p: Pool, envs: seq<Env>)
    requires |p| > 0 && AllFit(envs, |p|)
    decreases |envs|
  {
    TryOperationKeepsLength(p, envs);
    || envs == []
    || (TryOperation(p, envs[0]).outcome == Success(0) && AllCallsSucceed(TryOperation(p, envs[0]).pool, envs[1..]))
  }

  /** Once the primary has succeeded it is healthy, and every later call is served by it. */
  lemma {:induction false} PrimaryStaysInCharge(p: Pool, envs: seq<Env>)
    requires |p| > 0 && AllFit(envs, |p|) && p[0].isHealthy
    requires forall k :: 0 <= k < |envs| ==> PrimaryWorks(envs[k], |p|)
    ensures AllCallsSucceed(p, envs)
    decreases |envs|
  {
    if envs != [] {
      TryOperationKeepsLength(p, envs);
      TryOperationMeaning(p, envs[0]);
      assert Candidates(p, envs[0], 0)[0] == 0;
      assert TryOperation(p, envs[0]) == Call(p[0 := MarkHealthy(p[0])], [0], Success(0));
      PrimaryStaysInCharge(TryOperation(p, envs[0]).pool, envs[1..]);
    }
  }

  /** After the first success of the primary every later call succeeds. */
  lemma PrimarySuccessLasts(p: Pool, env: Env, envs: seq<Env>)
    requires |p| > 0 && Fits(env, |p|) && AllFit(envs, |p|)
    requires TryOperation(p, env).outcome == Success(0)
    requires forall k :: 0 <= k < |envs| ==> PrimaryWorks(envs[k], |p|)
    ensures |TryOperation(p, env).pool| == |p| && AllCallsSucceed(TryOperation(p, env).pool, envs)
  {
    TryOperationMeaning(p, env);
    PrimaryStaysInCharge(TryOperation(p, env).pool, envs);
  }
}
