/** The heartbeater: a loop that waits, checks whether a heartbeat is due, tries it, and sleeps.
    Times are exact reals in seconds; API calls take no time and waits are exact. */
module Heartbeat {

  const MIN_JITTER := 0.3
  const MAX_JITTER := 0.6
  const MIN_INTERVAL := 5.0
  const MIN_ERROR_JITTER := 1.0
  const MAX_ERROR_JITTER := 2.0
  const SLEEP := 0.1

  /** The heartbeater's fields and the clock, at the top of the loop. */
  datatype Beat = Beat(interval: real, forced: bool, previous: real, now: real)

  /** What the environment decides in one round: whether a heartbeat has been forced by the time of
      the check, and, if one is tried, whether another is forced while it is being sent, its outcome
      and the jitter. */
  datatype Round = Round(force: bool, late: bool, success: bool, jitter: real)

  predicate ValidRound(r: Round) {
    if r.success then MIN_JITTER <= r.jitter <= MAX_JITTER else MIN_ERROR_JITTER <= r.jitter <= MAX_ERROR_JITTER
  }

  function Min(a: real, b: real): real { if a < b then a else b }
  function Max(a: real, b: real): real { if a < b then b else a }

  function CheckTime(b: Beat): real {
    b.now + Min(MIN_INTERVAL, Max(0.0, b.interval - (b.now - b.previous)))
  }

  /** Whether a heartbeat is expected at the check of a round. */
  predicate Tries(b: Beat, r: Round) {
    var elapsed := CheckTime(b) - b.previous;
    elapsed >= b.interval || ((b.forced || r.force) && elapsed > MIN_INTERVAL)
  }

  function Step(b: Beat, r: Round, timeout: real): Beat {
    var t := CheckTime(b);
    var forced := b.forced || r.force;
    if !Tries(b, r) then b.(forced := forced, now := t + SLEEP)
    else if r.success then Beat(timeout * r.jitter, false, t, t + SLEEP)
    else Beat(MIN_INTERVAL * r.jitter, forced || r.late, t, t + SLEEP)
  }

  function Run(b: Beat, rounds: seq<Round>, timeout: real): Beat
    decreases |rounds|
  {
    if rounds == [] then b else Run(Step(b, rounds[0], timeout), rounds[1..], timeout)
  }

  /** The times at which a heartbeat is tried. */
  function Attempts(b: Beat, rounds: seq<Round>, timeout: real): seq<real>
    decreases |rounds|
  {
    if rounds == [] then [] else
      (if Tries(b, rounds[0]) then [CheckTime(b)] else []) + Attempts(Step(b, rounds[0], timeout), rounds[1..], timeout)
  }

  /** The thread object; the clock stands for the time of day. */
  class Heartbeater {
    const heartbeatTimeout: real
    var interval: real
    var heartbeatForced: bool
    var previousHeartbeat: real
    var clock: real

    constructor (heartbeatTimeout: real, clock: real)
      ensures this.heartbeatTimeout == heartbeatTimeout && State() == Beat(0.0, false, 0.0, clock)
    {
      this.heartbeatTimeout := heartbeatTimeout;
      this.clock := clock;
      interval, heartbeatForced, previousHeartbeat := 0.0, false, 0.0;
    }

    function State(): Beat
      reads this
    {
      Beat(interval, heartbeatForced, previousHeartbeat, clock)
    }

    method ForceHeartbeat()
      modifies this`heartbeatForced
      ensures heartbeatForced
    {
      heartbeatForced := true;
    }

    /** Sends a heartbeat; `late` says whether one is forced in the meantime. */
    method DoHeartbeat(late: bool, success: bool, jitter: real)
      modifies this`interval, this`heartbeatForced, this`previousHeartbeat
      ensures State() == Beat(if success then heartbeatTimeout * jitter else MIN_INTERVAL * jitter,
                              !success && (old(heartbeatForced) || late), clock, clock)
    {
      if late { ForceHeartbeat(); }
      if success {
        heartbeatForced := false;
        interval := heartbeatTimeout * jitter;
      } else {
        interval := MIN_INTERVAL * jitter;
      }
      previousHeartbeat := clock;
    }

    /** One round, without the final sleep. */
    method RunNext(r: Round) returns (tried: bool)
      modifies this
      ensures tried == Tries(old(State()), r)
      ensures State() == Step(old(State()), r, heartbeatTimeout).(now := CheckTime(old(State())))
    {
      clock := clock + Min(MIN_INTERVAL, Max(0.0, interval - (clock - previousHeartbeat)));
      if r.force { ForceHeartbeat(); }
      var elapsed := clock - previousHeartbeat;
      tried := elapsed >= interval || (heartbeatForced && elapsed > MIN_INTERVAL);
      if tried { DoHeartbeat(r.late, r.success, r.jitter); }
    }

    /** The loop, for as many rounds as the environment provides. */
    method RunLoop(rounds: seq<Round>) returns (attempts: seq<real>)
      modifies this
      ensures State() == Run(old(State()), rounds, heartbeatTimeout)
      ensures attempts == Attempts(old(State()), rounds, heartbeatTimeout)
    {
      attempts := [];
      for i := 0 to |rounds|
        invariant Run(State(), rounds[i..], heartbeatTimeout) == Run(old(State()), rounds, heartbeatTimeout)
        invariant attempts + Attempts(State(), rounds[i..], heartbeatTimeout) ==
                  Attempts(old(State()), rounds, heartbeatTimeout)
      {
        assert rounds[i..][1..] == rounds[i + 1..];
        ghost var before := State();
        var tried := RunNext(rounds[i]);
        if tried { attempts := attempts + [clock]; }
        clock := clock + SLEEP;
        assert State() == Step(before, rounds[i], heartbeatTimeout);
      }
    }
  }

  // ----- Rate and forcing -----

  /** At the top of the loop at least the sleep has passed since the last attempt, or nothing
      has been tried yet. */
  predicate AtTop(b: Beat) {
    b.now >= b.previous + SLEEP || (b.interval == 0.0 && b.now >= b.previous)
  }

  lemma {:induction false} StepStaysAtTop(b: Beat, r: Round, timeout: real)
    requires AtTop(b)
    ensures AtTop(Step(b, r, timeout))
  {
  }

  /** Each check comes when the interval is over or more than 5.1 s have passed, at most 5 s
      after the top of the loop; so a forced heartbeat is tried at the next check. */
  lemma {:induction false} ForcedIsTried(b: Beat, r: Round)
    requires AtTop(b)
    ensures b.now <= CheckTime(b) <= b.now + MIN_INTERVAL
    ensures CheckTime(b) - b.previous >= b.interval || CheckTime(b) - b.previous >= MIN_INTERVAL + SLEEP
    ensures b.forced || r.force ==> Tries(b, r)
  {
  }

  /** A heartbeat that is forced while another one is being sent is lost exactly when that one succeeds: after
      a failure it is tried at the next check, after a success the next check is as if nothing had been forced. */
  lemma {:induction false} LateForce(b: Beat, r: Round, next: Round, timeout: real)
    requires AtTop(b) && Tries(b, r) && r.late
    ensures Step(b, r, timeout).forced <==> !r.success
    ensures !r.success ==> Tries(Step(b, r, timeout), next)
    ensures r.success ==> Step(b, r, timeout) == Step(b, r.(late := false), timeout)
  {
    StepStaysAtTop(b, r, timeout);
    ForcedIsTried(Step(b, r, timeout), next);
  }

  /** The state at the top of round k of a run. */
  function Top(b: Beat, rounds: seq<Round>, timeout: real, k: nat): Beat
    requires k <= |rounds|
  {
    Run(b, rounds[..k], timeout)
  }

  predicate ForcedIn(b: Beat, r: Round) {
    r.force || (Tries(b, r) && r.late)
  }

  predicate Succeeds(b: Beat, r: Round) {
    Tries(b, r) && r.success
  }

  /** From round k on no heartbeat of a run succeeds. */
  ghost predicate NoneSucceeds(b: Beat, rounds: seq<Round>, timeout: real, k: nat) {
    forall j: nat :: k <= j < |rounds| ==> !Succeeds(Top(b, rounds, timeout, j), rounds[j])
  }

  ghost predicate ForcedSince(b: Beat, rounds: seq<Round>, timeout: real) {
    || (b.forced && NoneSucceeds(b, rounds, timeout, 0))
    || exists k: nat :: k < |rounds| && ForcedIn(Top(b, rounds, timeout, k), rounds[k]) &&
         NoneSucceeds(b, rounds, timeout, k)
  }

  lemma {:induction false} RunSnoc(b: Beat, rounds: seq<Round>, r: Round, timeout: real)
    ensures Run(b, rounds + [r], timeout) == Step(Run(b, rounds, timeout), r, timeout)
    decreases |rounds|
  {
    var all := rounds + [r];
    if rounds == [] {
      assert all[1..] == [];
    } else {
      assert all[1..] == rounds[1..] + [r];
      RunSnoc(Step(b, rounds[0], timeout), rounds[1..], r, timeout);
    }
  }

  lemma {:induction false} ForcedSinceSnoc(b: Beat, rounds: seq<Round>, r: Round, timeout: real)
    ensures var s := Run(b, rounds, timeout);
            ForcedSince(b, rounds + [r], timeout) <==>
              !Succeeds(s, r) && (ForcedSince(b, rounds, timeout) || ForcedIn(s, r))
  {
    var all, n := rounds + [r], |rounds|;
    assert all[..n] == rounds;
    assert forall j: nat :: j <= n ==> Top(b, all, timeout, j) == Run(b, rounds[..j], timeout) by {
      assert forall j: nat :: j <= n ==> all[..j] == rounds[..j];
    }
    assert rounds[..n] == rounds;
    forall k: nat | k <= n
      ensures NoneSucceeds(b, all, timeout, k) <==>
        NoneSucceeds(b, rounds, timeout, k) && !Succeeds(Run(b, rounds, timeout), r)
    {
      assert NoneSucceeds(b, all, timeout, k) ==> !Succeeds(Top(b, all, timeout, n), all[n]);
      assert forall j: nat :: j < n ==> Top(b, rounds, timeout, j) == Top(b, all, timeout, j) && all[j] == rounds[j];
    }
    assert forall k: nat :: k < n ==> Top(b, rounds, timeout, k) == Top(b, all, timeout, k) && all[k] == rounds[k];
    assert NoneSucceeds(b, rounds, timeout, n);
  }

  /** Over whole runs: a forced heartbeat is outstanding exactly if none has succeeded since it was forced, the
      one in the middle of which it may have been forced included; and as long as it is outstanding, every next
      round tries. */
  lemma {:induction false} ForcedUntilSuccess(b: Beat, rounds: seq<Round>, timeout: real, next: Round)
    requires AtTop(b)
    ensures AtTop(Run(b, rounds, timeout))
    ensures Run(b, rounds, timeout).forced <==> ForcedSince(b, rounds, timeout)
    ensures ForcedSince(b, rounds, timeout) ==> Tries(Run(b, rounds, timeout), next)
    decreases |rounds|
  {
    if rounds != [] {
      var n := |rounds| - 1;
      ForcedUntilSuccess(b, rounds[..n], timeout, next);
      assert rounds == rounds[..n] + [rounds[n]];
      RunSnoc(b, rounds[..n], rounds[n], timeout);
      ForcedSinceSnoc(b, rounds[..n], rounds[n], timeout);
      StepStaysAtTop(Run(b, rounds[..n], timeout), rounds[n], timeout);
    }
    ForcedIsTried(Run(b, rounds, timeout), next);
  }

  /** The interval that an attempt leaves behind. */
  predicate IntervalOk(b: Beat, timeout: real) {
    b.interval >= Min(MIN_INTERVAL, MIN_JITTER * timeout)
  }

  lemma {:induction false} TriesInterval(b: Beat, r: Round, timeout: real)
    requires ValidRound(r) && timeout > 0.0 && Tries(b, r)
    ensures IntervalOk(Step(b, r, timeout), timeout)
  {
    if r.success { assert timeout * r.jitter >= timeout * MIN_JITTER; }
  }

  lemma {:induction false} AttemptsApart(b: Beat, rounds: seq<Round>, timeout: real)
    requires AtTop(b) && timeout > 0.0 && forall i :: 0 <= i < |rounds| ==> ValidRound(rounds[i])
    ensures forall i :: 0 <= i < |Attempts(b, rounds, timeout)| - 1 ==>
      Attempts(b, rounds, timeout)[i + 1] - Attempts(b, rounds, timeout)[i] >= Min(5.0, 0.3 * timeout)
    ensures IntervalOk(b, timeout) && Attempts(b, rounds, timeout) != [] ==>
      Attempts(b, rounds, timeout)[0] - b.previous >= Min(5.0, 0.3 * timeout)
    decreases |rounds|
  {
    if rounds != [] {
      var next := Step(b, rounds[0], timeout);
      StepStaysAtTop(b, rounds[0], timeout);
      AttemptsApart(next, rounds[1..], timeout);
      if Tries(b, rounds[0]) { TriesInterval(b, rounds[0], timeout); }
    }
  }

  // ----- The waiting time -----

  lemma {:induction false} Unforced(b: Beat, rounds: seq<Round>, timeout: real)
    requires !b.forced && b.now - b.previous < b.interval + SLEEP
    requires forall k :: 0 <= k < |rounds| ==> !rounds[k].force
    ensures Attempts(b, rounds, timeout) != [] ==>
      b.previous + b.interval <= Attempts(b, rounds, timeout)[0] < b.previous + b.interval + SLEEP
    ensures Run(b, rounds, timeout).now >= b.previous + b.interval + SLEEP ==> Attempts(b, rounds, timeout) != []
    decreases |rounds|
  {
    if rounds != [] && !Tries(b, rounds[0]) {
      Unforced(Step(b, rounds[0], timeout), rounds[1..], timeout);
      assert Attempts(b, rounds, timeout) == Attempts(Step(b, rounds[0], timeout), rounds[1..], timeout);
    }
  }

  /** If nothing is forced the next attempt comes when the jittered interval is over, at most one sleep later:
      after a success the timeout times the jitter of that round, after a failure 5 s times the jitter. */
  lemma {:induction false} JitteredInterval(b: Beat, r: Round, rounds: seq<Round>, timeout: real)
    requires Tries(b, r) && ValidRound(r) && timeout > 0.0
    requires !r.success ==> !b.forced && !r.force && !r.late
    requires forall k :: 0 <= k < |rounds| ==> !rounds[k].force
    ensures var due := CheckTime(b) + if r.success then timeout * r.jitter else 5.0 * r.jitter;
            var next := Step(b, r, timeout);
            && (Attempts(next, rounds, timeout) != [] ==> due <= Attempts(next, rounds, timeout)[0] < due + SLEEP)
            && (Run(next, rounds, timeout).now >= due + SLEEP ==> Attempts(next, rounds, timeout) != [])
  {
    assert timeout * r.jitter > 0.0;
    Unforced(Step(b, r, timeout), rounds, timeout);
  }

  // ----- The number of retries -----

  /** At the top of the loop, k checks after the last attempt: each of them waited 5 s and came
      too early. */
  predicate Pending(b: Beat, k: nat) {
    && b.now - b.previous == (MIN_INTERVAL + SLEEP) * k as real + SLEEP
    && (k > 0 ==> (MIN_INTERVAL + SLEEP) * k as real < b.interval)
  }

  /** A bound on the interval that also bounds the next attempt: no multiple of 5.1 s falls
      short of it by less than the sleep. */
  predicate Bounds(limit: real) {
    limit == MIN_INTERVAL * MAX_ERROR_JITTER || limit == 180.0
  }

  lemma {:induction false} BoundHolds(limit: real, k: nat)
    requires Bounds(limit) && (k > 0 ==> (MIN_INTERVAL + SLEEP) * k as real < limit)
    ensures (MIN_INTERVAL + SLEEP) * k as real + SLEEP <= limit
  {
    assert k >= 36 ==> k as real >= 36.0;
    assert k <= 35 ==> k as real <= 35.0;
    assert k >= 2 ==> k as real >= 2.0;
    assert k <= 1 ==> k as real <= 1.0;
  }

  lemma {:induction false} PendingStep(b: Beat, r: Round, timeout: real, k: nat, limit: real)
    requires Pending(b, k) && b.interval <= limit && Bounds(limit) && ValidRound(r) && !r.success
    ensures var next := Step(b, r, timeout);
            if Tries(b, r) then CheckTime(b) <= b.previous + limit && Pending(next, 0) &&
              next.previous == CheckTime(b) &&
                                next.interval <= MIN_INTERVAL * MAX_ERROR_JITTER
            else Pending(next, k + 1) && next.previous == b.previous && next.interval == b.interval
  {
    BoundHolds(limit, k);
    assert (k + 1) as real == k as real + 1.0;
  }

  function CountUpTo(times: seq<real>, deadline: real): nat {
    if times == [] then 0 else CountUpTo(times[1..], deadline) + if times[0] <= deadline then 1 else 0
  }

  /** If every attempt fails, and the next n attempts fit before the deadline even when each
      comes as late as it can, then a run past the deadline has made at least n. */
  lemma {:induction false} RetriesFit(b: Beat, rounds: seq<Round>, timeout: real, k: nat, limit: real, n: nat,
      deadline: real)
    requires Pending(b, k) && b.interval <= limit && Bounds(limit)
    requires forall i :: 0 <= i < |rounds| ==> ValidRound(rounds[i]) && !rounds[i].success
    requires n > 0 ==> b.previous + limit + MIN_INTERVAL * MAX_ERROR_JITTER * (n - 1) as real <= deadline
    requires Run(b, rounds, timeout).now > deadline
    ensures CountUpTo(Attempts(b, rounds, timeout), deadline) >= n
    decreases |rounds|
  {
    if n > 0 {
      BoundHolds(limit, k);
      assert (n - 1) as real >= 0.0;
      assert rounds != [];
      var r, next := rounds[0], Step(b, rounds[0], timeout);
      PendingStep(b, r, timeout, k, limit);
      if Tries(b, r) {
        assert n > 1 ==> (n - 1) as real == (n - 2) as real + 1.0;
        RetriesFit(next, rounds[1..], timeout, 0, MIN_INTERVAL * MAX_ERROR_JITTER, n - 1, deadline);
        assert Attempts(b, rounds, timeout)[1..] == Attempts(next, rounds[1..], timeout);
      } else {
        RetriesFit(next, rounds[1..], timeout, k + 1, limit, n, deadline);
        assert Attempts(b, rounds, timeout) == Attempts(next, rounds[1..], timeout);
      }
    }
  }

  /** With the default timeout of 300 s: if a heartbeat succeeds and all later ones fail, then
      within 300 s of the success at least 12 retries follow the first failure, whatever the
      jitter and however heartbeats are forced. */
  lemma {:induction false} TwelveRetries(b: Beat, success: Round, rounds: seq<Round>)
    requires AtTop(b) && ValidRound(success) && success.success && Tries(b, success)
    requires forall i :: 0 <= i < |rounds| ==> ValidRound(rounds[i]) && !rounds[i].success
    requires Run(Step(b, success, 300.0), rounds, 300.0).now > CheckTime(b) + 300.0
    ensures CountUpTo(Attempts(Step(b, success, 300.0), rounds, 300.0), CheckTime(b) + 300.0) >= 1 + 12
  {
    var after := Step(b, success, 300.0);
    assert Pending(after, 0) && after.interval <= 180.0 && after.previous == CheckTime(b);
    RetriesFit(after, rounds, 300.0, 0, 180.0, 13, CheckTime(b) + 300.0);
  }

  /** The slowest retries: nothing is forced and the jitter is always the largest. */
  predicate Slow(r: Round) {
    !r.force && !r.late && !r.success && r.jitter == MAX_ERROR_JITTER
  }

  lemma {:induction false} SlowStep(b: Beat, r: Round, timeout: real, k: nat)
    requires Pending(b, k) && !b.forced && Slow(r) && Bounds(b.interval)
    ensures var next := Step(b, r, timeout);
            !next.forced && Bounds(next.interval) &&
            if Tries(b, r) then CheckTime(b) == b.previous + b.interval && Pending(next, 0) &&
              next.previous == CheckTime(b) && next.interval == 10.0
            else Pending(next, k + 1) && next.previous == b.previous && next.interval == b.interval
  {
    BoundHolds(b.interval, k);
    assert (k + 1) as real == k as real + 1.0;
  }

  lemma {:induction false} SlowRetries(b: Beat, rounds: seq<Round>, timeout: real, k: nat, n: nat, deadline: real)
    requires Pending(b, k) && !b.forced && Bounds(b.interval)
    requires forall i :: 0 <= i < |rounds| ==> Slow(rounds[i])
    requires deadline < b.previous + b.interval + 10.0 * n as real
    ensures CountUpTo(Attempts(b, rounds, timeout), deadline) <= n
    decreases |rounds|
  {
    if rounds != [] {
      var r, next := rounds[0], Step(b, rounds[0], timeout);
      SlowStep(b, r, timeout, k);
      if Tries(b, r) {
        var m := if n == 0 then 0 else n - 1;
        assert n > 0 ==> n as real == m as real + 1.0;
        SlowRetries(next, rounds[1..], timeout, 0, m, deadline);
        assert Attempts(b, rounds, timeout)[1..] == Attempts(next, rounds[1..], timeout);
      } else {
        SlowRetries(next, rounds[1..], timeout, k + 1, n, deadline);
        assert Attempts(b, rounds, timeout) == Attempts(next, rounds[1..], timeout);
      }
    }
  }

  /** Twelve is the best bound: with the largest jitter throughout and nothing forced there are
      never more within the 300 s. */
  lemma {:induction false} NoMoreThanTwelve(b: Beat, success: Round, rounds: seq<Round>)
    requires AtTop(b) && success.success && success.jitter == MAX_JITTER && Tries(b, success)
    requires forall i :: 0 <= i < |rounds| ==> Slow(rounds[i])
    ensures CountUpTo(Attempts(Step(b, success, 300.0), rounds, 300.0), CheckTime(b) + 300.0) <= 1 + 12
  {
    var after := Step(b, success, 300.0);
    assert Pending(after, 0) && after.interval == 180.0 && after.previous == CheckTime(b);
    SlowRetries(after, rounds, 300.0, 0, 13, CheckTime(b) + 300.0);
  }
}
