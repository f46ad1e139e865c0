/**
 * The two request limiters (backend/auth.py): both keep trimmed lists of times, and both must
 * answer as if nothing had ever been trimmed. Clock readings are reals.
 */
module Limiters {
  type Key = string
  type Table = map<Key, seq<real>>

  const MINUTE: real := 60.0

  /** `[t for t in ts if t > cutoff]`. */
  function Recent(ts: seq<real>, cutoff: real): (r: seq<real>)
    ensures |r| <= |ts|
  {
    if |ts| == 0 then []
    else
      var rest := Recent(ts[..|ts| - 1], cutoff);
      if ts[|ts| - 1] > cutoff then rest + [ts[|ts| - 1]] else rest
  }

  function Get(table: Table, key: Key): seq<real> { if key in table then table[key] else [] }

  predicate AnyAfter(ts: seq<real>, cutoff: real) { exists i :: 0 <= i < |ts| && ts[i] > cutoff }

  /** The keys a prune deletes. */
  function Stale(table: Table, cutoff: real): set<Key> {
    set k | k in table && !AnyAfter(table[k], cutoff)
  }

  function Larger(a: real, b: real): real { if a < b then b else a }

  lemma {:induction false} RecentOfAppend(ts: seq<real>, t: real, cutoff: real)
    ensures Recent(ts + [t], cutoff) == Recent(ts, cutoff) + (if t > cutoff then [t] else [])
  {
    assert (ts + [t])[..|ts|] == ts;
  }

  /** Trimming early is invisible to any later, tighter cutoff. */
  lemma {:induction false} TrimmingIsHarmless(ts: seq<real>, early: real, late: real)
    requires early <= late
    ensures Recent(Recent(ts, early), late) == Recent(ts, late)
  {
    if |ts| > 0 {
      var init, t := ts[..|ts| - 1], ts[|ts| - 1];
      TrimmingIsHarmless(init, early, late);
      RecentOfAppend(Recent(init, early), t, late);
    }
  }

  lemma {:induction false} TrimmingOnlyLoses(ts: seq<real>, trim: real, cutoff: real)
    ensures |Recent(Recent(ts, trim), cutoff)| <= |Recent(ts, cutoff)|
  {
    if |ts| > 0 {
      var init, t := ts[..|ts| - 1], ts[|ts| - 1];
      TrimmingOnlyLoses(init, trim, cutoff);
      RecentOfAppend(Recent(init, trim), t, cutoff);
    }
  }

  lemma {:induction false} NothingRecent(ts: seq<real>, cutoff: real)
    ensures Recent(ts, cutoff) == [] <==> !AnyAfter(ts, cutoff)
  {
    if |ts| > 0 {
      var init := ts[..|ts| - 1];
      NothingRecent(init, cutoff);
      if AnyAfter(init, cutoff) {
        var i :| 0 <= i < |init| && init[i] > cutoff;
        assert ts[i] > cutoff;
      }
      if AnyAfter(ts, cutoff) && ts[|ts| - 1] <= cutoff {
        var i :| 0 <= i < |ts| && ts[i] > cutoff;
        assert init[i] > cutoff;
      }
    }
  }

  // --- a trimmed table against the whole history -------------------------------------------

  /**
   * `kept` stands for `full` at every cutoff from `horizon` on, and holds nothing extra at any.
   */
  ghost predicate Stands(kept: seq<real>, full: seq<real>, horizon: real) {
    && (forall c :: horizon <= c ==> Recent(kept, c) == Recent(full, c))
    && forall c :: |Recent(kept, c)| <= |Recent(full, c)|
  }

  ghost predicate AllStand(kept: Table, full: Table, horizon: real) {
    forall k :: Stands(Get(kept, k), Get(full, k), horizon)
  }

  lemma StandsTrimmed(kept: seq<real>, full: seq<real>, horizon: real, cutoff: real)
    requires Stands(kept, full, horizon)
    ensures Stands(Recent(kept, cutoff), full, Larger(horizon, cutoff))
  {
    var trimmed := Recent(kept, cutoff);
    forall c | Larger(horizon, cutoff) <= c ensures Recent(trimmed, c) == Recent(full, c) {
      TrimmingIsHarmless(kept, cutoff, c);
    }
    forall c ensures |Recent(trimmed, c)| <= |Recent(full, c)| {
      TrimmingOnlyLoses(kept, cutoff, c);
    }
  }

  lemma StandsAppended(kept: seq<real>, full: seq<real>, horizon: real, t: real)
    requires Stands(kept, full, horizon)
    ensures Stands(kept + [t], full + [t], horizon)
  {
    forall c ensures Recent(kept + [t], c) == Recent(kept, c) + (if t > c then [t] else [])
             ensures Recent(full + [t], c) == Recent(full, c) + (if t > c then [t] else [])
    {
      RecentOfAppend(kept, t, c);
      RecentOfAppend(full, t, c);
    }
  }

  /** Deleting the keys whose every time is old loses nothing a later cutoff could see. */
  lemma PruningIsHarmless(kept: Table, full: Table, horizon: real, cutoff: real)
    requires AllStand(kept, full, horizon)
    ensures AllStand(kept - Stale(kept, cutoff), full, Larger(horizon, cutoff))
  {
    var pruned := kept - Stale(kept, cutoff);
    forall k ensures Stands(Get(pruned, k), Get(full, k), Larger(horizon, cutoff)) {
      if k in Stale(kept, cutoff) {
        NothingRecent(kept[k], cutoff);
        StandsTrimmed(Get(kept, k), Get(full, k), horizon, cutoff);
      } else {
        assert Stands(Get(kept, k), Get(full, k), horizon);
      }
    }
  }

  /** The key's list trimmed, or dropped when nothing is left of it. */
  function Trim(table: Table, key: Key, cutoff: real): Table {
    var recent := Recent(Get(table, key), cutoff);
    if recent != [] then table[key := recent] else table - {key}
  }

  lemma AllStandTrimmed(kept: Table, trimmed: Table, full: Table, horizon: real, key: Key, cutoff: real)
    requires AllStand(kept, full, horizon)
    requires forall k :: Get(trimmed, k) == if k == key then Recent(Get(kept, key), cutoff) else Get(kept, k)
    ensures AllStand(trimmed, full, Larger(horizon, cutoff))
  {
    forall k ensures Stands(Get(trimmed, k), Get(full, k), Larger(horizon, cutoff)) {
      assert Stands(Get(kept, k), Get(full, k), horizon);
      if k == key {
        StandsTrimmed(Get(kept, k), Get(full, k), horizon, cutoff);
      }
    }
  }

  lemma AllStandAppended(kept: Table, full: Table, horizon: real, key: Key, t: real)
    requires AllStand(kept, full, horizon)
    ensures AllStand(kept[key := Get(kept, key) + [t]], full[key := Get(full, key) + [t]], horizon)
  {
    var kept', full' := kept[key := Get(kept, key) + [t]], full[key := Get(full, key) + [t]];
    forall k ensures Stands(Get(kept', k), Get(full', k), horizon) {
      assert Stands(Get(kept, k), Get(full, k), horizon);
      if k == key {
        StandsAppended(Get(kept, k), Get(full, k), horizon, t);
      }
    }
  }

  // --- calls per minute --------------------------------------------------------------------

  /** Times admitted one after another, each with fewer than `cap` in the minute before it. */
  ghost predicate Admitted(ts: seq<real>, cap: int) {
    |ts| > 0 ==>
      var init, t := ts[..|ts| - 1], ts[|ts| - 1];
      && Admitted(init, cap)
      && (forall i :: 0 <= i < |init| ==> init[i] <= t)
      && |Recent(init, t - MINUTE)| < cap
  }

  /** How many of the times lie in `[from, to)`. */
  function Within(ts: seq<real>, from: real, to: real): nat {
    if |ts| == 0 then 0
    else Within(ts[..|ts| - 1], from, to) + (if from <= ts[|ts| - 1] < to then 1 else 0)
  }

  lemma {:induction false} WithinIsRecent(ts: seq<real>, from: real, to: real, cutoff: real)
    requires cutoff < from
    ensures Within(ts, from, to) <= |Recent(ts, cutoff)|
  {
    if |ts| > 0 {
      WithinIsRecent(ts[..|ts| - 1], from, to, cutoff);
    }
  }

  /** No minute, wherever it starts, holds more admitted calls than the cap. */
  lemma {:induction false} NoMinuteExceedsTheCap(ts: seq<real>, cap: int, from: real)
    requires Admitted(ts, cap) && 0 <= cap
    ensures Within(ts, from, from + MINUTE) <= cap
  {
    if |ts| > 0 {
      var init, t := ts[..|ts| - 1], ts[|ts| - 1];
      NoMinuteExceedsTheCap(init, cap, from);
      if from <= t < from + MINUTE {
        WithinIsRecent(init, from, from + MINUTE, t - MINUTE);
      }
    }
  }

  /** How many of the times lie in the window `[from, from + len]`, both ends counted. */
  function InClosed(ts: seq<real>, from: real, len: real): nat {
    if |ts| == 0 then 0
    else InClosed(ts[..|ts| - 1], from, len) + (if from <= ts[|ts| - 1] <= from + len then 1 else 0)
  }

  lemma {:induction false} ClosedFitsInMinute(ts: seq<real>, from: real, len: real)
    requires len < MINUTE
    ensures InClosed(ts, from, len) <= Within(ts, from, from + MINUTE)
  {
    if |ts| > 0 {
      ClosedFitsInMinute(ts[..|ts| - 1], from, len);
    }
  }

  lemma {:induction false} ClosedMinuteIsInTwo(ts: seq<real>, from: real)
    ensures InClosed(ts, from, MINUTE) <=
            Within(ts, from, from + MINUTE) + Within(ts, from + MINUTE, from + MINUTE + MINUTE)
  {
    if |ts| > 0 {
      ClosedMinuteIsInTwo(ts[..|ts| - 1], from);
    }
  }

  /** Some calls at 0, and some a minute later. */
  function Calls(early: nat, late: nat): seq<real>
    decreases early + late
  {
    if late > 0 then Calls(early, late - 1) + [MINUTE]
    else if early > 0 then Calls(early - 1, 0) + [0.0]
    else []
  }

  lemma {:induction false} CallsAreAdmitted(early: nat, late: nat, cap: int)
    requires early <= cap && late <= cap
    ensures Admitted(Calls(early, late), cap) && |Recent(Calls(early, late), 0.0)| == late
    ensures late == 0 ==> |Recent(Calls(early, late), -MINUTE)| == early
    ensures forall i :: 0 <= i < |Calls(early, late)| ==>
                Calls(early, late)[i] <= if late == 0 then 0.0 else MINUTE
    decreases early + late
  {
    hide Admitted, Recent;
    if late > 0 {
      CallsAreAdmitted(early, late - 1, cap);
      AdmittedAppend(Calls(early, late - 1), MINUTE, cap);
      RecentOfAppend(Calls(early, late - 1), MINUTE, 0.0);
    } else if early > 0 {
      CallsAreAdmitted(early - 1, 0, cap);
      AdmittedAppend(Calls(early - 1, 0), 0.0, cap);
      RecentOfAppend(Calls(early - 1, 0), 0.0, 0.0);
      RecentOfAppend(Calls(early - 1, 0), 0.0, -MINUTE);
    } else {
      NoCalls(cap);
    }
  }

  lemma NoCalls(cap: int)
    ensures Admitted([], cap) && forall c :: Recent([], c) == []
  {
  }

  lemma AdmittedAppend(ts: seq<real>, t: real, cap: int)
    requires Admitted(ts, cap) && |Recent(ts, t - MINUTE)| < cap && forall i :: 0 <= i < |ts| ==> ts[i] <= t
    ensures Admitted(ts + [t], cap)
  {
    assert (ts + [t])[..|ts|] == ts;
  }

  lemma {:induction false} CallsFillTheWindow(early: nat, late: nat, len: real)
    requires len >= MINUTE
    ensures InClosed(Calls(early, late), 0.0, len) == early + late
    decreases early + late
  {
    var calls := Calls(early, late);
    if late > 0 {
      CallsFillTheWindow(early, late - 1, len);
      assert calls[..|calls| - 1] == Calls(early, late - 1);
    } else if early > 0 {
      CallsFillTheWindow(early - 1, 0, len);
      assert calls[..|calls| - 1] == Calls(early - 1, 0);
    }
  }

  /** With both ends counted, the cap bounds every window of a length exactly below a minute. */
  lemma WindowsWithinTheCap(cap: int, len: real)
    requires cap > 0 && len >= 0.0
    ensures len < MINUTE <==>
            forall ts: seq<real>, from: real :: Admitted(ts, cap) ==> InClosed(ts, from, len) <= cap
  {
    if len < MINUTE {
      forall ts: seq<real>, from: real | Admitted(ts, cap) ensures InClosed(ts, from, len) <= cap {
        NoMinuteExceedsTheCap(ts, cap, from);
        ClosedFitsInMinute(ts, from, len);
      }
    } else {
      CallsAreAdmitted(cap, 1, cap);
      CallsFillTheWindow(cap, 1, len);
    }
  }

  /** The minute with both its ends holds at most twice the cap, and it does hold that. */
  lemma AClosedMinuteHoldsTwice(cap: nat)
    ensures forall ts: seq<real>, from: real :: Admitted(ts, cap) ==> InClosed(ts, from, MINUTE) <= 2 * cap
    ensures Admitted(Calls(cap, cap), cap) && InClosed(Calls(cap, cap), 0.0, MINUTE) == 2 * cap
  {
    forall ts: seq<real>, from: real | Admitted(ts, cap) ensures InClosed(ts, from, MINUTE) <= 2 * cap {
      NoMinuteExceedsTheCap(ts, cap, from);
      NoMinuteExceedsTheCap(ts, cap, from + MINUTE);
      ClosedMinuteIsInTwo(ts, from);
    }
    CallsAreAdmitted(cap, cap, cap);
    CallsFillTheWindow(cap, cap, MINUTE);
  }

  lemma {:induction false} LooserCap(ts: seq<real>, cap: int, more: int)
    requires Admitted(ts, cap) && cap <= more
    ensures Admitted(ts, more)
  {
    if |ts| > 0 {
      LooserCap(ts[..|ts| - 1], cap, more);
    }
  }

  ghost predicate AllAdmitted(admitted: Table, cap: int, clock: real) {
    && (forall k, i :: 0 <= i < |Get(admitted, k)| ==> Get(admitted, k)[i] <= clock)
    && forall k :: Admitted(Get(admitted, k), cap)
  }

  lemma AdmittedAgain(admitted: Table, cap: int, clock: real, key: Key, now: real)
    requires AllAdmitted(admitted, cap, clock) && clock <= now
    requires |Recent(Get(admitted, key), now - MINUTE)| < cap
    ensures AllAdmitted(admitted[key := Get(admitted, key) + [now]], cap, now)
  {
    hide Recent;
    var ts := Get(admitted, key);
    assert Admitted(ts, cap) && forall i :: 0 <= i < |ts| ==> ts[i] <= clock;
    AdmittedAppend(ts, now, cap);
    var more := admitted[key := ts + [now]];
    forall k ensures Admitted(Get(more, k), cap) && forall i :: 0 <= i < |Get(more, k)| ==> Get(more, k)[i] <= now {
      assert Admitted(Get(admitted, k), cap);
      assert forall i :: 0 <= i < |Get(admitted, k)| ==> Get(admitted, k)[i] <= clock;
    }
  }

  /** The kept hits stand for the admitted calls, which never passed the cap. */
  ghost predicate Bounded(hits: Table, admitted: Table, cap: int, clock: real) {
    AllStand(hits, admitted, clock - MINUTE) && AllAdmitted(admitted, cap, clock)
  }

  lemma RefusedStaysBounded(hits: Table, admitted: Table, cap: int, clock: real, key: Key, now: real)
    requires Bounded(hits, admitted, cap, clock) && clock <= now
    ensures Recent(Get(hits, key), now - MINUTE) == Recent(Get(admitted, key), now - MINUTE)
    ensures Bounded(hits[key := Recent(Get(hits, key), now - MINUTE)], admitted, cap, now)
  {
    assert Stands(Get(hits, key), Get(admitted, key), clock - MINUTE);
    AllStandTrimmed(hits, hits[key := Recent(Get(hits, key), now - MINUTE)], admitted,
                    clock - MINUTE, key, now - MINUTE);
  }

  lemma AdmittedStaysBounded(hits: Table, admitted: Table, cap: int, clock: real, key: Key, now: real)
    requires Bounded(hits, admitted, cap, clock) && clock <= now
    requires |Recent(Get(admitted, key), now - MINUTE)| < cap
    ensures Bounded(hits[key := Recent(Get(hits, key), now - MINUTE) + [now]],
                    admitted[key := Get(admitted, key) + [now]], cap, now)
  {
    hide Recent, Stands, Admitted;
    var trimmed := hits[key := Recent(Get(hits, key), now - MINUTE)];
    RefusedStaysBounded(hits, admitted, cap, clock, key, now);
    AllStandAppended(trimmed, admitted, now - MINUTE, key, now);
    AdmittedAgain(admitted, cap, clock, key, now);
    assert trimmed[key := Get(trimmed, key) + [now]] == hits[key := Recent(Get(hits, key), now - MINUTE) + [now]];
  }

  class SlidingWindowLimiter {
    var maxPerMinute: int
    var hits: Table
    // Every call ever admitted, the last clock reading, the largest setting so far.
    ghost var admitted: Table
    ghost var clock: real
    ghost var cap: int

    ghost predicate Valid()
      reads this
    {
      maxPerMinute <= cap && Bounded(hits, admitted, cap, clock)
    }

    constructor (maximum: int, now: real)
      ensures Valid() && admitted == map[] && maxPerMinute == maximum && clock == now
    {
      maxPerMinute, hits := maximum, map[];
      admitted, clock, cap := map[], now, maximum;
    }

    /** Passes exactly when fewer than the maximum were admitted in the minute before. */
    method Allow(key: Key, now: real) returns (ok: bool)
      requires Valid() && clock <= now
      modifies this
      ensures Valid() && clock == now && maxPerMinute == old(maxPerMinute) && cap == old(cap)
      ensures ok <==> |Recent(Get(old(admitted), key), now - MINUTE)| < maxPerMinute
      ensures admitted ==
              if ok then old(admitted)[key := Get(old(admitted), key) + [now]] else old(admitted)
    {
      var cutoff := now - MINUTE;
      var recent := Recent(Get(hits, key), cutoff);
      RefusedStaysBounded(hits, admitted, cap, clock, key, now);
      hide Bounded, Recent;
      if |recent| >= maxPerMinute {
        hits, clock := hits[key := recent], now;
        return false;
      }
      AdmittedStaysBounded(hits, admitted, cap, clock, key, now);
      hits := hits[key := recent + [now]];
      admitted, clock := admitted[key := Get(admitted, key) + [now]], now;
      return true;
    }

    method UpdateConfig(maximum: int)
      requires Valid()
      modifies this
      ensures Valid() && hits == old(hits) && admitted == old(admitted) && clock == old(clock)
      ensures maxPerMinute == maximum && cap == if old(cap) < maximum then maximum else old(cap)
    {
      maxPerMinute := maximum;
      if cap < maximum {
        forall k ensures Admitted(Get(admitted, k), maximum) {
          LooserCap(Get(admitted, k), cap, maximum);
        }
        cap := maximum;
      }
    }

    /** The calls admitted, which alone decide every later answer, do not change. */
    method Prune(now: real)
      requires Valid() && clock <= now
      modifies `hits, `clock
      ensures Valid() && clock == now
      ensures forall k :: k in hits <==> k in old(hits) && AnyAfter(old(hits)[k], now - MINUTE)
      ensures forall k :: k in hits ==> hits[k] == old(hits)[k]
    {
      PruningIsHarmless(hits, admitted, clock - MINUTE, now - MINUTE);
      hits := hits - Stale(hits, now - MINUTE);
      clock := now;
    }
  }

  // --- failed logins ------------------------------------------------------------------------

  class RateLimiter {
    var maxAttempts: int
    var lockoutMinutes: real
    var attempts: Table
    // Every failure since the key's last reset, and the latest cutoff anything was trimmed at.
    ghost var failures: Table
    ghost var horizon: real

    ghost predicate Valid()
      reads this
    {
      AllStand(attempts, failures, horizon)
    }

    constructor (maximum: int, minutes: real, now: real)
      ensures Valid() && attempts == failures == map[] && horizon == now - minutes * MINUTE
      ensures maxAttempts == maximum && lockoutMinutes == minutes
    {
      maxAttempts, lockoutMinutes, attempts := maximum, minutes, map[];
      failures, horizon := map[], now - minutes * MINUTE;
    }

    /**
     * Counts the whole history since the reset, unless the window has been widened past what was
     * trimmed; and never locks a key that history does not.
     */
    method IsLocked(key: Key, now: real) returns (locked: bool)
      requires Valid()
      modifies `attempts, `horizon
      ensures Valid() && horizon == Larger(old(horizon), now - lockoutMinutes * MINUTE)
      ensures attempts == Trim(old(attempts), key, now - lockoutMinutes * MINUTE)
      ensures locked <==> |Get(attempts, key)| >= maxAttempts
      ensures old(horizon) <= now - lockoutMinutes * MINUTE ==>
                (locked <==> |Recent(Get(failures, key), now - lockoutMinutes * MINUTE)| >= maxAttempts)
      ensures locked ==> |Recent(Get(failures, key), now - lockoutMinutes * MINUTE)| >= maxAttempts
    {
      var mine := Get(attempts, key);
      var cutoff := now - lockoutMinutes * MINUTE;
      var recent := Recent(mine, cutoff);
      assert Stands(mine, Get(failures, key), horizon);
      AllStandTrimmed(attempts, Trim(attempts, key, cutoff), failures, horizon, key, cutoff);
      hide AllStand, Recent;
      if recent != [] {
        attempts := attempts[key := recent];
      } else {
        attempts := attempts - {key};
      }
      horizon := Larger(horizon, cutoff);
      locked := |recent| >= maxAttempts;
    }

    method RecordFailure(key: Key, now: real)
      requires Valid()
      modifies `attempts, `failures
      ensures Valid() && failures == old(failures)[key := Get(old(failures), key) + [now]]
      ensures attempts == old(attempts)[key := Get(old(attempts), key) + [now]]
    {
      AllStandAppended(attempts, failures, horizon, key, now);
      if key !in attempts {
        attempts := attempts[key := []];
      }
      assert attempts[key := attempts[key] + [now]] == old(attempts)[key := Get(old(attempts), key) + [now]];
      attempts := attempts[key := attempts[key] + [now]];
      failures := failures[key := Get(failures, key) + [now]];
    }

    method Reset(key: Key)
      requires Valid()
      modifies `attempts, `failures
      ensures Valid() && failures == old(failures) - {key}
    {
      attempts := attempts - {key};
      failures := failures - {key};
      forall k ensures Stands(Get(attempts, k), Get(failures, k), horizon) {
        assert Stands(Get(old(attempts), k), Get(old(failures), k), horizon);
      }
    }

    method UpdateConfig(maximum: int, minutes: real)
      requires Valid()
      modifies `maxAttempts, `lockoutMinutes
      ensures Valid() && maxAttempts == maximum && lockoutMinutes == minutes
    {
      maxAttempts, lockoutMinutes := maximum, minutes;
    }

    /** The failures, which alone decide every later answer, do not change. */
    method Prune(now: real)
      requires Valid()
      modifies `attempts, `horizon
      ensures Valid() && horizon == Larger(old(horizon), now - lockoutMinutes * MINUTE)
      ensures forall k :: k in attempts <==>
                k in old(attempts) && AnyAfter(old(attempts)[k], now - lockoutMinutes * MINUTE)
      ensures forall k :: k in attempts ==> attempts[k] == old(attempts)[k]
    {
      PruningIsHarmless(attempts, failures, horizon, now - lockoutMinutes * MINUTE);
      attempts := attempts - Stale(attempts, now - lockoutMinutes * MINUTE);
      horizon := Larger(horizon, now - lockoutMinutes * MINUTE);
    }
  }

  /**
   * When trimmed lists may be counted: a list that stands for its history from a horizon on is
   * sure to have as many recent failures exactly at the cutoffs not before that horizon.
   */
  lemma CountsFromTheHorizonOn(horizon: real, cutoff: real)
    ensures horizon <= cutoff <==>
            forall kept: seq<real>, full: seq<real> ::
              Stands(kept, full, horizon) ==> |Recent(kept, cutoff)| == |Recent(full, cutoff)|
  {
    if horizon > cutoff {
      var kept: seq<real>, full: seq<real> := [], [horizon];
      forall c ensures Recent(full, c) == if horizon > c then [horizon] else [] {
        RecentOfAppend([], horizon, c);
        assert [] + [horizon] == [horizon];
      }
      assert Stands(kept, full, horizon) && |Recent(kept, cutoff)| != |Recent(full, cutoff)|;
    }
  }

  /**
   * Widening the window can unlock a key: one failure at 0, asked about at 120 with a one-minute
   * lockout, is forgotten; the ten-minute lockout set next would have counted it.
   */
  method WideningForgets() returns (before: bool, after: bool, limiter: RateLimiter)
    ensures fresh(limiter) && limiter.maxAttempts == 1 && limiter.lockoutMinutes == 10.0
    ensures !before && !after
    ensures |Recent(Get(limiter.failures, "k"), 120.0 - 10.0 * MINUTE)| == 1
  {
    OneFailure(60.0);
    OneFailure(120.0 - 10.0 * MINUTE);
    hide Recent, AllStand;
    limiter := new RateLimiter(1, 1.0, 0.0);
    limiter.RecordFailure("k", 0.0);
    assert Get(limiter.attempts, "k") == Get(limiter.failures, "k") == [0.0];
    before := limiter.IsLocked("k", 120.0);
    assert Get(limiter.attempts, "k") == [];
    limiter.UpdateConfig(1, 10.0);
    NothingRecent([], 120.0 - 10.0 * MINUTE);
    after := limiter.IsLocked("k", 120.0);
  }

  lemma OneFailure(cutoff: real)
    ensures Recent([0.0], cutoff) == if 0.0 > cutoff then [0.0] else []
  {
    RecentOfAppend([], 0.0, cutoff);
    assert [] + [0.0] == [0.0];
  }
}
