/**
 * The lockout machine of lockout.rs: three wrong passwords arm a 24-hour lockout.
 * Counters are the u32 and u64 of the source, and an addition that leaves the range
 * wraps, as in the release profile (Cargo.toml sets no overflow checks).
 */
module Lockout {
  import opened Bytes

  const MAX_ATTEMPTS: u32 := 3
  const LOCKOUT_SECS: u64 := 86400

  datatype Counters = Counters(failCount: u32, lockedUntil: u64)

  const UNLOCKED: Counters := Counters(0, 0)

  function WrapU32(n: nat): u32 { n % 0x1_0000_0000 }

  function WrapU64(n: nat): u64 { n % 0x1_0000_0000_0000_0000 }

  /** May a password be tried at this time? */
  predicate Permits(s: Counters, now: u64) {
    s.lockedUntil == 0 || s.lockedUntil <= now
  }

  /** The counters a wrong password leaves behind. */
  function AfterFailure(s: Counters, now: u64): Counters {
    var s0 := if s.lockedUntil != 0 && s.lockedUntil <= now then UNLOCKED else s;
    var n := WrapU32(s0.failCount + 1);
    Counters(n, if n >= MAX_ATTEMPTS then WrapU64(now + LOCKOUT_SECS) else s0.lockedUntil)
  }

  /** The error a wrong password surfaces. */
  function FailureError(s: Counters, now: u64): VaultError {
    var s1 := AfterFailure(s, now);
    if s1.failCount >= MAX_ATTEMPTS then LockedOut(s1.lockedUntil)
    else WrongPassword(MAX_ATTEMPTS - s1.failCount)
  }

  /** The struct itself, whose methods update the two fields. */
  class LockoutState {
    var failCount: u32
    var lockedUntil: u64

    function State(): Counters
      reads this
    {
      Counters(failCount, lockedUntil)
    }

    constructor (s: Counters)
      ensures State() == s
    {
      failCount, lockedUntil := s.failCount, s.lockedUntil;
    }

    method Check(now: u64) returns (r: Result<()>)
      ensures r.Ok? <==> Permits(State(), now)
      ensures r.Err? ==> r.error == LockedOut(lockedUntil)
    {
      if lockedUntil != 0 && now < lockedUntil {
        return Err(LockedOut(lockedUntil));
      }
      return Ok(());
    }

    method RecordFailure(now: u64) returns (e: VaultError)
      modifies this
      ensures State() == AfterFailure(old(State()), now)
      ensures e == FailureError(old(State()), now)
    {
      if lockedUntil != 0 && now >= lockedUntil {
        failCount, lockedUntil := 0, 0;
      }
      failCount := WrapU32(failCount + 1);
      if failCount >= MAX_ATTEMPTS {
        lockedUntil := WrapU64(now + LOCKOUT_SECS);
        e := LockedOut(lockedUntil);
      } else {
        e := WrongPassword(MAX_ATTEMPTS - failCount);
      }
    }

    method Reset()
      modifies this
      ensures State() == UNLOCKED
    {
      failCount, lockedUntil := 0, 0;
    }
  }

  /** What every header this install wrote satisfies. */
  predicate Consistent(s: Counters) {
    s.failCount <= MAX_ATTEMPTS && (s.failCount == MAX_ATTEMPTS <==> s.lockedUntil != 0)
  }

  /**
   * A recorded failure keeps the counters consistent unless it is the third one and the clock
   * reads the single second at which the deadline wraps to zero.
   */
  lemma FailureKeepsConsistent(s: Counters, now: u64)
    requires Consistent(s) && Permits(s, now)
    ensures Consistent(AfterFailure(s, now))
            <==> !(s.failCount == MAX_ATTEMPTS - 1 && now == 0xFFFF_FFFF_FFFF_FFFF - LOCKOUT_SECS + 1)
  {
  }

  /** No permitted failure replaces one running deadline by another. */
  lemma FailureNeverMovesADeadline(s: Counters, now: u64)
    requires Permits(s, now)
    ensures s.lockedUntil == 0 || AfterFailure(s, now).lockedUntil == 0
  {
  }

  /** The counters after the failures at the given times, in order. */
  function AfterFailures(s: Counters, times: seq<u64>): Counters {
    if times == [] then s
    else AfterFailure(AfterFailures(s, times[..|times| - 1]), times[|times| - 1])
  }

  /** Each failure was recorded at a time its predecessors permit. */
  ghost predicate AllPermitted(s: Counters, times: seq<u64>) {
    forall k :: 0 <= k < |times| ==> Permits(AfterFailures(s, times[..k]), times[k])
  }

  predicate NonDecreasing(times: seq<u64>) {
    forall i, j :: 0 <= i < j < |times| ==> times[i] <= times[j]
  }

  /** Up to this clock reading a deadline does not wrap. */
  const LAST_SANE_CLOCK: u64 := 0xFFFF_FFFF_FFFF_FFFF - LOCKOUT_SECS

  predicate Sane(times: seq<u64>) {
    forall i :: 0 <= i < |times| ==> times[i] <= LAST_SANE_CLOCK
  }

  lemma PrefixPermitted(s: Counters, times: seq<u64>, n: nat)
    requires AllPermitted(s, times) && n <= |times|
    ensures AllPermitted(s, times[..n])
  {
    forall k | 0 <= k < n ensures Permits(AfterFailures(s, times[..n][..k]), times[..n][k]) {
      assert times[..n][..k] == times[..k];
    }
  }

  /** The counters n failures leave when the last of them came at the given time. */
  ghost predicate Shape(s: Counters, n: nat, last: u64) {
    && s.failCount == (if n == 0 then 0 else (n - 1) % 3 + 1)
    && s.lockedUntil == (if n > 0 && n % 3 == 0 then last + LOCKOUT_SECS else 0)
  }

  lemma ShapeStep(s: Counters, n: nat, last: u64, now: u64)
    requires Shape(s, n, last) && Permits(s, now) && now <= LAST_SANE_CLOCK
    ensures Shape(AfterFailure(s, now), n + 1, now)
  {
  }

  /** The counters after permitted failures from a clean start depend on their number modulo 3. */
  lemma {:induction false} CountersAfterFailures(times: seq<u64>)
    requires AllPermitted(UNLOCKED, times) && Sane(times)
    ensures Shape(AfterFailures(UNLOCKED, times), |times|, if times == [] then 0 else times[|times| - 1])
  {
    if times == [] {
    } else {
      var front := times[..|times| - 1];
      PrefixPermitted(UNLOCKED, times, |times| - 1);
      CountersAfterFailures(front);
      var s := AfterFailures(UNLOCKED, front);
      ShapeStep(s, |front|, if front == [] then 0 else front[|front| - 1], times[|front|]);
    }
  }

  /** What the caller is told: a countdown, and the deadline at each third failure. */
  lemma ErrorAfterFailures(times: seq<u64>, now: u64)
    requires AllPermitted(UNLOCKED, times) && Sane(times)
    requires Permits(AfterFailures(UNLOCKED, times), now) && now <= LAST_SANE_CLOCK
    ensures var n := (|times| + 1) % 3;
            FailureError(AfterFailures(UNLOCKED, times), now)
            == if n == 0 then LockedOut(now + LOCKOUT_SECS) else WrongPassword(3 - n)
  {
    hide AfterFailures, FailureError, Permits, Shape;
    CountersAfterFailures(times);
    ErrorOfShape(AfterFailures(UNLOCKED, times), |times|, if times == [] then 0 else times[|times| - 1], now);
  }

  lemma ErrorOfShape(s: Counters, n: nat, last: u64, now: u64)
    requires Shape(s, n, last) && Permits(s, now) && now <= LAST_SANE_CLOCK
    ensures FailureError(s, now)
            == if (n + 1) % 3 == 0 then LockedOut(now + LOCKOUT_SECS) else WrongPassword(3 - (n + 1) % 3)
  {
    hide AfterFailure;
    ShapeStep(s, n, last, now);
  }

  /** The first failure after a full round of three waits out the deadline the third one armed. */
  lemma RoundWaits(times: seq<u64>, j: nat)
    requires AllPermitted(UNLOCKED, times) && Sane(times)
    requires 3 <= j < |times| && j % 3 == 0
    ensures times[j] >= times[j - 1] + LOCKOUT_SECS
  {
    hide AfterFailures;
    PrefixPermitted(UNLOCKED, times, j);
    CountersAfterFailures(times[..j]);
    assert Permits(AfterFailures(UNLOCKED, times[..j]), times[j]);
  }

  lemma LastRound(k: nat) returns (j: nat)
    requires 3 <= k
    ensures k - 2 <= j <= k && j % 3 == 0 && (k - 3) / 3 == k / 3 - 1
  {
    j := k - k % 3;
  }

  /** Any four failures in a row span at least a lockout: no more than three fall into any 24 hours. */
  lemma FourSpanADay(times: seq<u64>, k: nat)
    requires AllPermitted(UNLOCKED, times) && NonDecreasing(times) && Sane(times)
    requires k + 3 < |times|
    ensures times[k + 3] >= times[k] + LOCKOUT_SECS
  {
    var j := LastRound(k + 3);
    RoundWaits(times, j);
    assert times[j] <= times[k + 3] && times[k] <= times[j - 1];
  }

  /** The failure with index k comes one lockout for each full round of three after the first. */
  lemma {:induction false} GuessRate(times: seq<u64>, k: nat)
    requires AllPermitted(UNLOCKED, times) && NonDecreasing(times) && Sane(times)
    requires k < |times|
    ensures times[k] >= times[0] + LOCKOUT_SECS * (k / 3)
    decreases k
  {
    if k >= 3 {
      GuessRate(times, k - 3);
      FourSpanADay(times, k - 3);
      var j := LastRound(k);
    } else if k > 0 {
      assert times[k] >= times[0];
    }
  }
}
