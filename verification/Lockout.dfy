// The login lockout (src/platform/esp32/main/auth.cpp). Times are in microseconds.
module Lockout {
  import opened Bytes

  const FREE_ATTEMPTS := 5
  const LOCK_BASE_S := 30
  const LOCK_MAX_S := 900
  const SECOND := 1_000_000

  // How long the lock lasts after this many failures in a row, in seconds
  function LockSeconds(failures: nat): nat
    requires failures >= FREE_ATTEMPTS
  {
    var shift := failures - FREE_ATTEMPTS;
    Min(if shift >= 5 then LOCK_MAX_S else LOCK_BASE_S * Pow2(shift), LOCK_MAX_S)
  }

  datatype LockState = LockState(failures: nat, lockedUntil: int)

  // Not evaluated because locked; or evaluated: right, wrong, or wrong and locked from now on. A lock
  // says how many seconds to wait.
  datatype LoginResult = StillLocked(retry: nat) | Right | Wrong | NowLocked(retry: nat)

  // One call: when it starts, whether the password hashes to the stored one, and when that is known
  datatype Attempt = Attempt(now: int, right: bool, done: int)

  function Check(s: LockState, a: Attempt): (LockState, LoginResult) {
    if a.now < s.lockedUntil then (s, StillLocked((s.lockedUntil - a.now) / SECOND + 1))
    else if a.right then (s.(failures := 0), Right)
    else if s.failures + 1 >= FREE_ATTEMPTS then
      var lock := LockSeconds(s.failures + 1);
      (LockState(s.failures + 1, a.done + lock * SECOND), NowLocked(lock))
    else (s.(failures := s.failures + 1), Wrong)
  }

  class Auth {
    var failures: nat
    var lockedUntil: int

    constructor ()
      ensures failures == 0 && lockedUntil == 0
    {
      failures, lockedUntil := 0, 0;
    }

    // `evaluate` stands for the password hash and its comparison with the stored one
    method CheckPassword(now: int, evaluate: bool, done: int) returns (r: LoginResult)
      modifies this
      ensures (LockState(failures, lockedUntil), r) ==
              Check(LockState(old(failures), old(lockedUntil)), Attempt(now, evaluate, done))
      ensures r.StillLocked? <==> now < old(lockedUntil)
      ensures r.Right? <==> now >= old(lockedUntil) && evaluate
      ensures r.NowLocked? <==> now >= old(lockedUntil) && !evaluate && old(failures) + 1 >= FREE_ATTEMPTS
      ensures r.StillLocked? ==> now + r.retry * SECOND > lockedUntil >= now + (r.retry - 1) * SECOND
      ensures r.NowLocked? ==> lockedUntil == done + r.retry * SECOND
      ensures failures == if r.StillLocked? then old(failures) else if evaluate then 0 else old(failures) + 1
      ensures !r.NowLocked? ==> lockedUntil == old(lockedUntil)
    {
      if now < lockedUntil {
        return StillLocked((lockedUntil - now) / SECOND + 1);
      }
      if evaluate {
        failures := 0;
        return Right;
      }
      failures := failures + 1;
      r := Wrong;
      if failures >= FREE_ATTEMPTS {
        var shift := failures - FREE_ATTEMPTS;
        var lock: nat := if shift >= 5 then LOCK_MAX_S else LOCK_BASE_S * Pow2(shift);
        if lock > LOCK_MAX_S {
          lock := LOCK_MAX_S;
        }
        lockedUntil := done + lock * SECOND;
        r := NowLocked(lock);
      }
    }
  }

  // Waiting as long as told is enough, and at most a second too long.
  lemma RetryIsEnough(s: LockState, a: Attempt)
    requires Check(s, a).1.StillLocked?
    ensures var wait := Check(s, a).1.retry * SECOND;
            a.now + wait - SECOND <= s.lockedUntil < a.now + wait
  {
  }

  // ----- Whole runs -----

  // The wrong passwords evaluated in a row: how many, and when the first and the last were found wrong
  datatype Streak = Streak(count: nat, first: int, last: int)

  // Whether the password of a call is evaluated is for the lock to say; what it does to the streak is not
  function Count(k: Streak, a: Attempt, evaluated: bool): Streak {
    if !evaluated then k
    else if a.right then Streak(0, 0, 0)
    else Streak(k.count + 1, if k.count == 0 then a.done else k.first, a.done)
  }

  // The lock and the streak after calls one after the other, from boot
  function After(calls: seq<Attempt>): (LockState, Streak) {
    if calls == [] then (LockState(0, 0), Streak(0, 0, 0))
    else
      var (s, k) := After(calls[..|calls| - 1]);
      var a := calls[|calls| - 1];
      (Check(s, a).0, Count(k, a, a.now >= s.lockedUntil))
  }

  // The clock does not run backwards, and no call starts before the one before it is done
  predicate OneByOne(calls: seq<Attempt>) {
    && (forall i :: 0 <= i < |calls| ==> calls[i].now <= calls[i].done)
    && (forall i :: 0 < i < |calls| ==> calls[i - 1].done <= calls[i].now)
  }

  // The seconds that n wrong passwords in a row take at least: every lock but the last has to run out
  function WaitSeconds(n: nat): nat {
    if n <= FREE_ATTEMPTS then 0 else WaitSeconds(n - 1) + LockSeconds(n - 1)
  }

  // The first lock is of half a minute, the next four are each twice the one before, and all after that are of 15
  // minutes.
  lemma LocksDouble(n: nat)
    requires n >= FREE_ATTEMPTS
    ensures LockSeconds(n) == if n == 5 then 30 else if n <= 9 then 2 * LockSeconds(n - 1) else 900
  {
    assert Pow2(1) == 2 && Pow2(2) == 4 && Pow2(3) == 8 && Pow2(4) == 16;
  }

  lemma {:induction false} WaitFromTen(n: nat)
    requires n >= 10
    ensures WaitSeconds(n) == 930 + 900 * (n - 10)
  {
    if n == 10 {
      assert LockSeconds(5) == 30 && LockSeconds(6) == 60 && LockSeconds(7) == 120;
      assert LockSeconds(8) == 240 && LockSeconds(9) == 480;
      assert WaitSeconds(6) == 30 && WaitSeconds(7) == 90 && WaitSeconds(8) == 210 && WaitSeconds(9) == 450;
    } else {
      WaitFromTen(n - 1);
    }
  }

  // In every run: the stored count is that of the wrong passwords in a row, they took at least their wait, and while
  // there are enough of them the next evaluation has to wait for the lock of the last.
  lemma {:induction false} StreakTakesTime(calls: seq<Attempt>)
    requires OneByOne(calls)
    ensures var (s, k) := After(calls);
            && s.failures == k.count
            && (k.count > 0 ==> k.last - k.first >= WaitSeconds(k.count) * SECOND)
            && (k.count >= FREE_ATTEMPTS ==> s.lockedUntil == k.last + LockSeconds(k.count) * SECOND)
  {
    hide LockSeconds;
    if calls != [] {
      var n := |calls| - 1;
      var a := calls[n];
      var (s, k) := After(calls[..n]);
      StreakTakesTime(calls[..n]);
      LastIsPast(calls[..n]);
      if k.count > 0 && n > 0 {
        assert k.last <= calls[n - 1].done <= a.now <= a.done;
      }
    }
  }

  lemma {:induction false} LastIsPast(calls: seq<Attempt>)
    requires OneByOne(calls)
    ensures var k := After(calls).1; k.count > 0 ==> calls != [] && k.last <= calls[|calls| - 1].done
  {
    hide LockSeconds;
    if calls != [] {
      var n := |calls| - 1;
      LastIsPast(calls[..n]);
    }
  }

  // So guessing is slow: from ten wrong passwords in a row on, n of them take at least
  // 930 + 900 (n - 10) seconds.
  lemma GuessingIsSlow(calls: seq<Attempt>)
    requires OneByOne(calls) && After(calls).1.count >= 10
    ensures var k := After(calls).1; k.last - k.first >= (930 + 900 * (k.count - 10)) * SECOND
  {
    hide After;
    StreakTakesTime(calls);
    WaitFromTen(After(calls).1.count);
  }
}
