/** The game clock: a start timestamp that is pushed forward by every pause, so that the
    time since the start is the time played. Timestamps are Kotlin `Long` milliseconds
    read from a time source, which here is the `now` argument of each operation. */
module Timing {
  import opened Numerals

  const LONG_MIN: int := -0x8000_0000_0000_0000
  const LONG_MAX: int := 0x7FFF_FFFF_FFFF_FFFF
  const LONG_MODULUS: int := 0x1_0000_0000_0000_0000

  /** A value of Kotlin's 64-bit `Long`. */
  predicate IsLong(x: int) {
    LONG_MIN <= x <= LONG_MAX
  }

  /** Two's-complement wrap-around of `Long` addition and subtraction. */
  function Wrap(x: int): (r: int)
    ensures IsLong(r)
    ensures IsLong(x) ==> r == x
  {
    (x - LONG_MIN) % LONG_MODULUS + LONG_MIN
  }

  /** Wrapping changes a value by a whole number of moduli. */
  lemma WrapOffset(x: int) returns (k: int)
    ensures Wrap(x) == x + k * LONG_MODULUS
  {
    k := -((x - LONG_MIN) / LONG_MODULUS);
  }

  /** Values that differ by whole moduli wrap to the same `Long`. */
  lemma WrapShift(x: int, k: int)
    ensures Wrap(x + k * LONG_MODULUS) == Wrap(x)
  {
    var a := x - LONG_MIN;
    var q1, q2 := (a + k * LONG_MODULUS) / LONG_MODULUS, a / LONG_MODULUS;
    assert (q1 - q2 - k) * LONG_MODULUS == a % LONG_MODULUS - (a + k * LONG_MODULUS) % LONG_MODULUS;
  }

  /** The start timestamp after `resumeTimer` at `now`: shifted by the length of the pause,
      measured from the pause timestamp, or from 0 when there is none. */
  function Resumed(startTime: Option<int>, pausedTime: Option<int>, now: int): (r: Option<int>)
    ensures r.None? <==> startTime.None?
    ensures r.Some? ==> IsLong(r.value)
  {
    match startTime
    case None => None
    case Some(s) =>
      var pauseStart := if pausedTime.Some? then pausedTime.value else 0;
      Some(Wrap(s + Wrap(now - pauseStart)))
  }

  /** The clock time at `now` for a start timestamp. */
  function Elapsed(startTime: int, now: int): int {
    Wrap(now - startTime)
  }

  /** Started at s, paused at p, resumed at r and read at u, the clock shows the time
      played before the pause plus the time since the resume, in `Long` arithmetic. */
  lemma PauseExcluded(s: int, p: int, r: int, u: int)
    ensures Elapsed(Resumed(Some(s), Some(p), r).value, u) == Wrap((p - s) + (u - r))
  {
    var k1 := WrapOffset(r - p);
    var k2 := WrapOffset(s + Wrap(r - p));
    assert u - Resumed(Some(s), Some(p), r).value == (p - s) + (u - r) + (-k1 - k2) * LONG_MODULUS;
    WrapShift((p - s) + (u - r), -k1 - k2);
  }

  /** Without overflow the clock shows exactly the time played. */
  lemma PauseExcludedExact(s: int, p: int, r: int, u: int)
    requires 0 <= s <= p <= r <= u <= LONG_MAX
    ensures Elapsed(Resumed(Some(s), Some(p), r).value, u) == (p - s) + (u - r)
  {
    PauseExcluded(s, p, r, u);
  }

  /** Resuming a clock that was never paused pushes the start forward by the whole
      timestamp `now`, since a missing pause counts as a pause at time 0. */
  lemma ResumeWithoutPause(s: int, now: int)
    requires IsLong(s) && IsLong(now)
    ensures Resumed(Some(s), None, now) == Some(Wrap(s + now))
  {
  }

  class TimeManager {
    var startTime: Option<int>
    var pausedTime: Option<int>
    var timer: int
    var gameEndedTime: int

    /** Every stored timestamp and duration is a `Long`. */
    ghost predicate Valid()
      reads this
    {
      && (startTime.Some? ==> IsLong(startTime.value))
      && (pausedTime.Some? ==> IsLong(pausedTime.value))
      && IsLong(timer) && IsLong(gameEndedTime)
    }

    constructor ()
      ensures Valid()
      ensures startTime == None && pausedTime == None && timer == 0 && gameEndedTime == 0
    {
      startTime := None;
      pausedTime := None;
      timer := 0;
      gameEndedTime := 0;
    }

    /** `startTimer`: the clock starts now. */
    method StartTimer(now: int)
      requires Valid() && IsLong(now)
      modifies this
      ensures Valid()
      ensures startTime == Some(now)
      ensures pausedTime == old(pausedTime) && timer == old(timer) && gameEndedTime == old(gameEndedTime)
    {
      startTime := Some(now);
    }

    /** `pauseTimer`: remembers when the pause began. */
    method PauseTimer(now: int)
      requires Valid() && IsLong(now)
      modifies this
      ensures Valid()
      ensures pausedTime == Some(now)
      ensures startTime == old(startTime) && timer == old(timer) && gameEndedTime == old(gameEndedTime)
    {
      pausedTime := Some(now);
    }

    /** `resumeTimer`: moves the start forward by the pause and forgets the pause. */
    method ResumeTimer(now: int)
      requires Valid() && IsLong(now)
      modifies this
      ensures Valid()
      ensures startTime == Resumed(old(startTime), old(pausedTime), now)
      ensures pausedTime == None
      ensures timer == old(timer) && gameEndedTime == old(gameEndedTime)
    {
      if startTime.Some? {
        var pauseStart := if pausedTime.Some? then pausedTime.value else 0;
        startTime := Some(Wrap(startTime.value + Wrap(now - pauseStart)));
      }
      pausedTime := None;
    }

    /** `updateTimer`: the clock shows the time since the start; a clock that was never
        started keeps its reading. */
    method UpdateTimer(now: int)
      requires Valid() && IsLong(now)
      modifies this
      ensures Valid()
      ensures timer == if old(startTime).Some? then Elapsed(old(startTime).value, now) else old(timer)
      ensures startTime == old(startTime) && pausedTime == old(pausedTime) && gameEndedTime == old(gameEndedTime)
    {
      if startTime.Some? {
        timer := Wrap(now - startTime.value);
      }
    }

    /** `setTimer`: the clock shows the recorded length of the finished game. */
    method SetTimer()
      requires Valid()
      modifies this
      ensures Valid()
      ensures timer == old(gameEndedTime)
      ensures startTime == old(startTime) && pausedTime == old(pausedTime) && gameEndedTime == old(gameEndedTime)
    {
      timer := gameEndedTime;
    }

    /** `setGameEndedTime`: records the clock reading as the length of the game. */
    method SetGameEndedTime()
      requires Valid()
      modifies this
      ensures Valid()
      ensures gameEndedTime == old(timer)
      ensures startTime == old(startTime) && pausedTime == old(pausedTime) && timer == old(timer)
    {
      gameEndedTime := timer;
    }

    /** `reset`: back to a clock that was never started. */
    method Reset()
      modifies this
      ensures Valid()
      ensures startTime == None && pausedTime == None && timer == 0 && gameEndedTime == 0
    {
      startTime := None;
      pausedTime := None;
      timer := 0;
      gameEndedTime := 0;
    }

    /** `resetAndStart`: a reset followed by a start now. */
    method ResetAndStart(now: int)
      requires IsLong(now)
      modifies this
      ensures Valid()
      ensures startTime == Some(now) && pausedTime == None && timer == 0 && gameEndedTime == 0
    {
      Reset();
      StartTimer(now);
    }
  }

  /** Start at 0, pause at 2000, resume at 5000: the start moves to 3000, and the clock
      shows 2000 at 5000 and 3000 at 6000. */
  method PauseResumeScenario() returns (resumedStart: Option<int>, timerAt5000: int, timerAt6000: int)
    ensures resumedStart == Some(3000)
    ensures timerAt5000 == 2000 && timerAt6000 == 3000
  {
    var clock := new TimeManager();
    clock.StartTimer(0);
    clock.PauseTimer(2000);
    clock.ResumeTimer(5000);
    resumedStart := clock.startTime;
    clock.UpdateTimer(5000);
    timerAt5000 := clock.timer;
    clock.UpdateTimer(6000);
    timerAt6000 := clock.timer;
  }

  /** Recording the reading as the game length and then showing the game length leaves the
      reading as it was: started at `start` and read at `now`, the clock shows the time
      between them afterwards. */
  method EndedTimeScenario(start: int, now: int) returns (shown: int)
    requires 0 <= start <= now <= LONG_MAX
    ensures shown == now - start
  {
    var clock := new TimeManager();
    clock.StartTimer(start);
    clock.UpdateTimer(now);
    clock.SetGameEndedTime();
    clock.SetTimer();
    shown := clock.timer;
  }
}
