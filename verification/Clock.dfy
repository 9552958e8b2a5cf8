/** The system clock: 32-bit counters extended by counting their overflows. */
module Clock {
  const UINT32_SIZE := 0x1_0000_0000
  const UINT32_MAX := 0xffff_ffff
  /** Milliseconds in one round of the 32 kHz timer. */
  const ROUND := 0x800_0000
  const INT64_SIZE := 0x8000_0000_0000_0000

  /** 32 kHz ticks since 1970 that counter and timer stand for; the timer counts down. */
  function Ticks(overflows: nat, timer: nat): int {
    overflows * UINT32_SIZE + (UINT32_MAX - timer)
  }

  class SystemClock {
    var milisOverflows: nat
    var secondsOverflows: nat
    /** The down-counting timer and the seconds counter of the real-time clock. */
    var timer: nat
    var rtc: nat

    ghost predicate Valid()
      reads this
    {
      milisOverflows < UINT32_SIZE && secondsOverflows < UINT32_SIZE && timer < UINT32_SIZE && rtc < UINT32_SIZE
    }

    constructor ()
      ensures Valid() && milisOverflows == 0 && secondsOverflows == 0 && timer == UINT32_MAX && rtc == 0
    {
      milisOverflows, secondsOverflows, timer, rtc := 0, 0, UINT32_MAX, 0;
    }

    /** `systime_timer_overflow`. */
    method TimerOverflow()
      requires Valid()
      modifies this`milisOverflows
      ensures Valid() && milisOverflows == (old(milisOverflows) + 1) % UINT32_SIZE
    {
      milisOverflows := (milisOverflows + 1) % UINT32_SIZE;
    }

    /** `systime_rtc_overflow`. */
    method RtcOverflow()
      requires Valid()
      modifies this`secondsOverflows
      ensures Valid() && secondsOverflows == (old(secondsOverflows) + 1) % UINT32_SIZE
    {
      secondsOverflows := (secondsOverflows + 1) % UINT32_SIZE;
    }

    /** n ticks of the timer; at each wrap it raises the interrupt once. */
    method Run(n: nat)
      requires Valid() && Ticks(milisOverflows, timer) + n < UINT32_SIZE * UINT32_SIZE
      modifies this`milisOverflows, this`timer
      ensures Valid() && Ticks(milisOverflows, timer) == old(Ticks(milisOverflows, timer)) + n
    {
      for i := 0 to n
        invariant Valid() && Ticks(milisOverflows, timer) == old(Ticks(milisOverflows, timer)) + i
      {
        if timer == 0 {
          timer := UINT32_MAX;
          TimerOverflow();
        } else {
          timer := timer - 1;
        }
      }
    }

    /** n seconds of the real-time clock. */
    method RunSeconds(n: nat)
      requires Valid() && secondsOverflows * UINT32_SIZE + rtc + n < UINT32_SIZE * UINT32_SIZE
      modifies this`secondsOverflows, this`rtc
      ensures Valid()
      ensures secondsOverflows * UINT32_SIZE + rtc == old(secondsOverflows * UINT32_SIZE + rtc) + n
    {
      for i := 0 to n
        invariant Valid() && secondsOverflows * UINT32_SIZE + rtc == old(secondsOverflows * UINT32_SIZE + rtc) + i
      {
        if rtc == UINT32_MAX {
          rtc := 0;
          RtcOverflow();
        } else {
          rtc := rtc + 1;
        }
      }
    }

    /** `systime_unix`.  The product fits a signed 64-bit word for fewer than 2^31 overflows. */
    method Unix() returns (t: int)
      requires Valid() && secondsOverflows < UINT32_SIZE / 2
      ensures t == secondsOverflows * UINT32_SIZE + rtc
    {
      return secondsOverflows * UINT32_SIZE + rtc;
    }

    /** `systime_unix_milli`: both counters are divided on their own, which loses nothing. */
    method UnixMilli() returns (t: int)
      requires Valid() && milisOverflows < UINT32_SIZE / 2
      ensures t == Ticks(milisOverflows, timer) / 32
    {
      t := milisOverflows * UINT32_SIZE / 32 + (UINT32_MAX - timer) / 32;
      assert milisOverflows * UINT32_SIZE / 32 == milisOverflows * (UINT32_SIZE / 32);
    }

    /** `systime_set_unix`: nothing for times up to 0. */
    method SetUnix(unix: int)
      requires Valid() && unix * 1000 < INT64_SIZE
      modifies this
      ensures Valid()
      ensures unix <= 0 ==> milisOverflows == old(milisOverflows) && timer == old(timer)
      ensures unix <= 0 ==> secondsOverflows == old(secondsOverflows) && rtc == old(rtc)
      ensures unix > 0 ==> secondsOverflows < UINT32_SIZE / 2 && secondsOverflows * UINT32_SIZE + rtc == unix
      ensures 0 < 32000 * unix < INT64_SIZE ==> Ticks(milisOverflows, timer) == 32000 * unix
    {
      if unix <= 0 {
        return;
      }
      secondsOverflows := unix / UINT32_SIZE % UINT32_SIZE;
      rtc := unix % UINT32_SIZE;
      milisOverflows := unix * 1000 / ROUND % UINT32_SIZE;
      var remaining := unix * 1000 % ROUND;
      timer := UINT32_MAX - remaining * 32;
    }
  }

  /** The extended clock is exact: right after it was set to `unix` seconds these read back; n ticks and s seconds of the
      second clock later it reads 32000 * unix + n ticks in milliseconds, rounded down, and unix + s seconds, as long as
      the overflow counts stay below 2^31. */
  method SetAndRun(unix: int, n: nat, s: nat) returns (seconds: int, later: int, milli: int)
    requires unix > 0 && 32000 * unix + n < INT64_SIZE && unix + s < INT64_SIZE
    ensures seconds == unix && later == unix + s && milli == (32000 * unix + n) / 32
  {
    var c := new SystemClock();
    c.SetUnix(unix);
    seconds := c.Unix();
    c.Run(n);
    c.RunSeconds(s);
    later := c.Unix();
    milli := c.UnixMilli();
  }
}
