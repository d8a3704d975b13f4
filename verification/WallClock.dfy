/** settimeofday and gettimeofday on top of the 32-bit tick counter. */
module WallClock {
  import opened Division
  import opened Words

  const ALT_US := 1_000_000

  /** A value stored to a 32-bit signed field. */
  function ToS32(x: int): (r: int)
    ensures -0x8000_0000 <= r < 0x8000_0000
    ensures -0x8000_0000 <= x < 0x8000_0000 ==> r == x
  {
    var y := x % U32;
    if y < 0x8000_0000 then y else y - U32
  }

  datatype TimeVal = TimeVal(sec: int, usec: int)
  datatype TimeZone = TimeZone(minuteswest: int, dsttime: int)

  function Micros(t: TimeVal): int {
    t.sec * ALT_US + t.usec
  }

  predicate Normalised(t: TimeVal) {
    0 <= t.sec < 0x8000_0000 && 0 <= t.usec < ALT_US
  }

  /** The reset time settimeofday stores for tick n; its product is a 32-bit one. */
  function ResetFor(t: TimeVal, n: u32, rate: u32): TimeVal
    requires rate > 0
  {
    TimeVal(ToS32(t.sec - n / rate), ToS32(t.usec - n * (ALT_US / rate) % U32 % ALT_US))
  }

  /** The sums gettimeofday starts from at tick n; its product is a 64-bit one. */
  function RawAt(reset: TimeVal, n: u32, rate: u32): TimeVal
    requires rate > 0
  {
    TimeVal(ToS32(reset.sec + n / rate), ToS32(reset.usec + n * (ALT_US / rate) % ALT_US))
  }

  /** What the normalising loops make of a pair: the same number of microseconds with the second part below one
      second, or zero if there are no seconds to borrow from. */
  function Settled(raw: TimeVal): TimeVal {
    if raw.usec < 0 && Micros(raw) < 0 then TimeVal(0, 0)
    else TimeVal(Micros(raw) / ALT_US, Micros(raw) % ALT_US)
  }

  class Clock {
    var nticks: u32
    var tickRate: u32
    var resettime: TimeVal
    var timezone: TimeZone

    /** settimeofday; false when there is no system clock. */
    method SetTimeOfDay(t: TimeVal, tz: TimeZone) returns (ok: bool)
      modifies this`resettime, this`timezone
      ensures ok <==> tickRate != 0
      ensures ok ==> resettime == ResetFor(t, nticks, tickRate) && timezone == tz
      ensures !ok ==> resettime == old(resettime) && timezone == old(timezone)
    {
      if tickRate != 0 {
        resettime := TimeVal(ToS32(t.sec - nticks / tickRate),
                             ToS32(t.usec - nticks * (ALT_US / tickRate) % U32 % ALT_US));
        timezone := tz;
        return true;
      }
      return false;
    }

    /** gettimeofday; false when there is no system clock.  The loops carry whole seconds between the parts. */
    method GetTimeOfDay() returns (ok: bool, t: TimeVal, tz: TimeZone)
      ensures ok <==> tickRate != 0
      ensures ok ==> t == Settled(RawAt(resettime, nticks, tickRate))
      ensures ok ==> tz == timezone
    {
      t, tz := TimeVal(0, 0), timezone;
      if tickRate == 0 {
        return false, t, tz;
      }
      var sec := ToS32(resettime.sec + nticks / tickRate);
      var usec := ToS32(resettime.usec + nticks * (ALT_US / tickRate) % ALT_US);
      ghost var raw := TimeVal(sec, usec);
      while usec < 0
        invariant usec < ALT_US || (sec, usec) == (raw.sec, raw.usec)
        invariant Micros(TimeVal(sec, usec)) == Micros(raw)
        invariant usec >= 0 && raw.usec < 0 ==> sec >= 0
        decreases -usec
      {
        if sec <= 0 {
          sec, usec := 0, 0;
          break;
        } else {
          sec := sec - 1;
          usec := usec + ALT_US;
        }
      }
      while usec >= ALT_US
        invariant usec >= 0
        invariant (TimeVal(sec, usec) == TimeVal(0, 0) && raw.usec < 0 && Micros(raw) < 0)
               || (Micros(TimeVal(sec, usec)) == Micros(raw) && (raw.usec < 0 ==> Micros(raw) >= 0))
      {
        sec := sec + 1;
        usec := usec - ALT_US;
      }
      return true, TimeVal(sec, usec), tz;
    }
  }

  /** For a rate that divides a million, tick n lies n * (10^6 / rate) microseconds after reset, split as the code
      splits it into whole seconds and the rest. */
  lemma TicksSplit(n: nat, rate: nat)
    requires rate > 0 && ALT_US % rate == 0
    ensures n * (ALT_US / rate) == n / rate * ALT_US + n * (ALT_US / rate) % ALT_US
  {
    var us, q, r := ALT_US / rate, n / rate, n % rate;
    assert rate * us == ALT_US;
    assert n * us == q * ALT_US + r * us by {
      assert n == q * rate + r;
      assert n * us == q * rate * us + r * us;
      assert q * rate * us == q * (rate * us);
    }
    assert 0 <= r * us < ALT_US by {
      assert r * us <= (rate - 1) * us;
    }
    assert (q * ALT_US + r * us) % ALT_US == r * us;
  }

  /** What the 32-bit product on the set side loses, in microseconds. */
  function Lost(n: u32, us: nat): int {
    n * us % ALT_US - n * us % U32 % ALT_US
  }

  lemma LostSmall(n: u32, us: nat)
    requires n * us < U32
    ensures Lost(n, us) == 0
  {
    NotNegative(n, us);
    var x := n * us;
    assert x % U32 == x;
  }

  /** 2^32 is 67108864 = 2^26 times 64 and a million is 15625 times 64; 2^26 is invertible modulo 15625. */
  lemma CommonMultiple(w: int, k: int)
    requires w * U32 == ALT_US * k
    ensures w % 15625 == 0
  {
    assert w * 67108864 == 15625 * k;
    // 12659 * 67108864 - 54369991 * 15625 == 1
    assert w == 15625 * (12659 * k - 54369991 * w);
  }

  /** The product loses nothing exactly if it has wrapped a multiple of 15625 times. */
  lemma LostNothing(n: u32, us: nat)
    ensures Lost(n, us) == 0 <==> n * us / U32 % 15625 == 0
  {
    RemaindersAgree(n * us);
  }

  lemma SameRemainder(x: int, l: int, k: int)
    requires x == ALT_US * k + l
    ensures x % ALT_US == l % ALT_US
  {
  }

  lemma RemaindersAgree(x: int)
    ensures x % ALT_US == x % U32 % ALT_US <==> x / U32 % 15625 == 0
  {
    var w, l := x / U32, x % U32;
    if w % 15625 == 0 {
      SameRemainder(x, l, w / 15625 * 67108864);
    } else if x % ALT_US == l % ALT_US {
      CommonMultiple(w, x / ALT_US - l / ALT_US);
    }
  }

  /** Reading the clock at tick n2 after setting it at tick n1, as seen by the user. */
  function Reading(t: TimeVal, n1: u32, n2: u32, rate: u32): TimeVal
    requires rate > 0
  {
    Settled(RawAt(ResetFor(t, n1, rate), n2, rate))
  }

  /** The reading is the set time, plus the ticks since in microseconds, less what the set side's product lost. */
  lemma RawReading(t: TimeVal, n1: u32, n2: u32, rate: u32)
    requires rate > 0 && ALT_US % rate == 0
    requires Normalised(t) && n1 <= n2 && t.sec + (n2 - n1) / rate + 2 <= 0x8000_0000
    ensures var us := ALT_US / rate;
      Micros(RawAt(ResetFor(t, n1, rate), n2, rate)) == Micros(t) + (n2 - n1) * us + Lost(n1, us)
    ensures -ALT_US < Lost(n1, ALT_US / rate) < ALT_US
  {
    var us := ALT_US / rate;
    TicksSplit(n1, rate);
    TicksSplit(n2, rate);
    assert (n2 - n1) * us == n2 * us - n1 * us;
    var d := n2 / rate - n1 / rate;
    assert 0 <= d <= (n2 - n1) / rate + 1 by {
      QuotientGap(n1, n2, rate);
    }
    var reset := ResetFor(t, n1, rate);
    assert reset.usec == t.usec - n1 * us % U32 % ALT_US;
    assert RawAt(reset, n2, rate).usec == reset.usec + n2 * us % ALT_US;
    assert RawAt(reset, n2, rate).sec == t.sec + d by {
      WrapTwice(t.sec - n1 / rate, n2 / rate);
    }
  }

  lemma Distributes(a: nat, b: nat, d: nat)
    ensures (a + b) * d == a * d + b * d
  {
  }

  lemma NearQuotient(x: nat, k: nat, s: nat, d: nat)
    requires d > 0 && x == k * d + s && s < 2 * d
    ensures k <= x / d <= k + 1
  {
    if s < d {
      DivUnique(x, k, s, d);
    } else {
      Distributes(k, 1, d);
      DivUnique(x, k + 1, s - d, d);
    }
  }

  lemma QuotientGap(a: nat, b: nat, d: nat)
    requires a <= b && d > 0
    ensures 0 <= b / d - a / d <= (b - a) / d + 1
  {
    var q, c, s := a / d, (b - a) / d, a % d + (b - a) % d;
    Distributes(q, c, d);
    NearQuotient(b, q + c, s, d);
  }

  /** The normal form has a proper microsecond part and stands for the same number of microseconds, or for zero when
      a negative microsecond part makes the whole negative. */
  lemma SettledIs(raw: TimeVal)
    ensures 0 <= Settled(raw).usec < ALT_US
    ensures if raw.usec < 0 && raw.sec * ALT_US + raw.usec < 0 then Settled(raw) == TimeVal(0, 0)
            else Settled(raw).sec * ALT_US + Settled(raw).usec == raw.sec * ALT_US + raw.usec
    ensures Micros(raw) >= 0 ==> Settled(raw).sec >= 0
  {
  }

  /** Before the first set the clock reads the time since reset. */
  lemma UptimeIsRead(n: u32, rate: u32)
    requires rate > 0 && ALT_US % rate == 0 && n / rate < 0x7FFF_FFFF
    ensures var t := Settled(RawAt(TimeVal(0, 0), n, rate));
      t.sec * ALT_US + t.usec == n * (ALT_US / rate) && 0 <= t.usec < ALT_US
  {
    TicksSplit(n, rate);
    NotNegative(n, ALT_US / rate);
    SettledIs(RawAt(TimeVal(0, 0), n, rate));
  }

  lemma WrapTwice(x: int, y: int)
    ensures ToS32(ToS32(x) + y) == ToS32(x + y)
  {
  }

  /** The wall clock is linear: a normalised time set at tick n1 reads, at a later tick n2, as that time plus the
      ticks between in microseconds, with a proper microsecond part. */
  lemma WallClockIsLinear(t: TimeVal, n1: u32, n2: u32, rate: u32)
    requires rate > 0 && ALT_US % rate == 0
    requires Normalised(t) && n1 <= n2 && t.sec + (n2 - n1) / rate + 2 <= 0x8000_0000
    requires n1 * (ALT_US / rate) < U32
    ensures var r := Reading(t, n1, n2, rate);
      Micros(r) == Micros(t) + (n2 - n1) * (ALT_US / rate) && 0 <= r.usec < ALT_US && 0 <= r.sec
  {
    var us := ALT_US / rate;
    RawReading(t, n1, n2, rate);
    NotNegative(n2 - n1, us);
    LostSmall(n1, us);
    SettledIs(RawAt(ResetFor(t, n1, rate), n2, rate));
  }

  /** Without that bound the clock is right exactly when the 32-bit product has wrapped a multiple of 15625 times, or
      time zero is read on the tick it was set and the product lost less than it should have: then the negative sum
      is clamped to zero. */
  predicate ReadsRight(t: TimeVal, n1: u32, n2: u32, rate: u32)
    requires rate > 0
  {
    var us := ALT_US / rate;
    n1 * us / U32 % 15625 == 0 || (t == TimeVal(0, 0) && n1 == n2 && Lost(n1, us) < 0)
  }

  lemma LinearIff(t: TimeVal, n1: u32, n2: u32, rate: u32)
    requires rate > 0 && ALT_US % rate == 0
    requires Normalised(t) && n1 <= n2 && t.sec + (n2 - n1) / rate + 2 <= 0x8000_0000
    ensures Micros(Reading(t, n1, n2, rate)) == Micros(t) + (n2 - n1) * (ALT_US / rate) <==> ReadsRight(t, n1, n2, rate)
  {
    var us := ALT_US / rate;
    var raw := RawAt(ResetFor(t, n1, rate), n2, rate);
    RawReading(t, n1, n2, rate);
    LostNothing(n1, us);
    NotNegative(n2 - n1, us);
    if Micros(raw) >= 0 {
      SettledIs(raw);
    } else {
      assert Settled(raw) == TimeVal(0, 0);
      if n1 < n2 {
        AtLeastOnce(n2 - n1, us);
      }
    }
  }

  lemma SameMicros(a: TimeVal, b: TimeVal)
    requires 0 <= a.usec < ALT_US && 0 <= b.usec < ALT_US
    ensures Micros(a) == Micros(b) <==> a == b
  {
  }

  /** A set time reads back at once exactly under the same condition. */
  lemma SetThenGetIff(t: TimeVal, n: u32, rate: u32)
    requires rate > 0 && ALT_US % rate == 0 && Normalised(t) && t.sec + 2 <= 0x8000_0000
    ensures Reading(t, n, n, rate) == t <==> ReadsRight(t, n, n, rate)
  {
    LinearIff(t, n, n, rate);
    SettledIs(RawAt(ResetFor(t, n, rate), n, rate));
    SameMicros(Reading(t, n, n, rate), t);
  }

  /** At 1000 ticks a second, a clock set 4295 seconds after reset reads 32704 microseconds early at once. */
  lemma ClockSetTooLate()
    ensures Reading(TimeVal(100, 0), 4_295_000, 4_295_000, 1000) == TimeVal(99, 967_296)
  {
    var reset := ResetFor(TimeVal(100, 0), 4_295_000, 1000);
    assert reset == TimeVal(-4195, -32_704);
    assert RawAt(reset, 4_295_000, 1000) == TimeVal(100, -32_704);
  }
}
