/** One alarm's 32-bit deadline and rollover flag against an unbounded tick count.

    The hardware-sized state is what the scheduler keeps; `clock` counts every tick since reset. */
module AlarmTimer {
  import opened Words

  /** The fields `time` and `rollover` of an alarm. */
  datatype Timer = Timer(time: u32, rollover: bool)

  /** The 32-bit tick counter at unbounded tick `clock`. */
  function Low(clock: nat): u32 {
    clock % U32
  }

  function Started(nticks: u32, now: u32): Timer {
    var time := (nticks + now + 1) % U32;
    Timer(time, time < now)
  }

  /** What a tick does first: the flag is cleared when the counter rolls over. */
  function Unrolled(t: Timer, now: u32): Timer {
    if t.rollover && now == 0 then t.(rollover := false) else t
  }

  predicate Expired(t: Timer, now: u32) {
    t.time <= now && !t.rollover
  }

  /** What a tick does after a callback that returned `period`. */
  function Rearmed(t: Timer, period: u32, now: u32): Timer {
    var time := (t.time + period) % U32;
    Timer(time, t.rollover || time < now)
  }

  /** The timer stands for the unbounded `deadline`; the flag is set exactly when the deadline lies in the
      next epoch of the 32-bit counter. */
  ghost predicate Tracks(t: Timer, deadline: nat, clock: nat) {
    && clock < deadline < clock + U32
    && t.time == Low(deadline)
    && (t.rollover <==> deadline / U32 == clock / U32 + 1)
  }

  /** Starting an alarm meets its deadline exactly for nticks below 2^32 - 1. */
  lemma StartTracks(nticks: u32, clock: nat)
    ensures Tracks(Started(nticks, Low(clock)), clock + nticks + 1, clock) <==> nticks < U32 - 1
  {
  }

  /** A tick makes the callback exactly at the deadline, and otherwise keeps the timer on it. */
  lemma TickTracks(t: Timer, deadline: nat, clock: nat)
    requires Tracks(t, deadline, clock)
    ensures Expired(Unrolled(t, Low(clock + 1)), Low(clock + 1)) <==> clock + 1 == deadline
    ensures clock + 1 < deadline ==> Tracks(Unrolled(t, Low(clock + 1)), deadline, clock + 1)
  {
  }

  /** A callback's period is counted from the deadline just met, so nothing drifts. */
  lemma RearmTracks(t: Timer, deadline: nat, clock: nat, period: u32)
    requires Tracks(t, deadline, clock) && clock + 1 == deadline
    requires period > 0
    ensures Tracks(Rearmed(Unrolled(t, Low(deadline)), period, Low(deadline)), deadline + period, deadline)
  {
  }

  /** A callback that has restarted its own alarm moves the new deadline on by the period it returns, and the timer
      follows exactly as long as the sum stays within one turn of the counter. */
  lemma SelfRestartTracks(t: Timer, deadline: nat, clock: nat, period: u32)
    requires Tracks(t, deadline, clock)
    ensures Tracks(Rearmed(t, period, Low(clock)), deadline + period, clock) <==> deadline + period < clock + U32
  {
  }

  // ------------------------------------------------------------------ whole runs of one alarm

  /** The ticks among the next `ticks` ones at which the callback runs, when it returns the given periods
      in turn; returning zero, or running out of periods, unregisters the alarm. */
  ghost function Calls(t: Timer, clock: nat, ticks: nat, periods: seq<u32>): seq<nat>
    decreases ticks
  {
    if ticks == 0 then []
    else
      var now := Low(clock + 1);
      var u := Unrolled(t, now);
      if !Expired(u, now) then Calls(u, clock + 1, ticks - 1, periods)
      else if periods == [] || periods[0] == 0 then [clock + 1]
      else [clock + 1] + Calls(Rearmed(u, periods[0], now), clock + 1, ticks - 1, periods[1..])
  }

  /** The calls an unbounded clock would make: at `deadline`, then after each returned period, up to `limit`. */
  ghost function Due(deadline: nat, limit: nat, periods: seq<u32>): seq<nat>
    decreases |periods|
  {
    if deadline > limit then []
    else if periods == [] || periods[0] == 0 then [deadline]
    else [deadline] + Due(deadline + periods[0], limit, periods[1..])
  }

  lemma {:induction false} TrackedRun(t: Timer, deadline: nat, clock: nat, ticks: nat, periods: seq<u32>)
    requires Tracks(t, deadline, clock)
    ensures Calls(t, clock, ticks, periods) == Due(deadline, clock + ticks, periods)
    decreases ticks
  {
    if ticks > 0 {
      TickTracks(t, deadline, clock);
      var u := Unrolled(t, Low(clock + 1));
      if clock + 1 < deadline {
        TrackedRun(u, deadline, clock + 1, ticks - 1, periods);
      } else if periods != [] && periods[0] != 0 {
        RearmTracks(t, deadline, clock, periods[0]);
        TrackedRun(Rearmed(u, periods[0], Low(deadline)), deadline + periods[0], deadline, ticks - 1, periods[1..]);
      }
    }
  }

  /** From start to any later tick, over any number of rollovers of the 32-bit counter, an alarm started with
      nticks < 2^32 - 1 is called at exactly the ticks an unbounded clock gives. */
  lemma AlarmIsExact(nticks: u32, clock: nat, ticks: nat, periods: seq<u32>)
    requires nticks < U32 - 1
    ensures Calls(Started(nticks, Low(clock)), clock, ticks, periods) == Due(clock + nticks + 1, clock + ticks, periods)
  {
    StartTracks(nticks, clock);
    TrackedRun(Started(nticks, Low(clock)), clock + nticks + 1, clock, ticks, periods);
  }

  /** With nticks == 2^32 - 1, unless the alarm is started on the last tick of an epoch, the sum wraps onto the
      current tick without setting the flag, and the callback runs at the very next tick. */
  lemma CalledAtNextTick(clock: nat, ticks: nat, periods: seq<u32>)
    requires ticks > 0 && Low(clock) != U32 - 1
    ensures var calls := Calls(Started(U32 - 1, Low(clock)), clock, ticks, periods);
      calls != [] && calls[0] == clock + 1
  {
    var t := Started(U32 - 1, Low(clock));
    NextLow(clock);
    assert Unrolled(t, Low(clock + 1)) == t && Expired(t, Low(clock + 1));
  }

  lemma NextLow(clock: nat)
    ensures Low(clock + 1) == if Low(clock) == U32 - 1 then 0 else Low(clock) + 1
  {
  }

  /** Started on the last tick of an epoch such an alarm is on time: it sees the counter start anew first. */
  lemma OnTimeAtEpochEnd(clock: nat, ticks: nat, periods: seq<u32>)
    requires ticks > 0 && Low(clock) == U32 - 1
    ensures Calls(Started(U32 - 1, Low(clock)), clock, ticks, periods) == Due(clock + U32, clock + ticks, periods)
  {
    var t := Started(U32 - 1, Low(clock));
    NextLow(clock);
    assert Unrolled(t, 0) == t && !Expired(t, 0);
    EpochEndTracks(clock);
    TrackedRun(t, clock + U32, clock + 1, ticks - 1, periods);
  }

  lemma EpochEndTracks(clock: nat)
    requires Low(clock) == U32 - 1
    ensures Tracks(Started(U32 - 1, Low(clock)), clock + U32, clock + 1)
  {
  }

  lemma DueNotBefore(deadline: nat, limit: nat, periods: seq<u32>)
    ensures var due := Due(deadline, limit, periods); due != [] ==> due[0] == deadline
  {
  }

  /** The bound is needed: an alarm is called on time exactly when nticks < 2^32 - 1, or it is started on the
      last tick of an epoch. */
  lemma OnTimeIff(nticks: u32, clock: nat, ticks: nat, periods: seq<u32>)
    requires ticks > 0
    ensures Calls(Started(nticks, Low(clock)), clock, ticks, periods) == Due(clock + nticks + 1, clock + ticks, periods)
            <==> nticks < U32 - 1 || Low(clock) == U32 - 1
  {
    if nticks < U32 - 1 {
      AlarmIsExact(nticks, clock, ticks, periods);
    } else if Low(clock) == U32 - 1 {
      OnTimeAtEpochEnd(clock, ticks, periods);
    } else {
      CalledAtNextTick(clock, ticks, periods);
      DueNotBefore(clock + U32, clock + ticks, periods);
    }
  }
}
