/** The system clock's alarms: an intrusive circular doubly linked list that `Tick` walks while callbacks
    start and stop other alarms. */
module AlarmQueue {
  import opened AlarmTimer
  import opened RingList
  import opened Words

  class Alarm {
    var next: Alarm?
    var previous: Alarm?
    var time: u32
    var rollover: bool
    ghost var started: bool    // it has been on the list at some time
    ghost var fired: seq<nat>  // the ticks at which the callback has run since the last start
    ghost var plan: seq<nat>   // the ticks the start call and the returned periods have asked for
    ghost var answers: seq<u32>  // what its callback has returned, call by call; nothing but the callback adds to it

    constructor ()
      ensures next == null && previous == null && !started && answers == []
    {
      next, previous, time, rollover, started, answers := null, null, 0, false, false, [];
    }
  }

  /** The ticks an alarm has been called at since its start, the ticks that were asked for, and the periods its
      callback has returned. */
  datatype History = History(fired: seq<nat>, plan: seq<nat>, answers: seq<u32>)

  /** The 32-bit fields of an alarm and its history. */
  datatype Data = Data(timer: Timer, past: History)

  datatype StartResult = StartOk | InvalidArgument | NotSupported

  class Clock {
    const head: Alarm            // alt_alarm_list
    const pool: set<Alarm>       // every alarm structure of the program, and the list head
    var nticks: u32
    var tickRate: u32
    ghost var clock: nat         // ticks since reset
    ghost var handled: set<Alarm>  // the alarms that callbacks have stopped or started in this tick; only they add to it
    ghost var ring: seq<Alarm>   // the list as the `next` fields link it, from the head round to the head

    /** The list is circular, `next` and `previous` are mutually inverse, no alarm is on it twice, and an
        alarm off the list points to itself or, before its first start, nowhere. */
    ghost predicate Linked()
      reads this`ring, pool`next, pool`previous, pool`started
    {
      && IsRing(ring) && ring[0] == head
      && (forall i :: 0 <= i < |ring| ==> ring[i] in pool)
      && (forall i {:trigger ring[i].next} :: 0 <= i < |ring| - 1 ==> ring[i].next == ring[i + 1])
      && (forall i {:trigger ring[i].previous} :: 0 < i < |ring| ==> ring[i].previous == ring[i - 1])
      && (forall i {:trigger ring[i].started} :: 0 < i < |ring| - 1 ==> ring[i].started)
      && (forall a {:trigger Unlinked(a)} {:trigger a.next} :: a in pool && a !in ring ==> Unlinked(a))
    }

    ghost predicate Unlinked(a: Alarm)
      reads a`next, a`previous, a`started
    {
      (a.next == a && a.previous == a) || (a.next == null && a.previous == null && !a.started)
    }

    constructor (pool: set<Alarm>, head: Alarm, tickRate: u32)
      requires head in pool
      requires forall a :: a in pool && a != head ==> a.next == null && a.previous == null && !a.started
      modifies head
      ensures Linked() && ring == [head, head] && this.pool == pool && this.tickRate == tickRate
      ensures clock == 0 && nticks == 0
    {
      this.pool, this.head, this.tickRate := pool, head, tickRate;
      nticks, clock, ring := 0, 0, [head, head];
      new;
      head.next, head.previous := head, head;
    }

    /** alt_llist_insert on the alarm list: prepends. */
    method Insert(entry: Alarm)
      requires Linked() && entry in pool && entry !in ring
      modifies this`ring, pool`next, pool`previous, entry`started
      ensures Linked() && ring == [head, entry] + old(ring)[1..] && entry.started
    {
      entry.previous := head;
      entry.next := head.next;
      head.next.previous := entry;
      head.next := entry;
      ring, entry.started := [head, entry] + ring[1..], true;
      forall a {:trigger Unlinked(a)} | a in pool && a !in ring
        ensures Unlinked(a)
      {
        assert old(a in ring || a.next == a || a.next == null);
      }
    }

    static lemma DropKeepsNext(r: seq<Alarm>, k: nat, n0: map<Alarm?, Alarm?>, n1: map<Alarm?, Alarm?>)
      requires IsRing(r) && 0 < k < |r| - 1
      requires forall i {:trigger r[i] in n0} {:trigger n0[r[i]]} :: 0 <= i < |r| - 1 ==> r[i] in n0 && n0[r[i]] == r[i + 1]
      requires forall a :: a in n0 && a != r[k] ==> a in n1 && n1[a] == if a == r[k - 1] then r[k + 1] else n0[a]
      ensures forall i :: 0 <= i < |Without(r, k)| - 1 ==> Without(r, k)[i] in n1 && n1[Without(r, k)[i]] == Without(r, k)[i + 1]
    {
    }

    static lemma DropKeepsPrevious(r: seq<Alarm>, k: nat, p0: map<Alarm?, Alarm?>, p1: map<Alarm?, Alarm?>)
      requires IsRing(r) && 0 < k < |r| - 1
      requires forall i {:trigger r[i] in p0} {:trigger p0[r[i]]} :: 0 < i < |r| ==> r[i] in p0 && p0[r[i]] == r[i - 1]
      requires forall a :: a in p0 && a != r[k] ==> a in p1 && p1[a] == if a == r[k + 1] then r[k - 1] else p0[a]
      ensures forall i :: 0 < i < |Without(r, k)| ==> Without(r, k)[i] in p1 && p1[Without(r, k)[i]] == Without(r, k)[i - 1]
    {
    }

    /** The pointers `alt_llist_remove` leaves for the alarm at place k link the list without place k. */
    twostate lemma Rejoined(k: nat)
      requires old(Linked()) && 0 < k < |old(ring)| - 1
      requires ring == Without(old(ring), k)
      requires forall a: Alarm {:trigger a.next} :: a in pool ==>
        a.next == if a == old(ring)[k] then a else if a == old(ring)[k - 1] then old(ring)[k + 1] else old(a.next)
      requires forall a: Alarm {:trigger a.previous} :: a in pool ==>
        a.previous == if a == old(ring)[k] then a else if a == old(ring)[k + 1] then old(ring)[k - 1] else old(a.previous)
      ensures forall i {:trigger ring[i].next} :: 0 <= i < |ring| - 1 ==> ring[i].next == ring[i + 1]
      ensures forall i {:trigger ring[i].previous} :: 0 < i < |ring| ==> ring[i].previous == ring[i - 1]
      ensures IsRing(ring) && old(ring)[k] !in ring
      ensures forall a :: a in old(ring) && a != old(ring)[k] ==> a in ring
    {
      var r := old(ring);
      DropKeepsRing(r, k);
      var n0: map<Alarm?, Alarm?>, n1: map<Alarm?, Alarm?> := old(map a: Alarm | a in pool :: a.next), map a: Alarm | a in pool :: a.next;
      DropKeepsNext(r, k, n0, n1);
      forall i {:trigger ring[i].next} | 0 <= i < |ring| - 1
        ensures ring[i].next == ring[i + 1]
      {
        assert ring[i] in n1;
      }
      var p0: map<Alarm?, Alarm?>, p1: map<Alarm?, Alarm?> := old(map a: Alarm | a in pool :: a.previous), map a: Alarm | a in pool :: a.previous;
      DropKeepsPrevious(r, k, p0, p1);
      forall i {:trigger ring[i].previous} | 0 < i < |ring|
        ensures ring[i].previous == ring[i - 1]
      {
        assert ring[i] in p1;
      }
    }

    /** The four assignments of alt_llist_remove, for an entry between `before` and `after`, or pointing to itself. */
    method RemovePointers(entry: Alarm, ghost before: Alarm, ghost after: Alarm)
      requires {entry, before, after} <= pool && entry.next == after && entry.previous == before
      modifies pool`next, pool`previous
      ensures forall a: Alarm {:trigger a.next} :: a in pool ==> a.next == if a == entry then a else if a == before then after else old(a.next)
      ensures forall a: Alarm {:trigger a.previous} :: a in pool ==> a.previous == if a == entry then a else if a == after then before else old(a.previous)
    {
      entry.next.previous := entry.previous;
      entry.previous.next := entry.next;
      entry.previous := entry;
      entry.next := entry;
    }

    /** alt_llist_remove: deletes exactly this entry, at place k, and changes nothing for an entry already
        removed, for which k is zero. */
    method Remove(entry: Alarm) returns (ghost k: nat)
      requires Linked() && entry in pool && entry != head && entry.next != null
      modifies this`ring, pool`next, pool`previous
      ensures Linked() && entry.next == entry && entry !in ring
      ensures entry !in old(ring) ==> ring == old(ring)
      ensures entry !in old(ring) ==> forall a: Alarm {:trigger a.next} {:trigger a.previous} :: a in pool ==> a.next == old(a.next) && a.previous == old(a.previous)
      ensures k == 0 <==> entry !in old(ring)
      ensures k > 0 ==> k < |old(ring)| - 1 && old(ring)[k] == entry && ring == Without(old(ring), k)
    {
      k := 0;
      ghost var before, after := entry, entry;
      if entry in ring {
        k :| 0 <= k < |ring| && ring[k] == entry;
        before, after := ring[k - 1], ring[k + 1];
        assert ring[k].next == after && ring[k].previous == before;
      }
      RemovePointers(entry, before, after);
      if entry in ring {
        ring := Without(ring, k);
        Rejoined(k);
      }
      forall a {:trigger Unlinked(a)} | a in pool && a !in ring
        ensures Unlinked(a)
      {
        assert old(a in ring || a.next == a || a.next == null);
      }
    }

    ghost function Past(a: Alarm): History
      reads a`fired, a`plan, a`answers
    {
      History(a.fired, a.plan, a.answers)
    }

    ghost function Pasts(): map<Alarm, History>
      reads pool
    {
      map a | a in pool :: Past(a)
    }

    /** The alarm's 32-bit fields stand for the last planned tick, and every earlier planned tick has been met. */
    ghost predicate OnPlan(a: Alarm, now: nat)
      reads a`time, a`rollover, a`fired, a`plan
    {
      && |a.plan| == |a.fired| + 1
      && a.fired == a.plan[..|a.fired|]
      && Tracks(Timer(a.time, a.rollover), a.plan[|a.fired|], now)
    }

    /** Between two ticks every registered alarm has been called at exactly the planned ticks so far, and its
        next call lies in the future. */
    ghost predicate Valid()
      reads this, pool
    {
      && Linked()
      && nticks == Low(clock)
      && forall i :: 0 < i < |ring| - 1 ==> OnPlan(ring[i], clock)
    }

    twostate predicate SameData(a: Alarm)
      reads a`time, a`rollover, a`fired, a`plan
    {
      a.time == old(a.time) && a.rollover == old(a.rollover) && a.fired == old(a.fired) && a.plan == old(a.plan)
    }

    /** A registered alarm points to a neighbour, never to itself. */
    lemma RegisteredPointsElsewhere(a: Alarm)
      requires Linked() && a in ring && a != head
      ensures a.next != null && a.next != a
    {
    }

    /** Computes the deadline and the rollover flag of an alarm that is being started. */
    method Schedule(a: Alarm, n: u32)
      requires nticks == Low(clock) && n < U32 - 1
      modifies a`time, a`rollover, a`plan, a`fired
      ensures OnPlan(a, clock) && a.plan == [clock + n + 1] && a.fired == []
    {
      a.time := (n + nticks + 1) % U32;
      a.rollover := a.time < nticks;
      a.plan, a.fired := [clock + n + 1], [];
      StartTracks(n, clock);
    }

    /** The part of alt_alarm_start that runs with interrupts disabled. */
    method Register(a: Alarm, n: u32)
      requires Linked() && nticks == Low(clock)
      requires a in pool && a !in ring && n < U32 - 1
      modifies this`ring, pool`next, pool`previous, a`started, a`time, a`rollover, a`plan, a`fired
      ensures Linked() && ring == [head, a] + old(ring)[1..]
      ensures OnPlan(a, clock) && a.plan == [clock + n + 1] && a.started
      ensures forall b: Alarm :: b in pool && b != a ==> SameData(b)
    {
      Schedule(a, n);
      Insert(a);
    }

    /** alt_alarm_start.  The alarm must not be registered already. */
    method Start(alarm: Alarm?, n: u32) returns (r: StartResult)
      requires Valid()
      requires alarm != null ==> alarm in pool && alarm !in ring && n < U32 - 1
      modifies this`ring, pool
      ensures Valid()
      ensures r == if tickRate == 0 then NotSupported else if alarm == null then InvalidArgument else StartOk
      ensures r == StartOk ==> ring == [head, alarm] + old(ring)[1..] && alarm.plan == [clock + n + 1] && alarm.fired == []
      ensures r != StartOk ==> ring == old(ring)
      ensures forall b: Alarm :: b in pool && (b != alarm || r != StartOk) ==> SameData(b)
    {
      if tickRate != 0 {
        if alarm != null {
          Register(alarm, n);
          r := StartOk;
        } else {
          r := InvalidArgument;
        }
      } else {
        r := NotSupported;
      }
    }

    /** alt_alarm_stop.  Stopping an alarm again changes nothing. */
    method Stop(alarm: Alarm) returns (ghost k: nat)
      requires Valid() && alarm in pool && alarm != head && alarm.next != null
      modifies this`ring, pool`next, pool`previous
      ensures Valid() && alarm !in ring
      ensures alarm !in old(ring) ==> ring == old(ring)
      ensures k == 0 <==> alarm !in old(ring)
      ensures k > 0 ==> k < |old(ring)| - 1 && old(ring)[k] == alarm && ring == Without(old(ring), k)
    {
      k := Remove(alarm);
    }

    // ---------------------------------------------------------------- the tick

    /** Every started alarm on the list is on plan. */
    ghost predicate RestartedOnPlan(touched: set<Alarm>, except: Alarm)
      reads this`ring, this`clock, touched
    {
      forall a :: a in touched && a in ring && a != except ==> OnPlan(a, clock)
    }

    /** A callback stops `b`, which is not the alarm the walk goes on with. */
    method StopStep(alarm: Alarm, next: Alarm, b: Alarm, ghost r0: seq<Alarm>, ghost p: nat, ghost q: nat, ghost touched: set<Alarm>)
      returns (ghost q': nat)
      requires Linked() && b in pool && b != head && b != next && b.next != null
      requires Walked(r0, p, ring, q, touched) && ring[q] == next && touched <= pool
      requires RestartedOnPlan(touched, alarm)
      modifies this`ring, pool`next, pool`previous
      ensures Linked() && Walked(r0, p, ring, q', touched + {b}) && ring[q'] == next
      ensures RestartedOnPlan(touched + {b}, alarm) && b !in ring
    {
      ghost var k := Remove(b);
      q' := q;
      if k > 0 {
        WalkedRemove(r0, p, old(ring), q, touched, k);
        q' := if k < q then q - 1 else q;
      } else {
        WalkedTouch(r0, p, ring, q, touched, b);
      }
    }

    /** A callback starts `b`, which is not registered. */
    method StartStep(alarm: Alarm, next: Alarm, b: Alarm, n: u32, ghost r0: seq<Alarm>, ghost p: nat, ghost q: nat, ghost touched: set<Alarm>)
      requires Linked() && nticks == Low(clock) && n < U32 - 1
      requires b in pool && b != head && (b.next == null || b.next == b)
      requires Walked(r0, p, ring, q, touched) && ring[q] == next && touched <= pool
      requires RestartedOnPlan(touched, alarm)
      modifies this`ring, pool`next, pool`previous, b`started, b`time, b`rollover, b`plan, b`fired
      ensures Linked() && Walked(r0, p, ring, q + 1, touched + {b}) && ring[q + 1] == next
      ensures RestartedOnPlan(touched + {b}, alarm)
      ensures OnPlan(b, clock) && b.plan == [clock + n + 1] && b.started
    {
      assert b !in ring by {
        if b in ring {
          RegisteredPointsElsewhere(b);
        }
      }
      WalkedInsert(r0, p, ring, q, touched, b);
      Register(b, n);
    }

    /** The state of an alarm that its own callback has restarted for so many ticks ahead; zero says that it has not. */
    ghost predicate Restarted(a: Alarm, ahead: nat)
      reads this`clock, a`time, a`rollover, a`fired, a`plan
    {
      ahead > 0 ==> OnPlan(a, clock) && a.plan == [clock + ahead]
    }

    /** One call that a callback makes: it stops or starts `b`, if it may. */
    method CallbackStep(alarm: Alarm, next: Alarm, b: Alarm, stop: bool, n: u32, ahead: nat,
                        ghost r0: seq<Alarm>, ghost p: nat, ghost q: nat, ghost touched: set<Alarm>)
      returns (ghost q': nat, ghost touched': set<Alarm>, ahead': nat)
      requires Linked() && nticks == Low(clock) && {alarm, b} <= pool
      requires Walked(r0, p, ring, q, touched) && ring[q] == next && touched <= pool
      requires RestartedOnPlan(touched, alarm) && Restarted(alarm, ahead)
      modifies this`ring, pool`next, pool`previous, pool`started, pool`time, pool`rollover, pool`plan, pool`fired
      ensures Linked() && Walked(r0, p, ring, q', touched') && ring[q'] == next
      ensures touched <= touched' <= touched + {b} && RestartedOnPlan(touched', alarm)
      ensures Restarted(alarm, ahead')
      ensures (ahead' == ahead && SameData(alarm)) || (ahead' > 0 && alarm in touched')
      ensures forall a: Alarm :: a in pool && a !in touched' ==> SameData(a)
      ensures old(alarm.started) ==> alarm.started
    {
      q', touched', ahead' := q, touched, ahead;
      if stop {
        if b != head && b != next && b.next != null {
          q' := StopStep(alarm, next, b, r0, p, q, touched);
          touched' := touched + {b};
        }
      } else if b != head && (b.next == null || b.next == b) && n < U32 - 1 {
        StartStep(alarm, next, b, n, r0, p, q, touched);
        q', touched' := q + 1, touched + {b};
        if b == alarm {
          ahead' := n + 1;
        }
      }
    }

    /** The stops and starts that the callback of the alarm at place p of the list makes: of any of the alarms `free`,
        its own included, except that it does not stop the alarm the walk goes on with.  `touched` is the set of alarms
        it did stop or start, q the new place of the alarm the walk goes on with, and `ahead` how many ticks ahead it has
        restarted its own alarm, if it has. */
    method CallbackBody(alarm: Alarm, next: Alarm, ghost p: nat, free: set<Alarm>)
      returns (ghost q: nat, ghost touched: set<Alarm>, ahead: nat)
      requires Linked() && nticks == Low(clock)
      requires 0 < p < |ring| - 1 && ring[p] == alarm && ring[p + 1] == next
      modifies this`ring, pool`next, pool`previous, pool`started, pool`time, pool`rollover, pool`plan, pool`fired
      ensures Linked() && Walked(old(ring), p, ring, q, touched) && ring[q] == next
      ensures touched <= pool && touched <= free && RestartedOnPlan(touched, alarm)
      ensures if ahead == 0 then SameData(alarm) else alarm in touched
      ensures Restarted(alarm, ahead) && alarm.started
      ensures forall a: Alarm :: a in pool && a !in touched ==> SameData(a)
    {
      q, touched, ahead := p + 1, {}, 0;
      WalkedStart(ring, p);
      assert alarm.started;
      var calls: nat := *;
      while calls > 0
        invariant Linked() && Walked(old(ring), p, ring, q, touched) && ring[q] == next
        invariant touched <= pool && touched <= free && RestartedOnPlan(touched, alarm)
        invariant Restarted(alarm, ahead) && alarm.started
        invariant if ahead == 0 then SameData(alarm) else alarm in touched
        invariant forall a: Alarm :: a in pool && a !in touched ==> SameData(a)
      {
        var b :| b in pool;
        if b in free {
          var stop: bool, n: u32 := *, *;
          q, touched, ahead := CallbackStep(alarm, next, b, stop, n, ahead, old(ring), p, q, touched);
        }
        calls := calls - 1;
      }
    }

    /** The whole callback, with the period it returns; if it has restarted its own alarm, the period stays within one
        turn of the counter with the ticks ahead. */
    method Callback(alarm: Alarm, next: Alarm, ghost p: nat, free: set<Alarm>)
      returns (period: u32, ghost q: nat, ghost touched: set<Alarm>, ahead: nat)
      requires Linked() && nticks == Low(clock)
      requires 0 < p < |ring| - 1 && ring[p] == alarm && ring[p + 1] == next
      modifies this`ring, this`handled, pool
      ensures Linked() && Walked(old(ring), p, ring, q, touched) && ring[q] == next
      ensures touched <= pool && touched <= free && RestartedOnPlan(touched, alarm) && handled == old(handled) + touched
      ensures ahead == 0 ==> SameData(alarm)
      ensures ahead > 0 ==> alarm in touched && ahead + period < U32
      ensures Restarted(alarm, ahead)
      ensures forall a: Alarm :: a in pool && a !in touched ==> SameData(a)
      ensures alarm.started && alarm.answers == old(alarm.answers) + [period]
      ensures forall a: Alarm {:trigger a.answers} :: a in pool && a != alarm ==> a.answers == old(a.answers)
    {
      q, touched, ahead := CallbackBody(alarm, next, p, free);
      handled := handled + touched;
      period := *;
      if ahead > 0 && ahead + period >= U32 {
        period := 0;
      }
      alarm.answers := alarm.answers + [period];
    }

    /** While a tick stands at place p of the list, the alarms before p have had this tick and the others have not. */
    ghost predicate Midway(p: nat)
      reads this, pool
    {
      && Linked() && nticks == Low(clock) && clock > 0
      && 0 < p < |ring|
      && (forall i :: 0 < i < p ==> OnPlan(ring[i], clock))
      && (forall i :: p <= i < |ring| - 1 ==> OnPlan(ring[i], clock - 1))
    }

    /** Clears the flag on a rollover of the counter; then the alarm has expired exactly if its planned tick is now. */
    method Expire(a: Alarm) returns (expired: bool)
      requires nticks == Low(clock) && clock > 0 && OnPlan(a, clock - 1)
      modifies a`rollover
      ensures expired <==> a.plan[|a.fired|] == clock
      ensures !expired ==> OnPlan(a, clock)
      ensures expired ==> a.plan == a.fired + [clock]
      ensures expired ==> Tracks(Timer(a.time, old(a.rollover)), clock, clock - 1)
      ensures Timer(a.time, a.rollover) == Unrolled(Timer(a.time, old(a.rollover)), nticks)
    {
      TickTracks(Timer(a.time, a.rollover), a.plan[|a.fired|], clock - 1);
      if a.rollover && nticks == 0 {
        a.rollover := false;
      }
      expired := a.time <= nticks && !a.rollover;
    }

    /** Adds a returned period to the deadline, and sets the flag if the sum lies before the counter. */
    method MoveDeadline(a: Alarm, period: u32)
      modifies a`time, a`rollover
      ensures Timer(a.time, a.rollover) == Rearmed(Timer(old(a.time), old(a.rollover)), period, nticks)
    {
      a.time := (a.time + period) % U32;
      if a.time < nticks {
        a.rollover := true;
      }
    }

    /** Moves the deadline of an alarm whose callback has just returned a period: the one just met, or the one that
        the callback has set by restarting the alarm. */
    method Rearm(a: Alarm, period: u32, ghost was: Timer, ghost ahead: nat)
      requires nticks == Low(clock) && clock > 0 && period > 0
      requires ahead == 0 ==> Tracks(was, clock, clock - 1) && Timer(a.time, a.rollover) == Unrolled(was, nticks)
      requires ahead == 0 ==> a.fired == a.plan
      requires Restarted(a, ahead) && (ahead > 0 ==> ahead + period < U32)
      modifies a`time, a`rollover, a`plan
      ensures a.plan == if ahead == 0 then old(a.plan) + [clock + period] else [clock + ahead + period]
      ensures OnPlan(a, clock)
    {
      if ahead == 0 {
        RearmTracks(was, clock, clock - 1, period);
        a.plan := a.plan + [clock + period];
      } else {
        SelfRestartTracks(Timer(a.time, a.rollover), clock + ahead, clock, period);
        a.plan := [clock + ahead + period];
      }
      MoveDeadline(a, period);
    }

    /** The history of an alarm after its callback has run: rearmed by the period, or, when the callback has restarted
        it, new, with the period added to the new deadline. */
    static ghost predicate Renewed(before: History, after: History, now: nat, ahead: nat, period: u32) {
      if ahead == 0 then Served(before, after, now, true, period)
      else after == History([], [now + ahead + period], before.answers + [period])
    }

    /** What a tick does to one alarm's history: `called` says that its callback ran, and returned `period`. */
    static ghost predicate Served(before: History, after: History, now: nat, called: bool, period: u32) {
      && after.fired == before.fired + (if called then [now] else [])
      && after.plan == before.plan + (if called && period > 0 then [now + period] else [])
      && after.answers == before.answers + (if called then [period] else [])
    }

    /** After the visit of place p of the list `r0` the walk stands midway at its new place. */
    lemma MidwayMoves(r0: seq<Alarm>, p: nat, q: nat, touched: set<Alarm>)
      requires Linked() && nticks == Low(clock) && clock > 0
      requires IsRing(r0) && Walked(r0, p, ring, q, touched)
      requires forall j {:trigger r0[j]} :: 0 < j < p && r0[j] !in touched ==> OnPlan(r0[j], clock)
      requires forall j {:trigger r0[j]} :: p < j < |r0| - 1 && r0[j] !in touched ==> OnPlan(r0[j], clock - 1)
      requires RestartedOnPlan(touched, r0[p])
      requires r0[p] in ring ==> OnPlan(r0[p], clock)
      ensures Midway(q)
    {
    }

    /** The alarms that one visit may have taken off the list or put on it: those its callback touched, and the
        alarm itself if its callback returned zero. */
    static ghost function Gone(touched: set<Alarm>, alarm: Alarm, period: u32): set<Alarm> {
      if period == 0 then touched + {alarm} else touched
    }

    /** After the callback the alarm is unregistered or rearmed, also when the callback has restarted it. */
    method Settle(alarm: Alarm, next: Alarm, period: u32, ghost was: Timer, ghost ahead: nat,
                  ghost r0: seq<Alarm>, ghost p: nat, ghost q: nat, ghost touched: set<Alarm>)
      returns (ghost q': nat)
      requires Linked() && nticks == Low(clock) && clock > 0
      requires alarm in pool && alarm != head && alarm != next && alarm.started
      requires Walked(r0, p, ring, q, touched) && ring[q] == next && touched <= pool
      requires RestartedOnPlan(touched, alarm) && Restarted(alarm, ahead) && (ahead > 0 ==> ahead + period < U32)
      requires ahead == 0 ==> Tracks(was, clock, clock - 1) && alarm.fired == alarm.plan
      requires ahead == 0 ==> Timer(alarm.time, alarm.rollover) == Unrolled(was, nticks)
      modifies this`ring, pool`next, pool`previous, alarm`time, alarm`rollover, alarm`plan
      ensures Linked() && Walked(r0, p, ring, q', Gone(touched, alarm, period)) && ring[q'] == next
      ensures if period == 0 then alarm !in ring else OnPlan(alarm, clock)
      ensures ahead == 0 ==> alarm.plan == old(alarm.plan) + (if period > 0 then [clock + period] else [])
      ensures ahead > 0 ==> alarm.plan == [clock + ahead + period]
      ensures RestartedOnPlan(Gone(touched, alarm, period), alarm)
    {
      q' := q;
      if period == 0 {
        StartedIsLinked(alarm);
        q' := StopStep(alarm, next, alarm, r0, p, q, touched);
      } else {
        Rearm(alarm, period, was, ahead);
      }
    }

    /** The callback of the alarm at place p runs, and the alarm is settled. */
    method Run(alarm: Alarm, next: Alarm, ghost p: nat, ghost was: Timer, free: set<Alarm>)
      returns (period: u32, ghost q: nat, ghost touched: set<Alarm>, ahead: nat)
      requires Linked() && nticks == Low(clock) && clock > 0
      requires 0 < p < |ring| - 1 && ring[p] == alarm && ring[p + 1] == next
      requires Tracks(was, clock, clock - 1) && Timer(alarm.time, alarm.rollover) == Unrolled(was, nticks)
      requires alarm.fired == alarm.plan
      modifies this`ring, this`handled, pool
      ensures handled == old(handled) + touched
      ensures Linked() && Walked(old(ring), p, ring, q, Gone(touched, alarm, period)) && ring[q] == next
      ensures if period == 0 then alarm !in ring else OnPlan(alarm, clock)
      ensures ahead == 0 ==> alarm.fired == old(alarm.fired)
      ensures ahead == 0 ==> alarm.plan == old(alarm.plan) + (if period > 0 then [clock + period] else [])
      ensures alarm.answers == old(alarm.answers) + [period]
      ensures ahead > 0 ==> alarm in touched && Past(alarm) == History([], [clock + ahead + period], alarm.answers)
      ensures touched <= free && touched <= pool && RestartedOnPlan(Gone(touched, alarm, period), alarm)
      ensures forall a: Alarm :: a in pool && a !in touched && a != alarm ==> Datum(a) == old(Datum(a))
    {
      period, q, touched, ahead := Callback(alarm, next, p, free);
      q := Settle(alarm, next, period, was, ahead, old(ring), p, q, touched);
    }

    /** An alarm that has been started points somewhere. */
    lemma StartedIsLinked(a: Alarm)
      requires Linked() && a in pool && a != head && a.started
      ensures a.next != null
    {
      if a in ring {
        RegisteredPointsElsewhere(a);
      } else {
        assert Unlinked(a);
      }
    }

    /** What OnPlan says of an alarm, on the values of its fields. */
    static ghost predicate DataOnPlan(d: Data, now: nat) {
      && |d.past.plan| == |d.past.fired| + 1
      && d.past.fired == d.past.plan[..|d.past.fired|]
      && Tracks(d.timer, d.past.plan[|d.past.fired|], now)
    }

    ghost function Datum(a: Alarm): Data
      reads a`time, a`rollover, a`fired, a`plan, a`answers
    {
      Data(Timer(a.time, a.rollover), Past(a))
    }

    ghost predicate IsSnapshot(d: map<Alarm, Data>)
      reads pool
    {
      forall a {:trigger a in d} {:trigger d[a]} :: a in pool ==> a in d && d[a] == Datum(a)
    }

    /** The data of all alarms but some are still those of the snapshot. */
    ghost predicate OthersKept(d: map<Alarm, Data>, some: set<Alarm>)
      reads pool
    {
      forall a {:trigger a in d} {:trigger d[a]} :: a in pool && a !in some ==> a in d && d[a] == Datum(a)
    }

    /** The data of all alarms, with those of the list on plan except at place p. */
    lemma TakeData(p: nat) returns (d: map<Alarm, Data>)
      requires Linked() && clock > 0 && 0 < p < |ring| - 1
      requires forall i :: 0 < i < p ==> OnPlan(ring[i], clock)
      requires forall i :: p < i < |ring| - 1 ==> OnPlan(ring[i], clock - 1)
      ensures IsSnapshot(d)
      ensures forall i {:trigger ring[i]} :: 0 < i < |ring| - 1 ==> ring[i] in pool && ring[i] in d
      ensures forall i {:trigger ring[i]} :: 0 < i < p ==> DataOnPlan(d[ring[i]], clock)
      ensures forall i {:trigger ring[i]} :: p < i < |ring| - 1 ==> DataOnPlan(d[ring[i]], clock - 1)
    {
      d := map a | a in pool :: Datum(a);
    }

    /** The alarms of the list are on plan midway, once the callback of the alarm at place p of the list r0 has run:
        `d0` are the data before, and only the touched alarms and the alarm itself may have others now. */
    lemma MidwayAfterRun(r0: seq<Alarm>, d0: map<Alarm, Data>, p: nat, q: nat, touched: set<Alarm>, gone: set<Alarm>)
      requires Linked() && nticks == Low(clock) && clock > 0
      requires IsRing(r0) && Walked(r0, p, ring, q, gone) && touched <= gone
      requires forall i {:trigger r0[i]} :: 0 < i < |r0| - 1 ==> r0[i] in pool && r0[i] in d0
      requires forall i {:trigger r0[i]} :: 0 < i < p ==> DataOnPlan(d0[r0[i]], clock)
      requires forall i {:trigger r0[i]} :: p < i < |r0| - 1 ==> DataOnPlan(d0[r0[i]], clock - 1)
      requires OthersKept(d0, touched + {r0[p]})
      requires RestartedOnPlan(gone, r0[p]) && (r0[p] in ring ==> OnPlan(r0[p], clock))
      ensures Midway(q)
    {
      forall j {:trigger r0[j]} | 0 < j < |r0| - 1 && j != p && r0[j] !in gone
        ensures OnPlan(r0[j], if j < p then clock else clock - 1)
      {
        assert Datum(r0[j]) == d0[r0[j]];
      }
      MidwayMoves(r0, p, q, gone);
    }

    /** The call of an alarm whose planned tick is now; `d0` are the data of all alarms before. */
    method Call(alarm: Alarm, next: Alarm, ghost p: nat, ghost was: Timer, free: set<Alarm>, ghost d0: map<Alarm, Data>)
      returns (period: u32, ghost q: nat, ghost touched: set<Alarm>, ahead: nat)
      requires Linked() && nticks == Low(clock) && clock > 0
      requires 0 < p < |ring| - 1 && ring[p] == alarm && ring[p + 1] == next
      requires Tracks(was, clock, clock - 1) && Timer(alarm.time, alarm.rollover) == Unrolled(was, nticks)
      requires alarm.plan == alarm.fired + [clock]
      requires IsSnapshot(d0)
      modifies this`ring, this`handled, pool
      ensures handled == old(handled) + touched
      ensures Linked() && Walked(old(ring), p, ring, q, Gone(touched, alarm, period)) && ring[q] == next
      ensures if period == 0 then alarm !in ring else OnPlan(alarm, clock)
      ensures touched <= free && RestartedOnPlan(Gone(touched, alarm, period), alarm) && (ahead > 0 ==> alarm in touched)
      ensures alarm in d0 && Renewed(d0[alarm].past, Past(alarm), clock, ahead, period)
      ensures OthersKept(d0, touched + {alarm})
    {
      assert d0[alarm] == Datum(alarm);
      alarm.fired := alarm.fired + [clock];
      period, q, touched, ahead := Run(alarm, next, p, was, free);
    }

    /** The visit of an alarm whose planned tick is now. */
    method VisitExpired(alarm: Alarm, next: Alarm, ghost p: nat, ghost was: Timer, free: set<Alarm>,
                        ghost d0: map<Alarm, Data>)
      returns (period: u32, ghost q: nat, ghost touched: set<Alarm>, ahead: nat)
      requires Linked() && nticks == Low(clock) && clock > 0
      requires 0 < p < |ring| - 1 && ring[p] == alarm && ring[p + 1] == next
      requires Tracks(was, clock, clock - 1) && Timer(alarm.time, alarm.rollover) == Unrolled(was, nticks)
      requires alarm.plan == alarm.fired + [clock]
      requires IsSnapshot(d0)
      requires forall i {:trigger ring[i]} :: 0 < i < |ring| - 1 ==> ring[i] in pool && ring[i] in d0
      requires forall i {:trigger ring[i]} :: 0 < i < p ==> DataOnPlan(d0[ring[i]], clock)
      requires forall i {:trigger ring[i]} :: p < i < |ring| - 1 ==> DataOnPlan(d0[ring[i]], clock - 1)
      modifies this`ring, this`handled, pool
      ensures handled == old(handled) + touched
      ensures Midway(q) && next == ring[q] && Walked(old(ring), p, ring, q, Gone(touched, alarm, period))
      ensures touched <= free && (ahead > 0 ==> alarm in touched) && (period == 0 ==> alarm !in ring)
      ensures alarm in d0 && Renewed(d0[alarm].past, Past(alarm), clock, ahead, period)
      ensures OthersKept(d0, touched + {alarm})
    {
      ghost var r0 := ring;
      period, q, touched, ahead := Call(alarm, next, p, was, free, d0);
      MidwayAfterRun(r0, d0, p, q, touched, Gone(touched, alarm, period));
    }

    /** The histories of all alarms but some are still those of the map. */
    ghost predicate PastsKept(h: map<Alarm, History>, some: set<Alarm>)
      reads pool
    {
      forall a {:trigger a in h} {:trigger h[a]} :: a in pool && a !in some ==> a in h && h[a] == Past(a)
    }

    /** The first part of a visit: has the alarm's planned tick come? */
    method CheckExpiry(alarm: Alarm, ghost p: nat, ghost h0: map<Alarm, History>) returns (expired: bool)
      requires Midway(p) && p < |ring| - 1 && ring[p] == alarm && PastsKept(h0, {})
      modifies alarm`rollover
      ensures Linked() && PastsKept(h0, {}) && |alarm.plan| == |alarm.fired| + 1
      ensures expired <==> alarm.plan[|alarm.fired|] == clock
      ensures expired ==> alarm.plan == alarm.fired + [clock]
      ensures expired ==> Tracks(Timer(alarm.time, old(alarm.rollover)), clock, clock - 1)
      ensures Timer(alarm.time, alarm.rollover) == Unrolled(Timer(alarm.time, old(alarm.rollover)), nticks)
      ensures forall i :: 0 < i < p ==> OnPlan(ring[i], clock)
      ensures forall i :: p < i < |ring| - 1 ==> OnPlan(ring[i], clock - 1)
      ensures !expired ==> OnPlan(alarm, clock)
    {
      assert alarm in h0;
      expired := Expire(alarm);
      assert forall i :: 0 < i < p ==> ring[i] != alarm && OnPlan(ring[i], clock);
      assert forall i :: p < i < |ring| - 1 ==> ring[i] != alarm && OnPlan(ring[i], clock - 1);
    }

    lemma PastsFollow(h: map<Alarm, History>, d: map<Alarm, Data>, some: set<Alarm>)
      requires forall a {:trigger h[a]} {:trigger d[a]} :: a in pool ==> a in h && a in d && h[a] == d[a].past
      requires OthersKept(d, some)
      ensures PastsKept(h, some)
    {
      forall a {:trigger h[a]} {:trigger a in h} | a in pool && a !in some
        ensures a in h && h[a] == Past(a)
      {
        assert a in d && d[a] == Datum(a) && h[a] == d[a].past;
      }
    }

    /** What one turn of the loop does, from the list r0 and the histories h0 before: the alarm at place p is called
        exactly if its planned tick is now, then unregistered or planned anew; nothing else changes but what its
        callback touched, and the walk goes on at place q. */
    ghost predicate AfterVisit(r0: seq<Alarm>, h0: map<Alarm, History>, p: nat, q: nat, called: bool, period: u32,
                               ahead: nat, touched: set<Alarm>)
      requires p < |r0| && r0[p] in pool
      reads this, pool
    {
      var alarm := r0[p];
      && Midway(q) && Walked(r0, p, ring, q, if called then Gone(touched, alarm, period) else {})
      && alarm in h0 && |h0[alarm].plan| == |h0[alarm].fired| + 1
      && (called <==> h0[alarm].plan[|h0[alarm].fired|] == clock)
      && (called ==> Renewed(h0[alarm], Past(alarm), clock, ahead, period))
      && (called ==> (ahead > 0 ==> alarm in touched) && (period == 0 ==> alarm !in ring))
      && (!called ==> touched == {} && Past(alarm) == h0[alarm])
      && PastsKept(h0, touched + {alarm})
    }

    /** The expired alarm is called. */
    method VisitCalled(alarm: Alarm, next: Alarm, ghost p: nat, ghost was: Timer, free: set<Alarm>,
                       ghost h0: map<Alarm, History>)
      returns (period: u32, ghost q: nat, ghost touched: set<Alarm>, ahead: nat)
      requires Linked() && nticks == Low(clock) && clock > 0
      requires 0 < p < |ring| - 1 && ring[p] == alarm && ring[p + 1] == next
      requires forall i :: 0 < i < p ==> OnPlan(ring[i], clock)
      requires forall i :: p < i < |ring| - 1 ==> OnPlan(ring[i], clock - 1)
      requires Tracks(was, clock, clock - 1) && Timer(alarm.time, alarm.rollover) == Unrolled(was, nticks)
      requires alarm.plan == alarm.fired + [clock] && PastsKept(h0, {})
      modifies this`ring, this`handled, pool
      ensures handled == old(handled) + touched
      ensures AfterVisit(old(ring), h0, p, q, true, period, ahead, touched) && next == ring[q] && touched <= free
    {
      ghost var d0 := TakeData(p);
      assert forall a {:trigger h0[a]} {:trigger d0[a]} :: a in pool ==> a in h0 && a in d0 && h0[a] == d0[a].past;
      period, q, touched, ahead := VisitExpired(alarm, next, p, was, free, d0);
      PastsFollow(h0, d0, touched + {alarm});
    }

    /** An alarm that has not expired is passed. */
    lemma Pass(p: nat, h0: map<Alarm, History>)
      requires Linked() && nticks == Low(clock) && clock > 0 && 0 < p < |ring| - 1
      requires forall i :: 0 < i < p ==> OnPlan(ring[i], clock)
      requires forall i :: p < i < |ring| - 1 ==> OnPlan(ring[i], clock - 1)
      requires OnPlan(ring[p], clock) && ring[p].plan[|ring[p].fired|] != clock && PastsKept(h0, {})
      ensures AfterVisit(ring, h0, p, p + 1, false, 0, 0, {})
    {
      assert ring[p] in h0;
      WalkedStart(ring, p);
    }

    /** One turn of the loop of `Tick`; `h0` are the histories before. */
    method Visit(alarm: Alarm, ghost p: nat, free: set<Alarm>, ghost h0: map<Alarm, History>)
      returns (next: Alarm, called: bool, period: u32, ghost q: nat, ghost touched: set<Alarm>, ahead: nat)
      requires Midway(p) && p < |ring| - 1 && ring[p] == alarm && PastsKept(h0, {})
      modifies this`ring, this`handled, pool
      ensures handled == old(handled) + touched
      ensures AfterVisit(old(ring), h0, p, q, called, period, ahead, touched) && next == ring[q] && touched <= free
    {
      next := alarm.next;
      assert next == ring[p + 1];
      ghost var was := Timer(alarm.time, alarm.rollover);
      called := CheckExpiry(alarm, p, h0);
      if called {
        period, q, touched, ahead := VisitCalled(alarm, next, p, was, free, h0);
      } else {
        period, q, touched, ahead := 0, p + 1, {}, 0;
        Pass(p, h0);
      }
    }

    /** What one tick has done so far to the list `r0` and the histories `h0` it found, the walk standing at place p
        of the list r: an alarm that no callback touched is either still to be visited, and as it was, or has been
        visited.  `returned` gives what the callbacks run by this tick returned. */
    static ghost predicate SoFar(r0: seq<Alarm>, h0: map<Alarm, History>, r: seq<Alarm>, h: map<Alarm, History>, p: nat,
                                 touched: set<Alarm>, returned: map<Alarm, u32>, now: nat) {
      && (forall i :: p <= i < |r| - 1 ==>
            r[i] in h && r[i] in h0 && h[r[i]] == h0[r[i]] && r[i] !in touched && r[i] !in returned)
      && (forall j :: 0 < j < |r0| - 1 && r0[j] !in touched ==>
            FromPlace(r, p, r0[j]) || Visited(r0[j], h0, r, h, p, returned, now))
    }

    /** A visited alarm was called exactly if its planned tick is now, its history says so, and it is registered
        still unless its callback returned zero. */
    static ghost predicate Visited(a: Alarm, h0: map<Alarm, History>, r: seq<Alarm>, h: map<Alarm, History>, p: nat,
                                   returned: map<Alarm, u32>, now: nat) {
      && a in h0 && a in h && |h0[a].plan| == |h0[a].fired| + 1
      && (a in returned <==> h0[a].plan[|h0[a].fired|] == now)
      && Served(h0[a], h[a], now, a in returned, if a in returned then returned[a] else 0)
      && (BeforePlace(r, p, a) || (a in returned && returned[a] == 0))
    }

    /** One visit moves the walk on: from list r, histories h and place p to r', h' and q. */
    static lemma SoFarStep(r0: seq<Alarm>, h0: map<Alarm, History>, r: seq<Alarm>, h: map<Alarm, History>, p: nat,
                           touched: set<Alarm>, returned: map<Alarm, u32>, now: nat,
                           r': seq<Alarm>, h': map<Alarm, History>, q: nat, t: set<Alarm>, called: bool, period: u32)
      requires SoFar(r0, h0, r, h, p, touched, returned, now)
      requires IsRing(r) && IsRing(r') && r'[0] == r[0] && 0 < p < |r| - 1 && h.Keys == h'.Keys
      requires |h0[r[p]].plan| == |h0[r[p]].fired| + 1
      requires called <==> h0[r[p]].plan[|h0[r[p]].fired|] == now
      requires !called ==> t == {}
      requires r[p] !in t ==> Served(h[r[p]], h'[r[p]], now, called, period)
      requires Walked(r, p, r', q, if called then Gone(t, r[p], period) else {})
      requires forall b :: b in h && b !in t && b != r[p] ==> h'[b] == h[b]
      ensures SoFar(r0, h0, r', h', q, touched + t, if called then returned[r[p] := period] else returned, now)
    {
      var a := r[p];
      var returned' := if called then returned[a := period] else returned;
      var gone := if called then Gone(t, a, period) else {};
      forall i | q <= i < |r'| - 1
        ensures r'[i] in h' && r'[i] in h0 && h'[r'[i]] == h0[r'[i]] && r'[i] !in touched + t && r'[i] !in returned'
      {
        var j :| p + 1 <= j < |r| && r[j] == r'[i];
        assert r'[i] != r'[0] && j < |r| - 1 && r'[i] != a;
      }
    }

    static lemma SoFarStart(r0: seq<Alarm>, h0: map<Alarm, History>, now: nat)
      requires IsRing(r0) && forall i :: 0 <= i < |r0| ==> r0[i] in h0
      ensures SoFar(r0, h0, r0, h0, 1, {}, map[], now)
    {
    }

    static lemma SoFarDone(r0: seq<Alarm>, h0: map<Alarm, History>, r: seq<Alarm>, h: map<Alarm, History>, p: nat,
                           touched: set<Alarm>, returned: map<Alarm, u32>, now: nat)
      requires SoFar(r0, h0, r, h, p, touched, returned, now)
      requires IsRing(r0) && IsRing(r) && r[0] == r0[0] && 0 < p < |r| && r[p] == r[0]
      ensures p == |r| - 1
      ensures forall j :: 0 < j < |r0| - 1 && r0[j] !in touched ==> Visited(r0[j], h0, r, h, p, returned, now)
    {
    }

    /** A visit, with what the tick has done so far kept up to date. */
    method Turn(alarm: Alarm, ghost p: nat, free: set<Alarm>, ghost r0: seq<Alarm>, ghost h0: map<Alarm, History>,
                ghost touched: set<Alarm>, ghost returned: map<Alarm, u32>)
      returns (next: Alarm, ghost q: nat, ghost touched': set<Alarm>, ghost returned': map<Alarm, u32>)
      requires Midway(p) && p < |ring| - 1 && ring[p] == alarm
      requires SoFar(r0, h0, ring, Pasts(), p, touched, returned, clock) && touched <= free && handled == touched
      modifies this`ring, this`handled, pool
      ensures Midway(q) && next == ring[q] && |ring| - q < |old(ring)| - p
      ensures SoFar(r0, h0, ring, Pasts(), q, touched', returned', clock) && touched' <= free && handled == touched'
    {
      ghost var r, h := ring, Pasts();
      var called, period, ahead;
      ghost var t;
      next, called, period, q, t, ahead := Visit(alarm, p, free, h);
      SoFarStep(r0, h0, r, h, p, touched, returned, clock, ring, Pasts(), q, t, called, period);
      touched', returned' := touched + t, if called then returned[alarm := period] else returned;
    }

    /** Counts the tick; the walk over the list is about to begin. */
    method Advance()
      requires Valid()
      modifies this`nticks, this`clock, this`handled
      ensures Midway(1) && clock == old(clock) + 1 && handled == {}
    {
      nticks := (nticks + 1) % U32;
      clock, handled := clock + 1, {};
    }

    /** The walk over the list, from its first alarm. */
    method WalkAlarms(first: Alarm, free: set<Alarm>) returns (ghost touched: set<Alarm>, ghost returned: map<Alarm, u32>)
      requires Midway(1) && ring[1] == first && handled == {}
      modifies this`ring, this`handled, pool
      ensures Valid() && touched <= free && handled == touched
      ensures forall j :: 0 < j < |old(ring)| - 1 && old(ring)[j] !in touched ==>
                Visited(old(ring)[j], old(Pasts()), ring, Pasts(), |ring| - 1, returned, clock)
    {
      touched, returned := {}, map[];
      ghost var p := 1;
      SoFarStart(ring, Pasts(), clock);
      var alarm := first;
      while alarm != head
        invariant Midway(p) && alarm == ring[p] && touched <= free && handled == touched
        invariant SoFar(old(ring), old(Pasts()), ring, Pasts(), p, touched, returned, clock)
        decreases |ring| - p
      {
        alarm, p, touched, returned := Turn(alarm, p, free, old(ring), old(Pasts()), touched, returned);
      }
      SoFarDone(old(ring), old(Pasts()), ring, Pasts(), p, touched, returned, clock);
    }

    /** alt_tick.  The callbacks of this tick stop and start alarms of the given set only.  Every alarm registered
        when the tick begins, and not stopped or started by a callback meanwhile, is called exactly if this tick is
        its planned one; an alarm that returns zero is unregistered, and one that returns a period is planned for
        that many ticks from now. */
    method Tick(free: set<Alarm>) returns (ghost touched: set<Alarm>, ghost returned: map<Alarm, u32>)
      requires Valid()
      modifies this`nticks, this`clock, this`ring, this`handled, pool
      ensures Valid() && clock == old(clock) + 1 && touched <= free && handled == touched
      ensures forall j :: 0 < j < |old(ring)| - 1 && old(ring)[j] !in touched ==>
                Visited(old(ring)[j], old(Pasts()), ring, Pasts(), |ring| - 1, returned, clock)
    {
      var first := head.next;
      assert first == ring[1] by {
        assert ring[0].next == ring[1];
      }
      Advance();
      touched, returned := WalkAlarms(first, free);
    }

    // ---------------------------------------------------------------- what the walk and the list do not survive

    /** Any stops and starts of the alarms `free`. */
    method AnyCalls(free: set<Alarm>)
      requires Linked() && nticks == Low(clock)
      modifies this`ring, pool
      ensures Linked()
      ensures forall a: Alarm :: a in pool && a !in free ==> a.started == old(a.started) && (a in ring ==> a in old(ring))
    {
      var calls: nat := *;
      while calls > 0
        invariant Linked()
        invariant forall a: Alarm :: a in pool && a !in free ==> a.started == old(a.started) && (a in ring ==> a in old(ring))
      {
        var b :| b in pool;
        var stop: bool, n: u32 := *, *;
        if b in free && b != head && stop && b.next != null {
          StopAny(b);
        } else if b in free && b != head && !stop && (b.next == null || b.next == b) && n < U32 - 1 {
          StartAny(b, n);
        }
        calls := calls - 1;
      }
    }

    method StopAny(b: Alarm)
      requires Linked() && b in pool && b != head && b.next != null
      modifies this`ring, pool`next, pool`previous
      ensures Linked() && b !in ring && forall a :: a in ring ==> a in old(ring)
    {
      ghost var k := Remove(b);
    }

    method StartAny(b: Alarm, n: u32)
      requires Linked() && nticks == Low(clock) && b in pool && b != head && n < U32 - 1
      requires b.next == null || b.next == b
      modifies this`ring, pool`next, pool`previous, b`started, b`time, b`rollover, b`plan, b`fired
      ensures Linked() && forall a :: a in ring && a != b ==> a in old(ring)
    {
      assert b !in ring by {
        if b in ring {
          RegisteredPointsElsewhere(b);
        }
      }
      Register(b, n);
      assert forall a :: a in ring && a != b ==> a in old(ring);
    }

    /** A walk that has been left at an alarm off the list, because a callback has stopped the alarm saved as next,
        never ends: however many turns it makes, and whatever its callbacks stop and start, as long as they do not start
        that alarm again, it stays there. */
    method StrandedWalk(alarm: Alarm, free: set<Alarm>, turns: nat) returns (at: Alarm)
      requires Linked() && nticks == Low(clock)
      requires alarm in pool && alarm != head && alarm !in ring && alarm.started && alarm !in free
      modifies this`ring, pool
      ensures at == alarm && at != head
    {
      at := alarm;
      var k := 0;
      while k < turns && at != head
        invariant Linked() && at == alarm && alarm !in ring && alarm.started
      {
        assert Unlinked(alarm);
        at := StrandedTurn(alarm, free);
        k := k + 1;
      }
    }

    method StrandedTurn(alarm: Alarm, free: set<Alarm>) returns (next: Alarm)
      requires Linked() && nticks == Low(clock) && alarm in pool && alarm != head
      requires alarm !in ring && alarm.started && alarm !in free && alarm.next == alarm
      modifies this`ring, pool
      ensures next == alarm && Linked() && alarm !in ring && alarm.started
    {
      next := alarm.next;
      if alarm.rollover && nticks == 0 {
        alarm.rollover := false;
      }
      if alarm.time <= nticks && !alarm.rollover {
        AnyCalls(free);
        var period: u32 := *;
        if period == 0 {
          StartedIsLinked(alarm);
          StopAny(alarm);
        } else {
          MoveDeadline(alarm, period);
        }
      }
    }

    /** The assignments of alt_llist_insert for an alarm that is registered already, at place k: the alarms before it
        and the alarm itself then form a circle that does not contain the list head. */
    method InsertTwice(entry: Alarm, ghost k: nat)
      requires Linked() && 0 < k < |ring| - 1 && ring[k] == entry
      modifies pool`next, pool`previous
      ensures head.next == entry && entry.next == ring[1]
      ensures forall i {:trigger ring[i].next} :: 0 < i < k ==> ring[i].next == ring[i + 1]
    {
      assert ring[0].next == ring[1] && ring[1] in pool;
      entry.previous := head;
      entry.next := head.next;
      head.next.previous := entry;
      head.next := entry;
      forall i {:trigger ring[i].next} | 0 < i < k
        ensures ring[i].next == ring[i + 1]
      {
        assert ring[i] != entry && ring[i] != head;
      }
    }

    /** So a tick, starting at the first alarm, never gets back to the head. */
    method CircleWalk(entry: Alarm, ghost k: nat, turns: nat) returns (at: Alarm)
      requires IsRing(ring) && ring[0] == head && 0 < k < |ring| - 1 && ring[k] == entry
      requires head.next == entry && entry.next == ring[1]
      requires forall i {:trigger ring[i].next} :: 0 < i < k ==> ring[i].next == ring[i + 1]
      ensures at != head
    {
      at := head.next;
      ghost var p := k;
      var t := 0;
      while t < turns && at != head
        invariant 0 < p <= k && at == ring[p]
      {
        p := if p == k then 1 else p + 1;
        at := at.next;
        t := t + 1;
      }
    }
  }
}
