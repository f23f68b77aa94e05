/** The timer part of `bx_pc_system_c`. */
module PcSystem {
  import opened Numbers
  import opened Timers

  const MAX_TIMERS: nat := 64
  const MIN_PERIOD: nat := 1

  /** Unsigned arithmetic of the source: a result is cut to 32 or to 64 bits. */
  function Bit32u(x: int): nat {
    if 0 <= x < TWO32 then x else x % TWO32
  }

  function Bit64u(x: int): nat {
    if 0 <= x < TWO64 then x else x % TWO64
  }

  class PcSystem<W(!new)> {
    const interval: nat  // NullTimerInterval
    const handler: Handler<W>
    const timer: array<Timer>
    var numTimers: nat
    var triggeredTimer: nat
    var currCountdown: nat
    var currCountdownPeriod: nat
    var ticksTotal: nat
    var lastTimeUsec: nat
    var usecSinceLast: nat
    var world: W  // the devices, seen by the callbacks only
    ghost var log: seq<Event>

    /** The state as a value. */
    ghost function Value(): Clock<W>
      reads this, timer
      requires numTimers <= timer.Length
    {
      Clock(ticksTotal, currCountdownPeriod, currCountdown, timer[..numTimers], world, log)
    }

    ghost predicate Valid()
      reads this, timer
    {
      timer.Length == MAX_TIMERS && numTimers <= MAX_TIMERS && Good(Value(), interval)
    }

    constructor (interval: nat, handler: Handler<W>, world: W)
      ensures numTimers == 1 && timer.Length == MAX_TIMERS && this.interval == interval && this.handler == handler
      ensures fresh(timer) && log == [] && this.world == world
      ensures var t := timer[0]; t.inUse && t.period == interval && t.active && t.continuous
    {
      this.interval, this.handler, this.world := interval, handler, world;
      timer := new Timer[MAX_TIMERS];
      ticksTotal, numTimers, log := 0, 1, [];
      triggeredTimer, currCountdown, currCountdownPeriod, lastTimeUsec, usecSinceLast := 0, 0, 0, 0, 0;
      new;
      timer[0] := Timer(true, interval, 0, true, true, 0);
    }

    method Initialize()
      requires timer.Length == MAX_TIMERS && numTimers == 1 && 0 < interval < TWO32
      requires timer[0].active && timer[0].continuous && timer[0].period == interval
      modifies this, timer
      ensures Valid() && numTimers == 1 && world == old(world) && log == old(log)
      ensures Value().Now() == 0 && timer[0].timeToFire == interval && lastTimeUsec + usecSinceLast == 0
    {
      ticksTotal := 0;
      timer[0] := timer[0].(timeToFire := interval);
      currCountdown := interval;
      currCountdownPeriod := interval;
      lastTimeUsec := 0;
      usecSinceLast := 0;
      triggeredTimer := 0;
    }

    method TimeTicks() returns (t: nat)
      requires Valid() && Value().Now() <= HORIZON
      ensures t == Value().Now()
    {
      t := Bit64u(ticksTotal + Bit32u(currCountdownPeriod - currCountdown));
    }

    /** A timer due in `ticks` fires before the current countdown ends: the countdown is cut short. */
    method SkewCountdown(ticks: nat)
      requires numTimers <= timer.Length && currCountdown <= currCountdownPeriod < TWO32
      modifies this`currCountdown, this`currCountdownPeriod
      ensures Value() == old(Value()).Shorten(ticks)
    {
      if ticks < currCountdown {
        currCountdownPeriod := Bit32u(currCountdownPeriod - Bit32u(currCountdown - Bit32u(ticks)));
        currCountdown := Bit32u(ticks);
      }
    }

    method FindSlot() returns (i: nat)
      requires 0 < numTimers <= timer.Length
      ensures i == FreeSlot(timer[..numTimers], 1)
    {
      i := 1;
      while i < numTimers
        invariant 1 <= i <= numTimers && FreeSlot(timer[..numTimers], 1) == FreeSlot(timer[..numTimers], i)
      {
        if timer[i].inUse == false {
          break;
        }
        i := i + 1;
      }
    }

    /** A new timer in slot `i`, which may be the first one not yet used. */
    method FillSlot(i: nat, t: Timer)
      requires i <= numTimers <= timer.Length && i < timer.Length
      modifies this`numTimers, this`log, timer
      ensures numTimers <= timer.Length && numTimers == old(if i == numTimers then numTimers + 1 else numTimers)
      ensures timer[..numTimers] == Put(old(timer[..numTimers]), i, t) && log == old(log) + [Touched(i)]
    {
      timer[i] := t;
      log := log + [Touched(i)];
      if i == numTimers {
        numTimers := numTimers + 1;
      }
    }

    method RegisterTimerTicks(funct: int, ticks: nat, continuous: bool, active: bool) returns (id: nat)
      requires Valid() && FreeSlot(timer[..numTimers], 1) < MAX_TIMERS
      requires ticks <= HORIZON && Value().Now() <= HORIZON
      modifies this, timer
      ensures Valid() && id == FreeSlot(old(timer[..numTimers]), 1) < numTimers
      ensures Value() == old(Value()).Register(ticks, continuous, active, funct)
      ensures Value().Abs() == Register(old(Value()).Abs(), ticks, continuous, active, funct)
    {
      ghost var c := Value();
      RegisterGood(c, ticks, continuous, active, funct, interval);
      var ticks' := ticks;
      if ticks' < MIN_PERIOD {
        ticks' := MIN_PERIOD;
      }
      var i := FindSlot();
      var timeToFire := Bit64u(Bit64u(ticksTotal + Bit32u(currCountdownPeriod - currCountdown)) + ticks');
      FillSlot(i, Timer(true, ticks', timeToFire, active, continuous, funct));
      assert timer[..numTimers] == Put(c.timers, i, NewTimer(c.Now(), ticks, continuous, active, funct));
      if active {
        SkewCountdown(ticks');
      }
      assert Value() == c.Register(ticks, continuous, active, funct);
      id := i;
    }

    method ActivateTimerTicks(i: nat, ticks: nat, continuous: bool)
      requires Valid() && 1 <= i < numTimers
      requires ticks <= HORIZON && Value().Now() <= HORIZON
      modifies this, timer
      ensures Valid() && numTimers == old(numTimers)
      ensures Value() == old(Value()).Do(Activate(i, ticks, continuous))
      ensures Value().Abs() == Do(old(Value()).Abs(), Activate(i, ticks, continuous))
    {
      ghost var c := Value();
      DoGood(c, Activate(i, ticks, continuous), interval);
      var ticks' := ticks;
      if ticks' < MIN_PERIOD {
        ticks' := MIN_PERIOD;
      }
      var timeToFire := Bit64u(Bit64u(ticksTotal + Bit32u(currCountdownPeriod - currCountdown)) + ticks');
      timer[i] := timer[i].(period := ticks', timeToFire := timeToFire, active := true, continuous := continuous);
      log := log + [Touched(i)];
      assert timer[..numTimers] == c.timers[i := Set(c.timers[i], c.Now(), ticks, continuous)];
      SkewCountdown(ticks');
    }

    method DeactivateTimer(i: nat)
      requires Valid() && 1 <= i < numTimers
      modifies this`log, timer
      ensures Valid()
      ensures Value() == old(Value()).Do(Deactivate(i))
      ensures Value().Abs() == Do(old(Value()).Abs(), Deactivate(i))
    {
      DoGood(Value(), Deactivate(i), interval);
      timer[i] := timer[i].(active := false);
      log := log + [Touched(i)];
    }

    method UnregisterTimer(i: nat) returns (ok: bool)
      requires Valid() && 1 <= i < numTimers
      modifies this, timer
      ensures Valid() && ok == !old(timer[i].active)
      ensures Value() == old(Value()).Unregister(i) && (!ok ==> Value() == old(Value()))
      ensures Value().Abs() == Unregister(old(Value()).Abs(), i)
    {
      UnregisterGood(Value(), i, interval);
      if timer[i].active {
        return false;
      }
      timer[i] := Timer(false, MAX_BIT64S, MAX_BIT64S, timer[i].active, false, 0);
      if i == numTimers - 1 {
        numTimers := numTimers - 1;
      }
      log := log + [Touched(i)];
      return true;
    }

    /** What a callback does to the timers. */
    method Perform(acts: seq<Action>)
      requires Valid() && Value().Now() <= HORIZON
      requires AllAllowed(acts, numTimers)
      modifies this, timer
      ensures Valid() && numTimers == old(numTimers) && Value().Now() == old(Value().Now())
      ensures Value() == old(Value()).DoAll(acts)
    {
      ghost var d := Value();
      for k := 0 to |acts|
        invariant Valid() && numTimers == |d.timers| && Value().Now() == d.Now()
        invariant Value() == d.DoAll(acts[..k])
      {
        assert acts[..k + 1][..k] == acts[..k];
        match acts[k]
        case Activate(j, ticks, continuous) => ActivateTimerTicks(j, ticks, continuous);
        case Deactivate(j) => DeactivateTimer(j);
      }
      assert acts[..|acts|] == acts;
    }

    method Fire(i: nat)
      requires Valid() && i < numTimers && Value().CallOk(handler, i) && Value().Now() <= HORIZON
      modifies this, timer
      ensures Valid() && numTimers == old(numTimers) && Value().Now() == old(Value().Now())
      ensures Value() == old(Value()).Call(handler, i)
    {
      var now := TimeTicks();
      var (world', acts) := handler(world, timer[i].funct, i, now);
      world := world';
      log := log + [Fired(now, i)];
      Perform(acts);
    }

    method CountdownEvent()
      requires timer.Length == MAX_TIMERS && numTimers <= MAX_TIMERS
      requires Over(Value(), interval) && Value().EventOk(handler)
      modifies this, timer
      ensures Valid() && numTimers == old(numTimers)
      ensures Value() == old(Value()).Event(handler)
    {
      ghost var c := Value();
      RestartGood(c, interval);
      var triggered := SetTimers();
      FireAll(triggered, c.timers, c.Now());
    }

    /** The second half of `countdownEvent`: the callbacks of the timers that were due. */
    method FireAll(triggered: array<bool>, ghost ts: seq<Timer>, ghost now: nat)
      requires Valid() && Value().Now() <= HORIZON && Value().CallDueOk(handler, ts, now, |ts|)
      requires numTimers == |ts| <= triggered.Length && triggered[..numTimers] == DueAll(ts, now)
      modifies this, timer
      ensures Valid() && numTimers == old(numTimers)
      ensures Value() == old(Value()).CallDue(handler, ts, now, |ts|)
    {
      ghost var c := Value();
      for i := 0 to numTimers
        invariant numTimers == |ts| && Valid() && Value().Now() == c.Now()
        invariant Value() == c.CallDue(handler, ts, now, i)
      {
        assert triggered[i] == triggered[..numTimers][i] == Due(ts[i], now);
        CallDueOkPart(handler, c, ts, now, i + 1, |ts|);
        if triggered[i] {
          triggeredTimer := i;
          Fire(i);
          triggeredTimer := 0;
        }
      }
    }

    /** The first half of `countdownEvent`: note what is due, set it anew, and start the next countdown. */
    method SetTimers() returns (triggered: array<bool>)
      requires timer.Length == MAX_TIMERS && numTimers <= MAX_TIMERS
      requires Over(Value(), interval)
      modifies this, timer
      ensures numTimers == old(numTimers) && Value() == old(Value()).Restart()
      ensures fresh(triggered) && triggered.Length == MAX_TIMERS
      ensures triggered[..numTimers] == DueAll(old(timer[..numTimers]), ticksTotal)
    {
      ghost var c := Value();
      ghost var now := c.Now();
      WaitPositive(c.timers, now, interval);
      ticksTotal := Bit64u(ticksTotal + currCountdownPeriod);
      var minTimeToFire;
      triggered, minTimeToFire := Sweep(c.timers);
      Restarted(c, now, minTimeToFire - now);
      currCountdownPeriod := Bit32u(minTimeToFire - ticksTotal);
      currCountdown := currCountdownPeriod;
    }

    /** All slots in turn. */
    method Sweep(ghost ts: seq<Timer>) returns (triggered: array<bool>, minTimeToFire: nat)
      requires numTimers <= timer.Length == MAX_TIMERS && ticksTotal <= HORIZON
      requires ts == timer[..numTimers] && Near(ts, ticksTotal)
      modifies timer
      ensures fresh(triggered) && triggered.Length == MAX_TIMERS
      ensures timer[..numTimers] == AdvanceAll(ts, ticksTotal)
      ensures minTimeToFire == Earliest(AdvanceAll(ts, ticksTotal))
      ensures triggered[..numTimers] == DueAll(ts, ticksTotal)
    {
      triggered := new bool[MAX_TIMERS];
      minTimeToFire := TWO64 - 1;
      for i := 0 to numTimers
        invariant forall k :: 0 <= k < numTimers ==> timer[k] == if k < i then Advance(ts[k], ticksTotal) else ts[k]
        invariant minTimeToFire == Earliest(timer[..i])
        invariant forall k :: 0 <= k < i ==> triggered[k] == Due(ts[k], ticksTotal)
      {
        ghost var before := timer[..i];
        triggered[i], minTimeToFire := SetTimer(i, minTimeToFire);
        assert timer[..i] == before && timer[..i + 1][..i] == timer[..i];
      }
    }

    /** One slot: is it due, what becomes of it, and is its deadline the earliest so far? */
    method SetTimer(i: nat, min: nat) returns (triggered: bool, minTimeToFire: nat)
      requires i < numTimers <= timer.Length && ticksTotal <= HORIZON
      requires timer[i].active ==> timer[i].period <= HORIZON && timer[i].timeToFire <= ticksTotal + HORIZON
      modifies timer
      ensures triggered == Due(old(timer[i]), ticksTotal)
      ensures timer[i] == Advance(old(timer[i]), ticksTotal)
      ensures forall k :: 0 <= k < timer.Length && k != i ==> timer[k] == old(timer[k])
      ensures minTimeToFire == if timer[i].active && timer[i].timeToFire < min then timer[i].timeToFire else min
    {
      triggered := false;
      minTimeToFire := min;
      if timer[i].active {
        if ticksTotal == timer[i].timeToFire {
          triggered := true;
          if timer[i].continuous == false {
            timer[i] := timer[i].(active := false);
          } else {
            timer[i] := timer[i].(timeToFire := Bit64u(timer[i].timeToFire + timer[i].period));
            if timer[i].timeToFire < minTimeToFire {
              minTimeToFire := timer[i].timeToFire;
            }
          }
        } else {
          if timer[i].timeToFire < minTimeToFire {
            minTimeToFire := timer[i].timeToFire;
          }
        }
      }
    }

    method Tick1()
      requires Valid() && Value().TickOk(handler) && Value().Now() < HORIZON
      modifies this, timer
      ensures Valid() && numTimers == old(numTimers)
      ensures Value() == old(Value()).Tick(handler)
      ensures Value().Abs() == Tick(handler, old(Value()).Abs())
    {
      TickGood(handler, Value(), interval);
      currCountdown := Bit32u(currCountdown - 1);
      if currCountdown == 0 {
        CountdownEvent();
      }
    }

    method TickN(n: nat)
      requires Valid() && TicksOk(handler, Value(), n) && n < TWO32 && Value().Now() + n <= HORIZON
      modifies this, timer
      ensures Valid() && numTimers == old(numTimers)
      ensures Value() == ClockTicks(handler, old(Value()), n)
      ensures Value().Abs() == Ticks(handler, old(Value()).Abs(), n)
      ensures Value().Now() == old(Value().Now()) + n
    {
      ghost var c := Value();
      var m: nat := n;
      ghost var done := 0;
      while m >= currCountdown
        invariant Valid() && numTimers == |c.timers| && m + done == n && Value().Now() == c.Now() + done
        invariant Value() == ClockTicks(handler, c, done)
        decreases m
      {
        TicksFrom(handler, c, Value(), done, currCountdown, n);
        done := done + currCountdown;
        m := Bit32u(m - currCountdown);
        RunDown();
      }
      TicksUpTo(handler, c, Value(), done, m);
      currCountdown := Bit32u(currCountdown - m);
      assert Value() == ClockTicks(handler, c, n);
      TicksGood(handler, c, n, interval);
    }

    /** Straight to the next event. */
    method RunDown()
      requires Valid() && TicksOk(handler, Value(), currCountdown) && Value().Now() + currCountdown <= HORIZON
      modifies this, timer
      ensures Valid() && numTimers == old(numTimers)
      ensures Value() == ClockTicks(handler, old(Value()), old(currCountdown))
      ensures Value().Now() == old(Value().Now() + currCountdown)
    {
      EventOkAtEnd(handler, Value());
      TicksToEvent(handler, Value());
      TicksGood(handler, Value(), currCountdown, interval);
      currCountdown := 0;
      CountdownEvent();
    }

    /** The next sequential reading of the clock: the time, or one more than the last reading if that is later. */
    method TimeUsecSequential(timeUsec: nat) returns (t: nat)
      requires lastTimeUsec <= timeUsec <= HORIZON && usecSinceLast <= HORIZON
      modifies this`lastTimeUsec, this`usecSinceLast
      ensures t == lastTimeUsec + usecSinceLast && lastTimeUsec == timeUsec
      ensures t == 1 + if timeUsec < old(lastTimeUsec + usecSinceLast) then old(lastTimeUsec + usecSinceLast)
                else timeUsec
    {
      if timeUsec != lastTimeUsec {
        var diffUsec := Bit64u(timeUsec - lastTimeUsec);
        lastTimeUsec := timeUsec;
        if diffUsec >= usecSinceLast {
          usecSinceLast := 0;
        } else {
          usecSinceLast := Bit64u(usecSinceLast - diffUsec);
        }
      }
      usecSinceLast := Bit64u(usecSinceLast + 1);
      t := Bit64u(timeUsec + usecSinceLast);
    }
  }
}
