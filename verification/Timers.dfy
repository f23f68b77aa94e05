/**
 The virtual timer scheduler, as values: what it is meant to do (`Sched`), and how it does it
 with a countdown to the next event (`Clock`).
 */
module Timers {
  import opened Numbers

  /** No timer asks for more ticks than this, and the clock stays below it: then no 64-bit sum wraps. */
  const HORIZON: nat := 0x4000_0000_0000_0000

  /** One slot of the timer table.  `funct` names the callback. */
  datatype Timer = Timer(inUse: bool, period: nat, timeToFire: nat, active: bool, continuous: bool, funct: int)

  /** What a callback may do to the timers. */
  datatype Action = Activate(slot: nat, ticks: nat, continuous: bool) | Deactivate(slot: nat)

  /** The source takes timers other than the null timer only, and this model no period beyond the horizon. */
  predicate Allowed(act: Action, n: nat) {
    1 <= act.slot < n && (act.Activate? ==> act.ticks <= HORIZON)
  }

  predicate AllAllowed(acts: seq<Action>, n: nat) {
    forall k :: 0 <= k < |acts| ==> Allowed(acts[k], n)
  }

  /** What happened: a timer fired, or its slot was set, cleared, registered or unregistered. */
  datatype Event = Fired(at: nat, slot: nat) | Touched(slot: nat)

  /** A callback sees the state of the devices, its own name, its slot and the time; it changes the devices and acts. */
  type Handler<!W> = (W, int, nat, nat) -> (W, seq<Action>)

  // ---------- what is promised: a list of deadlines ----------

  datatype Sched<W> = Sched(now: nat, timers: seq<Timer>, world: W, log: seq<Event>)

  function Set(t: Timer, now: nat, ticks: nat, continuous: bool): Timer {
    var k := if ticks < 1 then 1 else ticks;
    t.(period := k, timeToFire := now + k, active := true, continuous := continuous)
  }

  function Do<W>(s: Sched<W>, act: Action): Sched<W> {
    if act.slot >= |s.timers| then s else
    match act
    case Activate(i, ticks, continuous) =>
      s.(timers := s.timers[i := Set(s.timers[i], s.now, ticks, continuous)], log := s.log + [Touched(i)])
    case Deactivate(i) =>
      s.(timers := s.timers[i := s.timers[i].(active := false)], log := s.log + [Touched(i)])
  }

  function DoAll<W>(s: Sched<W>, acts: seq<Action>): Sched<W> {
    if acts == [] then s else Do(DoAll(s, acts[..|acts| - 1]), acts[|acts| - 1])
  }

  /** The callback of slot `i`. */
  function Call<W>(h: Handler<W>, s: Sched<W>, i: nat): Sched<W> {
    if i >= |s.timers| then s else
    var (world, acts) := h(s.world, s.timers[i].funct, i, s.now);
    DoAll(s.(world := world, log := s.log + [Fired(s.now, i)]), acts)
  }

  predicate Due(t: Timer, now: nat) {
    t.active && t.timeToFire == now
  }

  /** A due timer is switched off, or, if it is continuous, set to its next deadline. */
  function Advance(t: Timer, now: nat): Timer {
    if !Due(t, now) then t
    else if t.continuous then t.(timeToFire := t.timeToFire + t.period)
    else t.(active := false)
  }

  function AdvanceAll(ts: seq<Timer>, now: nat): (r: seq<Timer>)
    ensures |r| == |ts| && forall i :: 0 <= i < |ts| ==> r[i] == Advance(ts[i], now)
  {
    seq(|ts|, i requires 0 <= i < |ts| => Advance(ts[i], now))
  }

  function DueAll(ts: seq<Timer>, now: nat): (r: seq<bool>)
    ensures |r| == |ts| && forall i :: 0 <= i < |ts| ==> r[i] == Due(ts[i], now)
  {
    seq(|ts|, i requires 0 <= i < |ts| => Due(ts[i], now))
  }

  /** The callbacks of the first `n` slots, those whose timer was due in `ts`, in the order of the slots. */
  function CallDue<W>(h: Handler<W>, s: Sched<W>, ts: seq<Timer>, now: nat, n: nat): Sched<W>
    requires n <= |ts|
  {
    if n == 0 then s
    else
      var r := CallDue(h, s, ts, now, n - 1);
      if Due(ts[n - 1], now) then Call(h, r, n - 1) else r
  }

  /** One tick: the clock moves on, and whatever is due fires. */
  function Tick<W>(h: Handler<W>, s: Sched<W>): Sched<W> {
    var now := s.now + 1;
    CallDue(h, s.(now := now, timers := AdvanceAll(s.timers, now)), s.timers, now, |s.timers|)
  }

  function Ticks<W>(h: Handler<W>, s: Sched<W>, n: nat): Sched<W> {
    if n == 0 then s else Tick(h, Ticks(h, s, n - 1))
  }

  /** The first slot from `i` on that is not in use, or the first beyond the table. */
  function FreeSlot(ts: seq<Timer>, i: nat): (k: nat)
    requires i <= |ts|
    ensures i <= k <= |ts|
    decreases |ts| - i
  {
    if i == |ts| || !ts[i].inUse then i else FreeSlot(ts, i + 1)
  }

  lemma {:induction false} FreeSlotIsFirst(ts: seq<Timer>, i: nat)
    requires i <= |ts|
    ensures var k := FreeSlot(ts, i); (k < |ts| ==> !ts[k].inUse) && forall j :: i <= j < k ==> ts[j].inUse
    decreases |ts| - i
  {
    if i < |ts| && ts[i].inUse {
      FreeSlotIsFirst(ts, i + 1);
    }
  }

  function NewTimer(now: nat, ticks: nat, continuous: bool, active: bool, funct: int): Timer {
    var k := if ticks < 1 then 1 else ticks;
    Timer(true, k, now + k, active, continuous, funct)
  }

  function Put(ts: seq<Timer>, i: nat, t: Timer): seq<Timer>
    requires i <= |ts|
  {
    ts[..i] + [t] + if i == |ts| then [] else ts[i + 1..]
  }

  /** A timer takes the first free slot; slot 0 is never free. */
  function Register<W>(s: Sched<W>, ticks: nat, continuous: bool, active: bool, funct: int): Sched<W>
    requires |s.timers| > 0
  {
    var i := FreeSlot(s.timers, 1);
    s.(timers := Put(s.timers, i, NewTimer(s.now, ticks, continuous, active, funct)), log := s.log + [Touched(i)])
  }

  const MAX_BIT64S: nat := 0x7FFF_FFFF_FFFF_FFFF

  const FREE_TIMER := Timer(false, MAX_BIT64S, MAX_BIT64S, false, false, 0)

  /** An inactive timer leaves its slot; the last slot is given up. */
  function Unregister<W>(s: Sched<W>, i: nat): Sched<W>
    requires i < |s.timers|
  {
    if s.timers[i].active then s
    else
      var ts := if i == |s.timers| - 1 then s.timers[..i] else s.timers[i := FREE_TIMER];
      s.(timers := ts, log := s.log + [Touched(i)])
  }

  // ---------- how it is done: a countdown ----------

  datatype Clock<W> = Clock(total: nat, period: nat, countdown: nat, timers: seq<Timer>, world: W, log: seq<Event>)
  {
    /** `time_ticks`. */
    function Now(): nat
      requires countdown <= period
    {
      total + (period - countdown)
    }

    /** What the countdown stands for. */
    function Abs(): Sched<W>
      requires countdown <= period
    {
      Sched(Now(), timers, world, log)
    }

    /** A deadline `k` ticks ahead: the countdown is cut short if it would pass it. */
    function Shorten(k: nat): (c: Clock<W>)
      requires countdown <= period
      ensures c.countdown <= c.period && c.Now() == Now()
    {
      if k < countdown then this.(period := period - (countdown - k), countdown := k) else this
    }

    function Do(act: Action): (c: Clock<W>)
      requires countdown <= period
      ensures c.countdown <= c.period
    {
      if act.slot >= |timers| then this else
      match act
      case Activate(i, ticks, continuous) =>
        this.(timers := timers[i := Set(timers[i], Now(), ticks, continuous)], log := log + [Touched(i)])
            .Shorten(if ticks < 1 then 1 else ticks)
      case Deactivate(i) =>
        this.(timers := timers[i := timers[i].(active := false)], log := log + [Touched(i)])
    }

    function DoAll(acts: seq<Action>): (c: Clock<W>)
      requires countdown <= period
      ensures c.countdown <= c.period
    {
      if acts == [] then this else DoAll(acts[..|acts| - 1]).Do(acts[|acts| - 1])
    }

    function Call(h: Handler<W>, i: nat): (c: Clock<W>)
      requires countdown <= period
      ensures c.countdown <= c.period
    {
      if i >= |timers| then this else
      var (world', acts) := h(world, timers[i].funct, i, Now());
      this.(world := world', log := log + [Fired(Now(), i)]).DoAll(acts)
    }

    function CallDue(h: Handler<W>, ts: seq<Timer>, now: nat, n: nat): (c: Clock<W>)
      requires n <= |ts| && countdown <= period
      ensures c.countdown <= c.period
    {
      if n == 0 then this
      else
        var r := CallDue(h, ts, now, n - 1);
        if Due(ts[n - 1], now) then r.Call(h, n - 1) else r
    }

    /** The callback of slot `i`, made now, asks for nothing that is not allowed. */
    predicate CallOk(h: Handler<W>, i: nat)
      requires countdown <= period
    {
      i < |timers| ==> AllAllowed(h(world, timers[i].funct, i, Now()).1, |timers|)
    }

    /** Nor does any of the callbacks that `CallDue` makes. */
    predicate CallDueOk(h: Handler<W>, ts: seq<Timer>, now: nat, n: nat)
      requires n <= |ts| && countdown <= period
    {
      n == 0 ||
      (CallDueOk(h, ts, now, n - 1) && (Due(ts[n - 1], now) ==> CallDue(h, ts, now, n - 1).CallOk(h, n - 1)))
    }

    /** The countdown is over: the due timers are set anew, and the next countdown begins. */
    function Restart(): (c: Clock<W>)
      ensures c.countdown == c.period
    {
      var now := total + period;
      var ts := AdvanceAll(timers, now);
      var first := Earliest(ts);
      var wait := if first < now then 0 else first - now;
      this.(total := now, period := wait, countdown := wait, timers := ts)
    }

    /** `countdownEvent`. */
    function Event(h: Handler<W>): (c: Clock<W>)
      ensures c.countdown <= c.period
    {
      Restart().CallDue(h, timers, total + period, |timers|)
    }

    predicate EventOk(h: Handler<W>) {
      Restart().CallDueOk(h, timers, total + period, |timers|)
    }

    /** `register_timer_ticks`. */
    function Register(ticks: nat, continuous: bool, active: bool, funct: int): (c: Clock<W>)
      requires countdown <= period && |timers| > 0
      ensures c.countdown <= c.period
    {
      var i := FreeSlot(timers, 1);
      var t := NewTimer(Now(), ticks, continuous, active, funct);
      var c := this.(timers := Put(timers, i, t), log := log + [Touched(i)]);
      if active then c.Shorten(if ticks < 1 then 1 else ticks) else c
    }

    /** `unregisterTimer`. */
    function Unregister(i: nat): (c: Clock<W>)
      requires countdown <= period && i < |timers|
      ensures c.countdown <= c.period
    {
      if timers[i].active then this
      else
        var ts := if i == |timers| - 1 then timers[..i] else timers[i := FREE_TIMER];
        this.(timers := ts, log := log + [Touched(i)])
    }

    /** `tick1`. */
    function Tick(h: Handler<W>): (c: Clock<W>)
      requires countdown <= period
      ensures c.countdown <= c.period
    {
      if countdown <= 1 then this.(countdown := 0).Event(h) else this.(countdown := countdown - 1)
    }

    predicate TickOk(h: Handler<W>)
      requires countdown <= period
    {
      countdown <= 1 ==> this.(countdown := 0).EventOk(h)
    }
  }

  /** The earliest deadline of an active timer. */
  function Earliest(ts: seq<Timer>): nat {
    if ts == [] then TWO64 - 1
    else
      var n := |ts| - 1;
      var m := Earliest(ts[..n]);
      if ts[n].active && ts[n].timeToFire < m then ts[n].timeToFire else m
  }

  lemma {:induction false} EarliestIsLeast(ts: seq<Timer>)
    ensures forall i :: 0 <= i < |ts| && ts[i].active ==> Earliest(ts) <= ts[i].timeToFire
    ensures Earliest(ts) == TWO64 - 1 || exists i :: 0 <= i < |ts| && ts[i].active && Earliest(ts) == ts[i].timeToFire
  {
    if ts != [] {
      EarliestIsLeast(ts[..|ts| - 1]);
    }
  }

  // ---------- the invariant ----------

  /** The deadlines ahead of the time `next`, none further off than its period. */
  ghost predicate Ahead(ts: seq<Timer>, next: nat, now: nat) {
    forall i :: 0 <= i < |ts| && ts[i].active ==>
      1 <= ts[i].period <= HORIZON && next <= ts[i].timeToFire <= now + ts[i].period
  }

  ghost predicate Near(ts: seq<Timer>, now: nat) {
    forall i :: 0 <= i < |ts| && ts[i].active ==> ts[i].period <= HORIZON && ts[i].timeToFire <= now + HORIZON
  }

  /** The null timer is always on. */
  ghost predicate NullTimer(ts: seq<Timer>, interval: nat) {
    0 < interval < TWO32 && |ts| > 0 && ts[0].active && ts[0].continuous && ts[0].period == interval
  }

  ghost predicate Good<W(!new)>(c: Clock<W>, interval: nat) {
    && 0 < c.countdown <= c.period < TWO32
    && NullTimer(c.timers, interval)
    && Ahead(c.timers, c.total + c.period, c.Now())
  }

  lemma DoGood<W(!new)>(c: Clock<W>, act: Action, interval: nat)
    requires Good(c, interval) && Allowed(act, |c.timers|)
    ensures Good(c.Do(act), interval) && |c.Do(act).timers| == |c.timers|
    ensures c.Do(act).Abs() == Do(c.Abs(), act)
  {
  }

  lemma RegisterGood<W(!new)>(c: Clock<W>, ticks: nat, continuous: bool, active: bool, funct: int, interval: nat)
    requires Good(c, interval) && ticks <= HORIZON
    ensures Good(c.Register(ticks, continuous, active, funct), interval)
    ensures c.Register(ticks, continuous, active, funct).Abs() == Register(c.Abs(), ticks, continuous, active, funct)
  {
  }

  lemma UnregisterGood<W(!new)>(c: Clock<W>, i: nat, interval: nat)
    requires Good(c, interval) && 1 <= i < |c.timers|
    ensures Good(c.Unregister(i), interval) && c.Unregister(i).Abs() == Unregister(c.Abs(), i)
  {
  }

  lemma {:induction false} DoAllGood<W(!new)>(c: Clock<W>, acts: seq<Action>, interval: nat)
    requires Good(c, interval) && AllAllowed(acts, |c.timers|)
    ensures Good(c.DoAll(acts), interval) && |c.DoAll(acts).timers| == |c.timers|
    ensures c.DoAll(acts).Abs() == DoAll(c.Abs(), acts)
  {
    if acts != [] {
      var n := |acts| - 1;
      DoAllGood(c, acts[..n], interval);
      DoGood(c.DoAll(acts[..n]), acts[n], interval);
    }
  }

  lemma CallGood<W(!new)>(h: Handler<W>, c: Clock<W>, i: nat, interval: nat)
    requires Good(c, interval) && c.CallOk(h, i)
    ensures Good(c.Call(h, i), interval) && |c.Call(h, i).timers| == |c.timers|
    ensures c.Call(h, i).Abs() == Call(h, c.Abs(), i)
  {
    if i < |c.timers| {
      var (world, acts) := h(c.world, c.timers[i].funct, i, c.Now());
      DoAllGood(c.(world := world, log := c.log + [Fired(c.Now(), i)]), acts, interval);
    }
  }

  lemma {:induction false} CallDueGood<W(!new)>(h: Handler<W>, c: Clock<W>, ts: seq<Timer>, now: nat, n: nat,
      interval: nat)
    requires n <= |ts| && Good(c, interval) && c.CallDueOk(h, ts, now, n)
    ensures var r := c.CallDue(h, ts, now, n);
      Good(r, interval) && |r.timers| == |c.timers| && r.Abs() == CallDue(h, c.Abs(), ts, now, n)
  {
    if n > 0 {
      CallDueGood(h, c, ts, now, n - 1, interval);
      if Due(ts[n - 1], now) {
        CallGood(h, c.CallDue(h, ts, now, n - 1), n - 1, interval);
      }
    }
  }

  /** At the end of a countdown: the next event is now. */
  ghost predicate Over<W>(c: Clock<W>, interval: nat) {
    && c.countdown == 0 < c.period < TWO32
    && NullTimer(c.timers, interval)
    && Ahead(c.timers, c.Now(), c.Now())
    && c.Now() <= HORIZON
  }

  /** The wait for the next event is positive, and the null timer keeps it within 32 bits. */
  lemma WaitFits(ts: seq<Timer>, now: nat, interval: nat)
    requires NullTimer(ts, interval) && Ahead(ts, now, now) && now <= HORIZON
    ensures var m := Earliest(AdvanceAll(ts, now));
      && now < m <= now + interval < now + TWO32
      && NullTimer(AdvanceAll(ts, now), interval) && Ahead(AdvanceAll(ts, now), m, now)
  {
    var r := AdvanceAll(ts, now);
    EarliestIsLeast(r);
    assert r[0] == Advance(ts[0], now);
    forall i | 0 <= i < |r| && r[i].active
      ensures 1 <= r[i].period <= HORIZON && now < r[i].timeToFire <= now + r[i].period
    {
      assert r[i] == Advance(ts[i], now);
    }
  }

  lemma RestartGood<W(!new)>(c: Clock<W>, interval: nat)
    requires Over(c, interval)
    ensures Good(c.Restart(), interval) && |c.Restart().timers| == |c.timers|
    ensures c.Restart().Abs() == c.Abs().(timers := AdvanceAll(c.timers, c.Now()))
  {
    WaitFits(c.timers, c.total + c.period, interval);
  }

  lemma WaitPositive(ts: seq<Timer>, now: nat, interval: nat)
    requires NullTimer(ts, interval) && Ahead(ts, now, now) && now <= HORIZON
    ensures now < Earliest(AdvanceAll(ts, now)) < now + TWO32 && Near(ts, now)
  {
    WaitFits(ts, now, interval);
  }

  lemma Restarted<W>(c: Clock<W>, now: nat, wait: nat)
    requires now == c.total + c.period && Earliest(AdvanceAll(c.timers, now)) == now + wait
    ensures c.Restart() == c.(total := now, period := wait, countdown := wait, timers := AdvanceAll(c.timers, now))
  {
  }

  lemma EventGood<W(!new)>(h: Handler<W>, c: Clock<W>, interval: nat)
    requires Over(c, interval) && c.EventOk(h)
    ensures Good(c.Event(h), interval) && |c.Event(h).timers| == |c.timers|
    ensures c.Event(h).Abs()
         == CallDue(h, c.Abs().(timers := AdvanceAll(c.timers, c.Now())), c.timers, c.Now(), |c.timers|)
  {
    RestartGood(c, interval);
    CallDueGood(h, c.Restart(), c.timers, c.Now(), |c.timers|, interval);
  }

  lemma NothingDue<W>(h: Handler<W>, s: Sched<W>, ts: seq<Timer>, now: nat, n: nat)
    requires n <= |ts| && forall i :: 0 <= i < n ==> !Due(ts[i], now)
    ensures CallDue(h, s, ts, now, n) == s
  {
  }

  /** `tick1` advances the countdown, and means one tick of the schedule. */
  lemma TickGood<W(!new)>(h: Handler<W>, c: Clock<W>, interval: nat)
    requires Good(c, interval) && c.TickOk(h) && c.Now() < HORIZON
    ensures Good(c.Tick(h), interval) && |c.Tick(h).timers| == |c.timers|
    ensures c.Tick(h).Abs() == Tick(h, c.Abs())
  {
    if c.countdown == 1 {
      EventGood(h, c.(countdown := 0), interval);
    } else {
      var now := c.Now() + 1;
      assert forall i :: 0 <= i < |c.timers| ==> !Due(c.timers[i], now);
      assert AdvanceAll(c.timers, now) == c.timers;
      NothingDue(h, c.Abs().(now := now), c.timers, now, |c.timers|);
    }
  }

  /** `n` calls of `tick1`. */
  function ClockTicks<W>(h: Handler<W>, c: Clock<W>, n: nat): (r: Clock<W>)
    requires c.countdown <= c.period
    ensures r.countdown <= r.period
  {
    if n == 0 then c else ClockTicks(h, c, n - 1).Tick(h)
  }

  /** No callback that these `n` ticks make asks for anything that is not allowed. */
  predicate TicksOk<W>(h: Handler<W>, c: Clock<W>, n: nat)
    requires c.countdown <= c.period
  {
    n == 0 || (TicksOk(h, c, n - 1) && ClockTicks(h, c, n - 1).TickOk(h))
  }

  /** `n` calls of `tick1` mean `n` ticks of the schedule. */
  lemma {:induction false} TicksGood<W(!new)>(h: Handler<W>, c: Clock<W>, n: nat, interval: nat)
    requires Good(c, interval) && TicksOk(h, c, n) && c.Now() + n <= HORIZON
    ensures var r := ClockTicks(h, c, n);
      Good(r, interval) && |r.timers| == |c.timers| && r.Abs() == Ticks(h, c.Abs(), n) && r.Now() == c.Now() + n
  {
    if n > 0 {
      TicksGood(h, c, n - 1, interval);
      TickGood(h, ClockTicks(h, c, n - 1), interval);
      TickTime(h, ClockTicks(h, c, n - 1).Abs());
    }
  }

  lemma {:induction false} TicksAdd<W>(h: Handler<W>, c: Clock<W>, m: nat, n: nat)
    requires c.countdown <= c.period
    ensures ClockTicks(h, c, m + n) == ClockTicks(h, ClockTicks(h, c, m), n)
  {
    if n > 0 {
      TicksAdd(h, c, m, n - 1);
    }
  }

  /** Before the countdown is over, ticks only count down. */
  lemma {:induction false} TicksWithin<W>(h: Handler<W>, c: Clock<W>, n: nat)
    requires n < c.countdown <= c.period
    ensures ClockTicks(h, c, n) == c.(countdown := c.countdown - n)
  {
    if n > 0 {
      TicksWithin(h, c, n - 1);
    }
  }

  lemma {:induction false} TicksOkSplit<W>(h: Handler<W>, c: Clock<W>, m: nat, n: nat)
    requires c.countdown <= c.period && TicksOk(h, c, m + n)
    ensures TicksOk(h, c, m) && TicksOk(h, ClockTicks(h, c, m), n)
  {
    if n > 0 {
      TicksOkSplit(h, c, m, n - 1);
      TicksAdd(h, c, m, n - 1);
    }
  }

  /** `k` more ticks after the first `m` of `n`. */
  lemma TicksFrom<W>(h: Handler<W>, c: Clock<W>, v: Clock<W>, m: nat, k: nat, n: nat)
    requires c.countdown <= c.period && v == ClockTicks(h, c, m) && m + k <= n && TicksOk(h, c, n)
    ensures TicksOk(h, v, k) && ClockTicks(h, v, k) == ClockTicks(h, c, m + k)
  {
    TicksOkSplit(h, c, m + k, n - (m + k));
    TicksOkSplit(h, c, m, k);
    TicksAdd(h, c, m, k);
  }

  /** The last `k` ticks, which end before the countdown does. */
  lemma TicksUpTo<W>(h: Handler<W>, c: Clock<W>, v: Clock<W>, m: nat, k: nat)
    requires c.countdown <= c.period && v == ClockTicks(h, c, m) && k < v.countdown
    ensures v.(countdown := v.countdown - k) == ClockTicks(h, c, m + k)
  {
    TicksAdd(h, c, m, k);
    TicksWithin(h, v, k);
  }

  lemma {:induction false} CallDueOkPart<W>(h: Handler<W>, c: Clock<W>, ts: seq<Timer>, now: nat, i: nat, n: nat)
    requires i <= n <= |ts| && c.countdown <= c.period && c.CallDueOk(h, ts, now, n)
    ensures c.CallDueOk(h, ts, now, i)
  {
    if i < n {
      CallDueOkPart(h, c, ts, now, i, n - 1);
    }
  }

  lemma EventOkAtEnd<W>(h: Handler<W>, c: Clock<W>)
    requires 0 < c.countdown <= c.period && TicksOk(h, c, c.countdown)
    ensures c.(countdown := 0).EventOk(h)
  {
    TicksWithin(h, c, c.countdown - 1);
    assert c.(countdown := 1).TickOk(h);
    assert c.(countdown := 1).(countdown := 0) == c.(countdown := 0);
  }

  lemma TicksToEvent<W>(h: Handler<W>, c: Clock<W>)
    requires 0 < c.countdown <= c.period
    ensures ClockTicks(h, c, c.countdown) == c.(countdown := 0).Event(h)
  {
    TicksWithin(h, c, c.countdown - 1);
    assert c.(countdown := 1).(countdown := 0) == c.(countdown := 0);
  }

  lemma TickTime<W>(h: Handler<W>, s: Sched<W>)
    ensures Tick(h, s).now == s.now + 1 && |Tick(h, s).timers| == |s.timers|
  {
    var now := s.now + 1;
    CallDueTime(h, s.(now := now, timers := AdvanceAll(s.timers, now)), s.timers, now, |s.timers|);
  }

  lemma DoAllTime<W>(s: Sched<W>, acts: seq<Action>)
    ensures DoAll(s, acts).now == s.now && |DoAll(s, acts).timers| == |s.timers|
  {
  }

  lemma {:induction false} CallDueTime<W>(h: Handler<W>, s: Sched<W>, ts: seq<Timer>, now: nat, n: nat)
    requires n <= |ts|
    ensures CallDue(h, s, ts, now, n).now == s.now && |CallDue(h, s, ts, now, n).timers| == |s.timers|
  {
    if n > 0 {
      CallDueTime(h, s, ts, now, n - 1);
      var r := CallDue(h, s, ts, now, n - 1);
      if n - 1 < |r.timers| {
        var (world, acts) := h(r.world, r.timers[n - 1].funct, n - 1, r.now);
        DoAllTime(r.(world := world, log := r.log + [Fired(r.now, n - 1)]), acts);
      }
    }
  }

  // ---------- callbacks that behave, whatever happens ----------

  /** Whenever it is called, callback `f` in slot `i` of `n` asks for what is allowed. */
  ghost predicate TameOf<W(!new)>(h: Handler<W>, f: int, i: nat, n: nat) {
    forall w, now :: AllAllowed(h(w, f, i, now).1, n)
  }

  ghost predicate Tame<W(!new)>(h: Handler<W>, ts: seq<Timer>) {
    forall i: nat :: i < |ts| ==> TameOf(h, ts[i].funct, i, |ts|)
  }

  /** The same slots, in use as before and with the same callbacks. */
  ghost predicate SameCallbacks(ts: seq<Timer>, us: seq<Timer>) {
    |ts| == |us| && forall i :: 0 <= i < |ts| ==> us[i].funct == ts[i].funct && us[i].inUse == ts[i].inUse
  }

  lemma TameKept<W(!new)>(h: Handler<W>, ts: seq<Timer>, us: seq<Timer>)
    requires Tame(h, ts) && SameCallbacks(ts, us)
    ensures Tame(h, us)
  {
  }

  lemma DoAllCallbacks<W>(c: Clock<W>, acts: seq<Action>)
    requires c.countdown <= c.period
    ensures SameCallbacks(c.timers, c.DoAll(acts).timers)
  {
  }

  lemma CallCallbacks<W>(h: Handler<W>, c: Clock<W>, i: nat)
    requires c.countdown <= c.period
    ensures SameCallbacks(c.timers, c.Call(h, i).timers)
  {
    if i < |c.timers| {
      var (world, acts) := h(c.world, c.timers[i].funct, i, c.Now());
      DoAllCallbacks(c.(world := world, log := c.log + [Fired(c.Now(), i)]), acts);
    }
  }

  lemma {:induction false} TameCallDue<W(!new)>(h: Handler<W>, c: Clock<W>, ts: seq<Timer>, now: nat, n: nat)
    requires n <= |ts| && c.countdown <= c.period && Tame(h, c.timers)
    ensures c.CallDueOk(h, ts, now, n) && SameCallbacks(c.timers, c.CallDue(h, ts, now, n).timers)
  {
    if n > 0 {
      TameCallDue(h, c, ts, now, n - 1);
      var r := c.CallDue(h, ts, now, n - 1);
      TameKept(h, c.timers, r.timers);
      CallCallbacks(h, r, n - 1);
    }
  }

  lemma TameTick<W(!new)>(h: Handler<W>, c: Clock<W>)
    requires c.countdown <= c.period && Tame(h, c.timers)
    ensures c.TickOk(h) && SameCallbacks(c.timers, c.Tick(h).timers)
  {
    if c.countdown <= 1 {
      var d := c.(countdown := 0);
      TameKept(h, c.timers, d.Restart().timers);
      TameCallDue(h, d.Restart(), d.timers, d.total + d.period, |d.timers|);
    }
  }

  /** With such callbacks in the table any number of ticks is in order. */
  lemma {:induction false} TameTicks<W(!new)>(h: Handler<W>, c: Clock<W>, n: nat)
    requires c.countdown <= c.period && Tame(h, c.timers)
    ensures TicksOk(h, c, n) && SameCallbacks(c.timers, ClockTicks(h, c, n).timers)
  {
    if n > 0 {
      TameTicks(h, c, n - 1);
      var r := ClockTicks(h, c, n - 1);
      TameKept(h, c.timers, r.timers);
      TameTick(h, r);
    }
  }
}
