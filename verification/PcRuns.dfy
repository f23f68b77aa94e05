/** Whole runs of the timer system: the promise about a timer, kept by the object with the 32-bit countdown. */
module PcRuns {
  import opened Numbers
  import opened Timers
  import opened TimerPromises
  import opened TimerRuns
  import opened PcSystem

  /** Every command is one the source allows where it comes, and a registration finds a slot. */
  ghost predicate Runnable<W>(h: Handler<W>, c: Clock<W>, cmds: seq<Command>)
    requires c.countdown <= c.period
  {
    && LegalRun(h, c, cmds)
    && forall k :: 0 <= k < |cmds| ==> Feasible(ClockRun(h, c, cmds[..k]), cmds[k])
  }

  ghost predicate Feasible<W>(c: Clock<W>, cmd: Command)
    requires c.countdown <= c.period
  {
    match cmd
    case TickOnce => true
    case TickMany(n) => n < TWO32
    case Act(_) => c.Now() <= HORIZON
    case Enrol(_, _, _, _) => c.Now() <= HORIZON && c.timers != [] && FreeSlot(c.timers, 1) < MAX_TIMERS
    case Leave(_) => true
  }

  lemma {:induction false} LegalAt<W>(h: Handler<W>, c: Clock<W>, cmds: seq<Command>, k: nat)
    requires c.countdown <= c.period && LegalRun(h, c, cmds) && k < |cmds|
    ensures Legal(h, ClockRun(h, c, cmds[..k]), cmds[k])
  {
    var n := |cmds| - 1;
    if k < n {
      LegalAt(h, c, cmds[..n], k);
      assert cmds[..n][..k] == cmds[..k];
    }
  }

  /** One command on the object. */
  method Perform<W(!new)>(pc: PcSystem<W>, cmd: Command)
    requires pc.Valid() && Legal(pc.handler, pc.Value(), cmd) && Feasible(pc.Value(), cmd)
    modifies pc, pc.timer
    ensures pc.Valid() && pc.Value() == ClockStep(pc.handler, old(pc.Value()), cmd)
  {
    match cmd
    case TickOnce =>
      pc.Tick1();
    case TickMany(n) =>
      pc.TickN(n);
    case Act(Activate(i, ticks, continuous)) =>
      pc.ActivateTimerTicks(i, ticks, continuous);
    case Act(Deactivate(i)) =>
      pc.DeactivateTimer(i);
    case Enrol(ticks, continuous, active, funct) =>
      var _ := pc.RegisterTimerTicks(funct, ticks, continuous, active);
    case Leave(i) =>
      var _ := pc.UnregisterTimer(i);
  }

  /** Any run of ticks, activations, deactivations, registrations and their ends. */
  method Run<W(!new)>(pc: PcSystem<W>, cmds: seq<Command>)
    requires pc.Valid() && Runnable(pc.handler, pc.Value(), cmds)
    modifies pc, pc.timer
    ensures pc.Valid() && pc.Value() == ClockRun(pc.handler, old(pc.Value()), cmds)
  {
    ghost var c := pc.Value();
    for k := 0 to |cmds|
      invariant pc.Valid() && pc.Value() == ClockRun(pc.handler, c, cmds[..k])
    {
      LegalAt(pc.handler, c, cmds, k);
      assert cmds[..k + 1][..k] == cmds[..k];
      Perform(pc, cmds[k]);
    }
    assert cmds[..|cmds|] == cmds;
  }

  lemma ActivationKept<W(!new)>(h: Handler<W>, c: Clock<W>, i: nat, ticks: nat, continuous: bool, cmds: seq<Command>,
      interval: nat)
    returns (news: seq<Event>)
    requires Good(c, interval) && Allowed(Activate(i, ticks, continuous), |c.timers|)
    requires LegalRun(h, c.Do(Activate(i, ticks, continuous)), cmds)
    ensures var c2 := ClockRun(h, c.Do(Activate(i, ticks, continuous)), cmds);
      && c2.log == c.log + [Touched(i)] + news
      && AsAsked(news, i, continuous, c.Now(), PeriodOf(ticks), c2.Now())
  {
    if continuous {
      news := ContinuousOnClock(h, c, i, ticks, cmds, interval);
    } else {
      news := OneShotOnClock(h, c, i, ticks, cmds, interval);
    }
  }

  /**
   * A timer is activated and the system runs on.  If nobody touches the timer, a continuous one fires one period after
   * its activation, two periods after it and so on, and a one-shot one just once: none early, none late, none lost.
   */
  method ActivateAndRun<W(!new)>(pc: PcSystem<W>, i: nat, ticks: nat, continuous: bool, cmds: seq<Command>)
    returns (ghost news: seq<Event>)
    requires pc.Valid() && 1 <= i < pc.numTimers && ticks <= HORIZON && pc.Value().Now() <= HORIZON
    requires Runnable(pc.handler, pc.Value().Do(Activate(i, ticks, continuous)), cmds)
    modifies pc, pc.timer
    ensures pc.Valid() && pc.log == old(pc.log) + [Touched(i)] + news
    ensures AsAsked(news, i, continuous, old(pc.Value().Now()), PeriodOf(ticks), pc.Value().Now())
  {
    news := ActivationKept(pc.handler, pc.Value(), i, ticks, continuous, cmds, pc.interval);
    pc.ActivateTimerTicks(i, ticks, continuous);
    Run(pc, cmds);
  }

  /** A timer is registered and the system runs on: if active it fires as asked, and if not it does not. */
  method RegisterAndRun<W(!new)>(pc: PcSystem<W>, funct: int, ticks: nat, continuous: bool, active: bool,
      cmds: seq<Command>) returns (id: nat, ghost news: seq<Event>)
    requires pc.Valid() && ticks <= HORIZON && pc.Value().Now() <= HORIZON
    requires FreeSlot(pc.Value().timers, 1) < MAX_TIMERS
    requires Runnable(pc.handler, pc.Value().Register(ticks, continuous, active, funct), cmds)
    modifies pc, pc.timer
    ensures pc.Valid() && pc.log == old(pc.log) + [Touched(id)] + news
    ensures Promised(news, id, pc.Value().timers, active, continuous, old(pc.Value().Now()), PeriodOf(ticks),
                     pc.Value().Now())
  {
    news := RegisteredOnClock(pc.handler, pc.Value(), ticks, continuous, active, funct, cmds, pc.interval);
    id := pc.RegisterTimerTicks(funct, ticks, continuous, active);
    Run(pc, cmds);
  }

  /** A timer is switched off and the system runs on: it does not fire any more. */
  method DeactivateAndRun<W(!new)>(pc: PcSystem<W>, i: nat, cmds: seq<Command>) returns (ghost news: seq<Event>)
    requires pc.Valid() && 1 <= i < pc.numTimers
    requires Runnable(pc.handler, pc.Value().Do(Deactivate(i)), cmds)
    modifies pc, pc.timer
    ensures pc.Valid() && pc.log == old(pc.log) + [Touched(i)] + news && Silent(news, i, pc.Value().timers)
  {
    news := DeactivatedOnClock(pc.handler, pc.Value(), i, cmds, pc.interval);
    pc.DeactivateTimer(i);
    Run(pc, cmds);
  }

  /** A timer is unregistered and the system runs on: nothing fires in its slot until that is taken again. */
  method UnregisterAndRun<W(!new)>(pc: PcSystem<W>, i: nat, cmds: seq<Command>) returns (ghost news: seq<Event>)
    requires pc.Valid() && 1 <= i < pc.numTimers && !pc.Value().timers[i].active
    requires Runnable(pc.handler, pc.Value().Unregister(i), cmds)
    modifies pc, pc.timer
    ensures pc.Valid() && pc.log == old(pc.log) + [Touched(i)] + news && Silent(news, i, pc.Value().timers)
  {
    news := UnregisteredOnClock(pc.handler, pc.Value(), i, cmds, pc.interval);
    var _ := pc.UnregisterTimer(i);
    Run(pc, cmds);
  }
}
