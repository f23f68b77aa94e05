/** What registering, deactivating and unregistering a timer promise, over any run that follows. */
module TimerPromises {
  import opened Timers
  import opened TimerRuns

  /** Slot `i`, set at the time `start` with the period `p` and left alone, has fired when it should until `now`. */
  ghost predicate AsAsked(news: seq<Event>, i: nat, continuous: bool, start: nat, p: nat, now: nat) {
    Alone(news, i) ==>
      if continuous then EveryPeriod(Firings(news, i), start + p, p, now)
      else Firings(news, i) == if start + p <= now then [start + p] else []
  }

  /** Slot `i`, left alone, has not fired, and its timer is off if there is one. */
  ghost predicate Silent(news: seq<Event>, i: nat, ts: seq<Timer>) {
    Alone(news, i) ==> Firings(news, i) == [] && (i < |ts| ==> !ts[i].active)
  }

  lemma SetKept<W>(s1: Sched<W>, s2: Sched<W>, news: seq<Event>, i: nat, continuous: bool, start: nat, p: nat)
    requires Pending(s1.timers, s1.now) && Kept(s1, s2, news, i) && i < |s1.timers| && p >= 1
    requires var t := s1.timers[i];
      t.active && t.continuous == continuous && t.period == p && t.timeToFire == start + p
    ensures AsAsked(news, i, continuous, start, p, s2.now)
  {
    BeatsClosed(s1.timers[i], s2.now);
  }

  lemma OffKept<W>(s1: Sched<W>, s2: Sched<W>, news: seq<Event>, i: nat)
    requires Pending(s1.timers, s1.now) && Kept(s1, s2, news, i)
    requires i < |s1.timers| ==> !s1.timers[i].active
    ensures Silent(news, i, s2.timers)
  {
    if i < |s1.timers| {
      assert Aged(s1.timers[i], s2.now) == s1.timers[i] && Beats(s1.timers[i], s2.now) == [];
    }
  }

  // ---------- of the list of deadlines ----------

  /** What a registration promises of the slot it takes: an active timer fires as asked, and no other does. */
  ghost predicate Promised(news: seq<Event>, i: nat, ts: seq<Timer>, active: bool, continuous: bool, start: nat,
      p: nat, now: nat) {
    if active then AsAsked(news, i, continuous, start, p, now) else Silent(news, i, ts)
  }

  lemma JustRegistered<W>(s: Sched<W>, ticks: nat, continuous: bool, active: bool, funct: int)
    requires Pending(s.timers, s.now) && s.timers != []
    ensures var s1, i := Register(s, ticks, continuous, active, funct), FreeSlot(s.timers, 1);
      && Pending(s1.timers, s1.now) && s1.log == s.log + [Touched(i)] && s1.now == s.now && i < |s1.timers|
      && s1.timers[i] == Timer(true, PeriodOf(ticks), s.now + PeriodOf(ticks), active, continuous, funct)
  {
  }

  lemma RegisteredTimer<W>(h: Handler<W>, s: Sched<W>, ticks: nat, continuous: bool, active: bool, funct: int,
      cmds: seq<Command>) returns (news: seq<Event>)
    requires Pending(s.timers, s.now) && s.timers != []
    ensures var i, s2 := FreeSlot(s.timers, 1), Run(h, Register(s, ticks, continuous, active, funct), cmds);
      && s2.log == s.log + [Touched(i)] + news
      && Promised(news, i, s2.timers, active, continuous, s.now, PeriodOf(ticks), s2.now)
  {
    var i, s1 := FreeSlot(s.timers, 1), Register(s, ticks, continuous, active, funct);
    JustRegistered(s, ticks, continuous, active, funct);
    news := RunKept(h, s1, cmds, i);
    if active {
      SetKept(s1, Run(h, s1, cmds), news, i, continuous, s.now, PeriodOf(ticks));
    } else {
      OffKept(s1, Run(h, s1, cmds), news, i);
    }
  }

  /** A timer that is switched off stays silent. */
  lemma DeactivatedTimer<W>(h: Handler<W>, s: Sched<W>, i: nat, cmds: seq<Command>) returns (news: seq<Event>)
    requires Pending(s.timers, s.now) && i < |s.timers|
    ensures var s2 := Run(h, Do(s, Deactivate(i)), cmds);
      s2.log == s.log + [Touched(i)] + news && Silent(news, i, s2.timers)
  {
    var s1 := Do(s, Deactivate(i));
    news := RunKept(h, s1, cmds, i);
    OffKept(s1, Run(h, s1, cmds), news, i);
  }

  /** So does a slot that its timer has left. */
  lemma UnregisteredTimer<W>(h: Handler<W>, s: Sched<W>, i: nat, cmds: seq<Command>) returns (news: seq<Event>)
    requires Pending(s.timers, s.now) && i < |s.timers| && !s.timers[i].active
    ensures var s2 := Run(h, Unregister(s, i), cmds);
      s2.log == s.log + [Touched(i)] + news && Silent(news, i, s2.timers)
  {
    var s1 := Unregister(s, i);
    news := RunKept(h, s1, cmds, i);
    OffKept(s1, Run(h, s1, cmds), news, i);
  }

  /** A slot that is given up is free: the next registration takes it, or an earlier one that was free before. */
  lemma SlotGivenUp<W>(s: Sched<W>, i: nat)
    requires 1 <= i < |s.timers| && !s.timers[i].active
    ensures FreeSlot(Unregister(s, i).timers, 1) == if FreeSlot(s.timers, 1) < i then FreeSlot(s.timers, 1) else i
  {
    var ts, k := Unregister(s, i).timers, FreeSlot(s.timers, 1);
    FreeSlotIsFirst(s.timers, 1);
    FreeSlotIsFirst(ts, 1);
    assert forall j :: 0 <= j < i ==> ts[j] == s.timers[j];
    assert i < |ts| ==> !ts[i].inUse;
  }

  // ---------- of the countdown ----------

  lemma RegisteredOnClock<W(!new)>(h: Handler<W>, c: Clock<W>, ticks: nat, continuous: bool, active: bool, funct: int,
      cmds: seq<Command>, interval: nat) returns (news: seq<Event>)
    requires Good(c, interval) && ticks <= HORIZON && LegalRun(h, c.Register(ticks, continuous, active, funct), cmds)
    ensures var i, c2 := FreeSlot(c.timers, 1), ClockRun(h, c.Register(ticks, continuous, active, funct), cmds);
      && c2.log == c.log + [Touched(i)] + news
      && Promised(news, i, c2.timers, active, continuous, c.Now(), PeriodOf(ticks), c2.Now())
  {
    RegisterGood(c, ticks, continuous, active, funct, interval);
    GoodPending(c, interval);
    ClockRunRefines(h, c.Register(ticks, continuous, active, funct), cmds, interval);
    news := RegisteredTimer(h, c.Abs(), ticks, continuous, active, funct, cmds);
  }

  lemma DeactivatedOnClock<W(!new)>(h: Handler<W>, c: Clock<W>, i: nat, cmds: seq<Command>, interval: nat)
    returns (news: seq<Event>)
    requires Good(c, interval) && 1 <= i < |c.timers| && LegalRun(h, c.Do(Deactivate(i)), cmds)
    ensures var c2 := ClockRun(h, c.Do(Deactivate(i)), cmds);
      c2.log == c.log + [Touched(i)] + news && Silent(news, i, c2.timers)
  {
    ActivatedRefines(h, c, Deactivate(i), cmds, interval);
    news := DeactivatedTimer(h, c.Abs(), i, cmds);
  }

  lemma UnregisteredOnClock<W(!new)>(h: Handler<W>, c: Clock<W>, i: nat, cmds: seq<Command>, interval: nat)
    returns (news: seq<Event>)
    requires Good(c, interval) && 1 <= i < |c.timers| && !c.timers[i].active && LegalRun(h, c.Unregister(i), cmds)
    ensures var c2 := ClockRun(h, c.Unregister(i), cmds);
      c2.log == c.log + [Touched(i)] + news && Silent(news, i, c2.timers)
  {
    UnregisterGood(c, i, interval);
    GoodPending(c, interval);
    ClockRunRefines(h, c.Unregister(i), cmds, interval);
    news := UnregisteredTimer(h, c.Abs(), i, cmds);
  }
}
