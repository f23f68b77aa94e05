/** One-shot timers whose callback sets them anew: what a callback asks for is done, at the time it is called. */
module TimerRearming {
  import opened Timers
  import opened TimerRuns
  import opened TimerCallbacks

  /** The callback `f` of slot `i` sets its timer anew, once, and does nothing else. */
  ghost predicate Rearms<W(!new)>(h: Handler<W>, i: nat, f: int, ticks: nat) {
    forall w, now :: h(w, f, i, now).1 == [Activate(i, ticks, false)]
  }

  /** The one-shot timer of slot `i` is set for `due`. */
  predicate Armed(ts: seq<Timer>, i: nat, f: int, due: nat) {
    i < |ts| && ts[i].inUse && ts[i].active && !ts[i].continuous && ts[i].funct == f && ts[i].timeToFire == due
  }

  /** A continuous timer with these deadlines, to count by. */
  function Regular(due: nat, p: nat): Timer {
    Timer(true, p, due, true, true, 0)
  }

  lemma {:induction false} RegularAged(due: nat, p: nat, until: nat)
    requires p >= 1
    ensures var t := Aged(Regular(due, p), until); t == Regular(t.timeToFire, p) && t.timeToFire > until
    decreases if due <= until then until - due + 1 else 0
  {
    if due <= until {
      RegularAged(due + p, p, until);
      assert Advance(Regular(due, p), due) == Regular(due + p, p);
    }
  }

  /** From `s` to `s'` the timer of slot `i`, set for `due` and re-armed each time, fired like a regular one. */
  ghost predicate Regularly<W>(s: Sched<W>, s': Sched<W>, news: seq<Event>, i: nat, f: int, p: nat, due: nat)
    requires p >= 1
  {
    && s.now <= s'.now && s'.log == s.log + news && Pending(s'.timers, s'.now)
    && Firings(news, i) == Beats(Regular(due, p), s'.now)
    && Armed(s'.timers, i, f, Aged(Regular(due, p), s'.now).timeToFire)
  }

  lemma RegularlyAdd<W>(a: Sched<W>, b: Sched<W>, c: Sched<W>, m: seq<Event>, n: seq<Event>, i: nat, f: int, p: nat,
      due: nat)
    requires p >= 1 && Regularly(a, b, m, i, f, p, due)
    requires Regularly(b, c, n, i, f, p, Aged(Regular(due, p), b.now).timeToFire)
    ensures Regularly(a, c, m + n, i, f, p, due)
  {
    RegularAged(due, p, b.now);
    BeatsAdd(Regular(due, p), b.now, c.now);
    FiringsAdd(m, n, i);
    assert c.log == a.log + (m + n);
  }

  /** What leaves the timer as it is, in no time, is regular. */
  lemma Unchanged<W>(s: Sched<W>, s': Sched<W>, news: seq<Event>, i: nat, f: int, p: nat, due: nat)
    requires p >= 1 && due > s.now && Armed(s.timers, i, f, due) && Standing(s, s', news, i) && Alone(news, i)
    ensures Regularly(s, s', news, i, f, p, due)
  {
    assert Aged(Regular(due, p), s.now) == Regular(due, p) && Beats(Regular(due, p), s.now) == [];
  }

  // ---------- one tick ----------

  lemma {:induction false} CallDueOthers<W(!new)>(h: Handler<W>, s: Sched<W>, ts: seq<Timer>, now: nat, n: nat, i: nat)
    requires n <= |ts| && OthersShun(h, i) && (i < n ==> !Due(ts[i], now))
    ensures Touches(CallDue(h, s, ts, now, n).log, i) == Touches(s.log, i)
  {
    if n > 0 {
      CallDueOthers(h, s, ts, now, n - 1, i);
      if n - 1 != i {
        CallElsewhere(h, CallDue(h, s, ts, now, n - 1), n - 1, i);
      }
    }
  }

  /** The callbacks of the other slots leave the timer alone. */
  lemma OthersCalled<W(!new)>(h: Handler<W>, s: Sched<W>, ts: seq<Timer>, now: nat, n: nat, i: nat)
    returns (news: seq<Event>)
    requires n <= |ts| == |s.timers| && OthersShun(h, i) && (i < n ==> !Due(ts[i], now))
    ensures Meanwhile(s, CallDue(h, s, ts, now, n), news, i, []) && Alone(news, i)
  {
    news := CallDueMeanwhile(h, s, ts, now, n, i);
    CallDueOthers(h, s, ts, now, n, i);
    NoMoreTouches(s.log, news, i);
  }

  /** The timer fired now and is set anew. */
  ghost predicate Rung<W>(s: Sched<W>, s': Sched<W>, news: seq<Event>, i: nat, f: int, p: nat) {
    && s'.now == s.now && |s'.timers| == |s.timers| && s'.log == s.log + news && Firings(news, i) == [s.now]
    && (Pending(s.timers, s.now) ==> Pending(s'.timers, s.now)) && Armed(s'.timers, i, f, s.now + p)
  }

  /** Its own call, after those of earlier slots. */
  lemma OwnCall<W(!new)>(h: Handler<W>, s: Sched<W>, r: Sched<W>, m: seq<Event>, i: nat, f: int, ticks: nat)
    returns (news: seq<Event>)
    requires Meanwhile(s, r, m, i, []) && Alone(m, i) && Rearms(h, i, f, ticks)
    requires i < |s.timers| && s.timers[i].inUse && s.timers[i].funct == f
    ensures Rung(s, Call(h, r, i), news, i, f, PeriodOf(ticks))
  {
    var (world, acts) := h(r.world, r.timers[i].funct, i, r.now);
    var r1 := r.(world := world, log := r.log + [Fired(r.now, i)]);
    assert acts[..0] == [] && acts[0] == Activate(i, ticks, false);
    assert DoAll(r1, acts) == Do(r1, acts[0]);
    var k := [Fired(r.now, i), Touched(i)];
    assert k[..1] == [Fired(r.now, i)] && k[..1][..0] == [];
    assert Firings(k[..1][..0], i) == [];
    assert Firings(k[..1], i) == [r.now];
    assert Firings(k, i) == [r.now] + [];
    news := m + k;
    FiringsAdd(m, k, i);
    assert Call(h, r, i).log == s.log + news;
  }

  lemma RungOn<W>(s: Sched<W>, r: Sched<W>, r': Sched<W>, m: seq<Event>, k: seq<Event>, i: nat, f: int, p: nat)
    requires Rung(s, r, m, i, f, p) && Meanwhile(r, r', k, i, []) && Alone(k, i)
    ensures Rung(s, r', m + k, i, f, p)
  {
    FiringsAdd(m, k, i);
    assert r'.log == s.log + (m + k);
  }

  lemma LaterCall<W(!new)>(h: Handler<W>, s: Sched<W>, r: Sched<W>, m: seq<Event>, j: nat, i: nat, f: int, p: nat)
    returns (news: seq<Event>)
    requires Rung(s, r, m, i, f, p) && OthersShun(h, i) && j != i && j < |r.timers|
    ensures Rung(s, Call(h, r, j), news, i, f, p)
  {
    var k := CallMeanwhile(h, r, j, i);
    CallElsewhere(h, r, j, i);
    NoMoreTouches(r.log, k, i);
    RungOn(s, r, Call(h, r, j), m, k, i, f, p);
    news := m + k;
  }

  lemma {:induction false} CallDueOwn<W(!new)>(h: Handler<W>, s: Sched<W>, ts: seq<Timer>, now: nat, n: nat, i: nat,
      f: int, ticks: nat) returns (news: seq<Event>)
    requires i < n <= |ts| == |s.timers| && OthersShun(h, i) && Rearms(h, i, f, ticks) && Due(ts[i], now)
    requires s.timers[i].inUse && s.timers[i].funct == f
    ensures Rung(s, CallDue(h, s, ts, now, n), news, i, f, PeriodOf(ticks))
  {
    var r := CallDue(h, s, ts, now, n - 1);
    if n - 1 == i {
      var m := OthersCalled(h, s, ts, now, i, i);
      news := OwnCall(h, s, r, m, i, f, ticks);
    } else {
      news := CallDueOwn(h, s, ts, now, n - 1, i, f, ticks);
      if Due(ts[n - 1], now) {
        news := LaterCall(h, s, r, news, n - 1, i, f, PeriodOf(ticks));
      }
    }
  }

  lemma AdvancedPending(ts: seq<Timer>, now: nat)
    requires Pending(ts, now)
    ensures Pending(AdvanceAll(ts, now + 1), now + 1)
  {
    var us := AdvanceAll(ts, now + 1);
    forall j | 0 <= j < |us| && us[j].active ensures 1 <= us[j].period && now + 1 < us[j].timeToFire {
      assert us[j] == Advance(ts[j], now + 1);
    }
  }

  lemma RegularTick(due: nat, p: nat, now: nat)
    requires p >= 1 && due >= now
    ensures Beats(Regular(due, p), now) == if due == now then [now] else []
    ensures Aged(Regular(due, p), now).timeToFire == if due == now then now + p else due
  {
    if due == now {
      var u := Regular(due + p, p);
      assert Advance(Regular(due, p), due) == u && Aged(u, now) == u && Beats(u, now) == [];
    }
  }

  lemma TickRegular<W(!new)>(h: Handler<W>, s: Sched<W>, i: nat, f: int, ticks: nat, due: nat)
    returns (news: seq<Event>)
    requires OthersShun(h, i) && Rearms(h, i, f, ticks)
    requires Pending(s.timers, s.now) && Armed(s.timers, i, f, due) && due > s.now
    ensures Regularly(s, Tick(h, s), news, i, f, PeriodOf(ticks), due)
  {
    var now := s.now + 1;
    var s1 := s.(now := now, timers := AdvanceAll(s.timers, now));
    AdvancedPending(s.timers, s.now);
    RegularTick(due, PeriodOf(ticks), now);
    assert s1.timers[i] == Advance(s.timers[i], now);
    if due == now {
      news := CallDueOwn(h, s1, s.timers, now, |s.timers|, i, f, ticks);
    } else {
      news := OthersCalled(h, s1, s.timers, now, |s.timers|, i);
    }
  }

  lemma {:induction false} TicksRegular<W(!new)>(h: Handler<W>, s: Sched<W>, n: nat, i: nat, f: int, ticks: nat,
      due: nat) returns (news: seq<Event>)
    requires OthersShun(h, i) && Rearms(h, i, f, ticks)
    requires Pending(s.timers, s.now) && Armed(s.timers, i, f, due) && due > s.now
    ensures Regularly(s, Ticks(h, s, n), news, i, f, PeriodOf(ticks), due)
  {
    if n == 0 {
      news := [];
      NothingRegular(s, i, f, PeriodOf(ticks), due);
    } else {
      var r := Ticks(h, s, n - 1);
      var m := TicksRegular(h, s, n - 1, i, f, ticks, due);
      RegularAged(due, PeriodOf(ticks), r.now);
      var due' := Aged(Regular(due, PeriodOf(ticks)), r.now).timeToFire;
      var k := TickRegular(h, r, i, f, ticks, due');
      RegularlyAdd(s, r, Ticks(h, s, n), m, k, i, f, PeriodOf(ticks), due);
      news := m + k;
    }
  }

  lemma NothingRegular<W>(s: Sched<W>, i: nat, f: int, p: nat, due: nat)
    requires p >= 1 && Pending(s.timers, s.now) && Armed(s.timers, i, f, due) && due > s.now
    ensures Regularly(s, s, [], i, f, p, due)
  {
    assert s.log + [] == s.log;
    RegularAged(due, p, s.now);
    assert Aged(Regular(due, p), s.now) == Regular(due, p) && Beats(Regular(due, p), s.now) == [];
  }

  // ---------- whole runs ----------

  /** A command that takes no time and does not name the slot. */
  lemma AsideStanding<W>(h: Handler<W>, s: Sched<W>, cmd: Command, i: nat) returns (news: seq<Event>)
    requires Pending(s.timers, s.now) && Aside(cmd, i) && !cmd.TickOnce? && !cmd.TickMany?
    requires 1 <= i < |s.timers| && s.timers[i].inUse
    ensures Standing(s, Step(h, s, cmd), news, i) && Alone(news, i)
  {
    match cmd
    case Act(act) =>
      news := DoStanding(s, act, i);
      DoElsewhere(s, act, i);
      NoMoreTouches(s.log, news, i);
    case Enrol(ticks, continuous, active, funct) =>
      FreeSlotIsFirst(s.timers, 1);
      news := EnrolStanding(s, ticks, continuous, active, funct, i);
      assert Touches(Step(h, s, cmd).log, i) == Touches(s.log, i);
      NoMoreTouches(s.log, news, i);
    case Leave(j) =>
      if j < |s.timers| {
        news := LeaveStanding(s, j, i);
        assert Touches(Step(h, s, cmd).log, i) == Touches(s.log, i);
        NoMoreTouches(s.log, news, i);
      } else {
        news := [];
        assert s.log + [] == s.log;
      }
  }

  lemma StepRegular<W(!new)>(h: Handler<W>, s: Sched<W>, cmd: Command, i: nat, f: int, ticks: nat, due: nat)
    returns (news: seq<Event>)
    requires OthersShun(h, i) && Rearms(h, i, f, ticks) && Aside(cmd, i) && i >= 1
    requires Pending(s.timers, s.now) && Armed(s.timers, i, f, due) && due > s.now
    ensures Regularly(s, Step(h, s, cmd), news, i, f, PeriodOf(ticks), due)
  {
    if cmd.TickOnce? {
      news := TickRegular(h, s, i, f, ticks, due);
    } else if cmd.TickMany? {
      news := TicksRegular(h, s, cmd.n, i, f, ticks, due);
    } else {
      news := AsideStanding(h, s, cmd, i);
      Unchanged(s, Step(h, s, cmd), news, i, f, PeriodOf(ticks), due);
    }
  }

  lemma {:induction false} RunRegular<W(!new)>(h: Handler<W>, s: Sched<W>, cmds: seq<Command>, i: nat, f: int,
      ticks: nat, due: nat) returns (news: seq<Event>)
    requires OthersShun(h, i) && Rearms(h, i, f, ticks) && AllAside(cmds, i) && i >= 1
    requires Pending(s.timers, s.now) && Armed(s.timers, i, f, due) && due > s.now
    ensures Regularly(s, Run(h, s, cmds), news, i, f, PeriodOf(ticks), due)
  {
    if cmds == [] {
      news := [];
      NothingRegular(s, i, f, PeriodOf(ticks), due);
    } else {
      var n := |cmds| - 1;
      var r := Run(h, s, cmds[..n]);
      var m := RunRegular(h, s, cmds[..n], i, f, ticks, due);
      RegularAged(due, PeriodOf(ticks), r.now);
      var due' := Aged(Regular(due, PeriodOf(ticks)), r.now).timeToFire;
      var k := StepRegular(h, r, cmds[n], i, f, ticks, due');
      RegularlyAdd(s, r, Run(h, s, cmds), m, k, i, f, PeriodOf(ticks), due);
      news := m + k;
    }
  }

  /** A one-shot timer whose callback sets it anew each time fires at its deadline and every period after it. */
  lemma RearmingTimer<W(!new)>(h: Handler<W>, s: Sched<W>, cmds: seq<Command>, i: nat, f: int, ticks: nat, due: nat)
    returns (news: seq<Event>)
    requires OthersShun(h, i) && Rearms(h, i, f, ticks) && AllAside(cmds, i) && i >= 1
    requires Pending(s.timers, s.now) && Armed(s.timers, i, f, due)
    ensures var s2 := Run(h, s, cmds);
      s2.log == s.log + news && EveryPeriod(Firings(news, i), due, PeriodOf(ticks), s2.now)
  {
    news := RunRegular(h, s, cmds, i, f, ticks, due);
    BeatsClosed(Regular(due, PeriodOf(ticks)), Run(h, s, cmds).now);
  }

  /** The countdown does the same. */
  lemma RearmingOnClock<W(!new)>(h: Handler<W>, c: Clock<W>, cmds: seq<Command>, i: nat, f: int, ticks: nat, due: nat,
      interval: nat) returns (news: seq<Event>)
    requires OthersShun(h, i) && Rearms(h, i, f, ticks) && AllAside(cmds, i) && i >= 1
    requires Good(c, interval) && LegalRun(h, c, cmds) && Armed(c.timers, i, f, due)
    ensures var c2 := ClockRun(h, c, cmds);
      c2.log == c.log + news && EveryPeriod(Firings(news, i), due, PeriodOf(ticks), c2.Now())
  {
    GoodPending(c, interval);
    ClockRunRefines(h, c, cmds, interval);
    news := RearmingTimer(h, c.Abs(), cmds, i, f, ticks, due);
  }
}
