/** When timers fire, over any run of ticks, activations, registrations and callbacks. */
module TimerRuns {
  import opened Timers

  /** What can happen to the schedule from outside. */
  datatype Command =
    | TickOnce
    | TickMany(n: nat)
    | Act(act: Action)
    | Enrol(ticks: nat, continuous: bool, active: bool, funct: int)
    | Leave(slot: nat)

  function Step<W>(h: Handler<W>, s: Sched<W>, cmd: Command): Sched<W> {
    match cmd
    case TickOnce => Tick(h, s)
    case TickMany(n) => Ticks(h, s, n)
    case Act(act) => Do(s, act)
    case Enrol(ticks, continuous, active, funct) =>
      if s.timers == [] then s else Register(s, ticks, continuous, active, funct)
    case Leave(i) => if i < |s.timers| then Unregister(s, i) else s
  }

  function Run<W>(h: Handler<W>, s: Sched<W>, cmds: seq<Command>): Sched<W> {
    if cmds == [] then s else Step(h, Run(h, s, cmds[..|cmds| - 1]), cmds[|cmds| - 1])
  }

  /** The times at which slot `i` fired. */
  function Firings(log: seq<Event>, i: nat): seq<nat> {
    if log == [] then []
    else
      var e := log[|log| - 1];
      Firings(log[..|log| - 1], i) + if e.Fired? && e.slot == i then [e.at] else []
  }

  lemma {:induction false} FiringsAdd(a: seq<Event>, b: seq<Event>, i: nat)
    ensures Firings(a + b, i) == Firings(a, i) + Firings(b, i)
  {
    if b == [] {
      assert a + b == a;
    } else {
      var n := |b| - 1;
      assert (a + b)[..|a + b| - 1] == a + b[..n];
      FiringsAdd(a, b[..n], i);
    }
  }

  /** Active deadlines lie ahead. */
  ghost predicate Pending(ts: seq<Timer>, now: nat) {
    forall i :: 0 <= i < |ts| && ts[i].active ==> 1 <= ts[i].period && now < ts[i].timeToFire
  }

  // ---------- one timer by itself ----------

  /** The timer `t`, left alone until the time `until`. */
  function Aged(t: Timer, until: nat): Timer
    requires t.active ==> 1 <= t.period
    decreases if t.active && t.timeToFire <= until then until - t.timeToFire + 1 else 0
  {
    if t.active && t.timeToFire <= until then Aged(Advance(t, t.timeToFire), until) else t
  }

  /** When it fires until then. */
  function Beats(t: Timer, until: nat): seq<nat>
    requires t.active ==> 1 <= t.period
    decreases if t.active && t.timeToFire <= until then until - t.timeToFire + 1 else 0
  {
    if t.active && t.timeToFire <= until then [t.timeToFire] + Beats(Advance(t, t.timeToFire), until) else []
  }

  /** Waiting until `a` and then until `b`. */
  lemma {:induction false} BeatsAdd(t: Timer, a: nat, b: nat)
    requires (t.active ==> 1 <= t.period) && a <= b
    ensures Aged(t, a).active ==> 1 <= Aged(t, a).period
    ensures Aged(Aged(t, a), b) == Aged(t, b) && Beats(t, b) == Beats(t, a) + Beats(Aged(t, a), b)
    decreases if t.active && t.timeToFire <= a then a - t.timeToFire + 1 else 0
  {
    if t.active && t.timeToFire <= a {
      BeatsAdd(Advance(t, t.timeToFire), a, b);
    }
  }

  /** The times d, d + p, d + 2 * p, ..., all of them up to `until` and no other. */
  ghost predicate EveryPeriod(beats: seq<nat>, d: nat, p: nat, until: nat) {
    && (forall k :: 0 <= k < |beats| ==> beats[k] == d + k * p <= until)
    && until < d + |beats| * p
  }

  /** A continuous timer beats at its deadline and every period after it; a one-shot timer once. */
  lemma {:induction false} BeatsClosed(t: Timer, until: nat)
    requires 1 <= t.period && t.active
    ensures !t.continuous ==> Beats(t, until) == if t.timeToFire <= until then [t.timeToFire] else []
    ensures t.continuous ==> EveryPeriod(Beats(t, until), t.timeToFire, t.period, until)
    decreases if t.timeToFire <= until then until - t.timeToFire + 1 else 0
  {
    if t.timeToFire <= until && t.continuous {
      var u := Advance(t, t.timeToFire);
      BeatsClosed(u, until);
      var d, p, b := t.timeToFire, t.period, Beats(u, until);
      forall k | 0 <= k < |[d] + b| ensures ([d] + b)[k] == d + k * p <= until {
        if k > 0 {
          assert ([d] + b)[k] == b[k - 1] == u.timeToFire + (k - 1) * p;
          OneMore(k, p);
        }
      }
      OneMore(|b| + 1, p);
    }
  }

  lemma OneMore(k: nat, p: nat)
    requires k > 0
    ensures p + (k - 1) * p == k * p
  {
  }

  // ---------- a timer among the others ----------

  /** Nobody touches slot `i`. */
  ghost predicate Alone(log: seq<Event>, i: nat) {
    Touched(i) !in log
  }

  lemma AlonePart(a: seq<Event>, b: seq<Event>, i: nat)
    ensures Alone(a + b, i) <==> Alone(a, i) && Alone(b, i)
  {
  }

  /** `s'` comes from `s` at the same time; `news` is what happened, among it `fired`, the firings of slot `i`. */
  ghost predicate Meanwhile<W>(s: Sched<W>, s': Sched<W>, news: seq<Event>, i: nat, fired: seq<nat>) {
    && s'.now == s.now && |s'.timers| == |s.timers| && s'.log == s.log + news
    && (Pending(s.timers, s.now) ==> Pending(s'.timers, s.now))
    && (Alone(news, i) && i < |s.timers| ==> s'.timers[i] == s.timers[i])
    && (Alone(news, i) ==> Firings(news, i) == fired)
  }

  lemma MeanwhileAdd<W>(a: Sched<W>, b: Sched<W>, c: Sched<W>, m: seq<Event>, n: seq<Event>, i: nat, f: seq<nat>,
      g: seq<nat>)
    requires Meanwhile(a, b, m, i, f) && Meanwhile(b, c, n, i, g)
    ensures Meanwhile(a, c, m + n, i, f + g)
  {
    AlonePart(m, n, i);
    FiringsAdd(m, n, i);
    assert c.log == a.log + (m + n);
  }

  lemma DoMeanwhile<W>(s: Sched<W>, act: Action, i: nat) returns (news: seq<Event>)
    ensures Meanwhile(s, Do(s, act), news, i, [])
  {
    news := if act.slot >= |s.timers| then [] else [Touched(act.slot)];
    assert s.log + [] == s.log;
    assert news != [] ==> news[0] == Touched(act.slot) && news[..0] == [];
    assert Firings(news[..0], i) == [];
  }

  lemma {:induction false} DoAllMeanwhile<W>(s: Sched<W>, acts: seq<Action>, i: nat) returns (news: seq<Event>)
    ensures Meanwhile(s, DoAll(s, acts), news, i, [])
  {
    if acts == [] {
      news := [];
      assert s.log + [] == s.log;
    } else {
      var n := |acts| - 1;
      var m := DoAllMeanwhile(s, acts[..n], i);
      var k := DoMeanwhile(DoAll(s, acts[..n]), acts[n], i);
      MeanwhileAdd(s, DoAll(s, acts[..n]), DoAll(s, acts), m, k, i, [], []);
      news := m + k;
    }
  }

  lemma CallMeanwhile<W>(h: Handler<W>, s: Sched<W>, j: nat, i: nat) returns (news: seq<Event>)
    requires j < |s.timers|
    ensures Meanwhile(s, Call(h, s, j), news, i, if i == j then [s.now] else [])
  {
    var (world, acts) := h(s.world, s.timers[j].funct, j, s.now);
    var m := [Fired(s.now, j)];
    var s1 := s.(world := world, log := s.log + m);
    var f := if i == j then [s.now] else [];
    assert m[..0] == [] && m[0] == Fired(s.now, j);
    assert Firings(m[..0], i) == [];
    assert Firings(m, i) == f;
    assert Meanwhile(s, s1, m, i, f);
    var k := DoAllMeanwhile(s1, acts, i);
    MeanwhileAdd(s, s1, DoAll(s1, acts), m, k, i, f, []);
    news := m + k;
    assert f + [] == f;
  }

  lemma {:induction false} CallDueMeanwhile<W>(h: Handler<W>, s: Sched<W>, ts: seq<Timer>, now: nat, n: nat, i: nat)
    returns (news: seq<Event>)
    requires n <= |ts| == |s.timers|
    ensures Meanwhile(s, CallDue(h, s, ts, now, n), news, i, if i < n && Due(ts[i], now) then [s.now] else [])
  {
    if n == 0 {
      news := [];
      assert s.log + [] == s.log;
    } else {
      var r := CallDue(h, s, ts, now, n - 1);
      var m := CallDueMeanwhile(h, s, ts, now, n - 1, i);
      var f := if i < n - 1 && Due(ts[i], now) then [s.now] else [];
      if Due(ts[n - 1], now) {
        var k := CallMeanwhile(h, r, n - 1, i);
        var g := if i == n - 1 then [s.now] else [];
        MeanwhileAdd(s, r, CallDue(h, s, ts, now, n), m, k, i, f, g);
        news := m + k;
        assert f + [] == f && [] + g == g;
      } else {
        news := m;
      }
    }
  }

  // ---------- the promise ----------

  /** From `s` to `s'`, with the news `news`, the timer of slot `i` kept its times if nobody touched it. */
  ghost predicate Kept<W>(s: Sched<W>, s': Sched<W>, news: seq<Event>, i: nat)
    requires Pending(s.timers, s.now)
  {
    && s.now <= s'.now && s'.log == s.log + news
    && Pending(s'.timers, s'.now)
    && (Alone(news, i) && i < |s.timers| ==>
          && i < |s'.timers|
          && s'.timers[i] == Aged(s.timers[i], s'.now)
          && Firings(news, i) == Beats(s.timers[i], s'.now))
    && (Alone(news, i) && i >= |s.timers| ==> i >= |s'.timers| && Firings(news, i) == [])
  }

  lemma TickKept<W>(h: Handler<W>, s: Sched<W>, i: nat) returns (news: seq<Event>)
    requires Pending(s.timers, s.now)
    ensures Kept(s, Tick(h, s), news, i)
  {
    var now := s.now + 1;
    var s1 := s.(now := now, timers := AdvanceAll(s.timers, now));
    news := CallDueMeanwhile(h, s1, s.timers, now, |s.timers|, i);
    forall j | 0 <= j < |s.timers| && s1.timers[j].active ensures 1 <= s1.timers[j].period
        && now < s1.timers[j].timeToFire {
      assert s1.timers[j] == Advance(s.timers[j], now);
    }
    assert Pending(s1.timers, now);
    if i < |s.timers| {
      var t := s.timers[i];
      assert s1.timers[i] == Advance(t, now);
      if Due(t, now) {
        assert Aged(t, now) == Aged(Advance(t, now), now) == Advance(t, now);
        assert Beats(t, now) == [now] + Beats(Advance(t, now), now) == [now];
      } else {
        assert Aged(t, now) == t && Beats(t, now) == [];
      }
    }
  }

  /** Ticks kept one by one are kept together. */
  lemma {:induction false} TicksKept<W>(h: Handler<W>, s: Sched<W>, n: nat, i: nat) returns (news: seq<Event>)
    requires Pending(s.timers, s.now)
    ensures Kept(s, Ticks(h, s, n), news, i)
  {
    if n == 0 {
      news := [];
      NothingKept(s, i);
    } else {
      var m := TicksKept(h, s, n - 1, i);
      var k := TickKept(h, Ticks(h, s, n - 1), i);
      KeptAdd(s, Ticks(h, s, n - 1), Ticks(h, s, n), m, k, i);
      news := m + k;
    }
  }

  lemma NothingKept<W>(s: Sched<W>, i: nat)
    requires Pending(s.timers, s.now)
    ensures Kept(s, s, [], i)
  {
    assert s.log + [] == s.log;
    if i < |s.timers| {
      assert Aged(s.timers[i], s.now) == s.timers[i] && Beats(s.timers[i], s.now) == [];
    }
  }

  /** A step that takes no time and fires nothing. */
  ghost predicate Standing<W>(s: Sched<W>, s': Sched<W>, news: seq<Event>, i: nat) {
    && s'.now == s.now && s'.log == s.log + news && Pending(s'.timers, s.now) && Firings(news, i) == []
    && (Alone(news, i) && i < |s.timers| ==> i < |s'.timers| && s'.timers[i] == s.timers[i])
    && (Alone(news, i) && i >= |s.timers| ==> i >= |s'.timers|)
  }

  lemma StandingKept<W>(s: Sched<W>, s': Sched<W>, news: seq<Event>, i: nat)
    requires Pending(s.timers, s.now) && Standing(s, s', news, i)
    ensures Kept(s, s', news, i)
  {
  }

  lemma EnrolStanding<W>(s: Sched<W>, ticks: nat, continuous: bool, active: bool, funct: int, i: nat)
    returns (news: seq<Event>)
    requires Pending(s.timers, s.now) && s.timers != []
    ensures Standing(s, Register(s, ticks, continuous, active, funct), news, i)
  {
    news := [Touched(FreeSlot(s.timers, 1))];
    Unmoved(news, i);
    assert news[0] == Touched(FreeSlot(s.timers, 1));
  }

  lemma LeaveStanding<W>(s: Sched<W>, k: nat, i: nat) returns (news: seq<Event>)
    requires Pending(s.timers, s.now) && k < |s.timers|
    ensures Standing(s, Unregister(s, k), news, i)
  {
    assert s.log + [] == s.log;
    news := if s.timers[k].active then [] else [Touched(k)];
    Unmoved(news, i);
    assert news != [] ==> news[0] == Touched(k);
  }

  lemma DoStanding<W>(s: Sched<W>, act: Action, i: nat) returns (news: seq<Event>)
    requires Pending(s.timers, s.now)
    ensures Standing(s, Do(s, act), news, i)
  {
    assert s.log + [] == s.log;
    news := if act.slot >= |s.timers| then [] else [Touched(act.slot)];
    Unmoved(news, i);
    assert news != [] ==> news[0] == Touched(act.slot);
  }

  lemma StepKept<W>(h: Handler<W>, s: Sched<W>, cmd: Command, i: nat) returns (news: seq<Event>)
    requires Pending(s.timers, s.now)
    ensures Kept(s, Step(h, s, cmd), news, i)
  {
    if cmd == TickOnce {
      news := TickKept(h, s, i);
    } else if cmd.TickMany? {
      news := TicksKept(h, s, cmd.n, i);
    } else {
      if cmd.Act? {
        news := DoStanding(s, cmd.act, i);
      } else if cmd.Enrol? && s.timers != [] {
        news := EnrolStanding(s, cmd.ticks, cmd.continuous, cmd.active, cmd.funct, i);
      } else if cmd.Leave? && cmd.slot < |s.timers| {
        news := LeaveStanding(s, cmd.slot, i);
      } else {
        news := [];
        assert s.log + [] == s.log;
      }
      StandingKept(s, Step(h, s, cmd), news, i);
    }
  }

  lemma Unmoved(news: seq<Event>, i: nat)
    requires |news| <= 1 && (news != [] ==> news[0].Touched?)
    ensures Firings(news, i) == []
  {
  }

  lemma KeptAdd<W>(a: Sched<W>, b: Sched<W>, c: Sched<W>, m: seq<Event>, n: seq<Event>, i: nat)
    requires Pending(a.timers, a.now) && Kept(a, b, m, i) && Kept(b, c, n, i)
    ensures Kept(a, c, m + n, i)
  {
    AlonePart(m, n, i);
    FiringsAdd(m, n, i);
    assert c.log == a.log + (m + n);
    if Alone(m + n, i) && i < |a.timers| {
      BeatsAdd(a.timers[i], b.now, c.now);
    }
  }

  /**
   * Over every run, every timer that nobody touches fires exactly at its deadlines:
   * never early, never late, never missed, and in the end it stands as one left alone would.
   */
  lemma {:induction false} RunKept<W>(h: Handler<W>, s: Sched<W>, cmds: seq<Command>, i: nat) returns (news: seq<Event>)
    requires Pending(s.timers, s.now)
    ensures Kept(s, Run(h, s, cmds), news, i)
  {
    if cmds == [] {
      news := [];
      NothingKept(s, i);
    } else {
      var n := |cmds| - 1;
      var m := RunKept(h, s, cmds[..n], i);
      var k := StepKept(h, Run(h, s, cmds[..n]), cmds[n], i);
      KeptAdd(s, Run(h, s, cmds[..n]), Run(h, s, cmds), m, k, i);
      news := m + k;
    }
  }

  /** The period that asking for `ticks` gives. */
  function PeriodOf(ticks: nat): (p: nat)
    ensures p >= 1
  {
    if ticks < 1 then 1 else ticks
  }

  /** A continuous timer activated now fires one period from now, two periods from now, and so on. */
  lemma ContinuousTimer<W>(h: Handler<W>, s: Sched<W>, i: nat, ticks: nat, cmds: seq<Command>)
    returns (news: seq<Event>)
    requires Pending(s.timers, s.now) && i < |s.timers|
    ensures var s1 := Do(s, Activate(i, ticks, true));
      var s2 := Run(h, s1, cmds);
      s2.log == s1.log + news
      && (Alone(news, i) ==> EveryPeriod(Firings(news, i), s.now + PeriodOf(ticks), PeriodOf(ticks), s2.now))
  {
    var s1 := Do(s, Activate(i, ticks, true));
    news := RunKept(h, s1, cmds, i);
    BeatsClosed(s1.timers[i], Run(h, s1, cmds).now);
  }

  /** What becomes of a one-shot timer left alone: it is switched off at its deadline. */
  lemma {:induction false} OneShotAged(t: Timer, until: nat)
    requires 1 <= t.period && t.active && !t.continuous
    ensures Aged(t, until) == t.(active := until < t.timeToFire)
    ensures Beats(t, until) == if t.timeToFire <= until then [t.timeToFire] else []
  {
    BeatsClosed(t, until);
    if t.timeToFire <= until {
      var off := t.(active := false);
      assert Advance(t, t.timeToFire) == off;
      assert Aged(off, until) == off;
    }
  }

  /** Once the one-shot timer of slot `i` is set for `due`, it fires once, then, and is off from then on. */
  ghost predicate FiresOnce(ts: seq<Timer>, now: nat, news: seq<Event>, i: nat, due: nat) {
    && Firings(news, i) == (if due <= now then [due] else [])
    && i < |ts| && (ts[i].active <==> now < due)
  }

  lemma OneShotKept<W>(s1: Sched<W>, s2: Sched<W>, news: seq<Event>, i: nat)
    requires Pending(s1.timers, s1.now) && Kept(s1, s2, news, i) && Alone(news, i)
    requires i < |s1.timers| && s1.timers[i].active && !s1.timers[i].continuous
    ensures FiresOnce(s2.timers, s2.now, news, i, s1.timers[i].timeToFire)
  {
    OneShotAged(s1.timers[i], s2.now);
  }

  lemma OneShotSince<W>(s1: Sched<W>, s2: Sched<W>, news: seq<Event>, i: nat, due: nat)
    requires Pending(s1.timers, s1.now) && Kept(s1, s2, news, i) && i < |s1.timers|
    requires s1.timers[i].active && !s1.timers[i].continuous && s1.timers[i].timeToFire == due
    ensures s2.log == s1.log + news && (Alone(news, i) ==> FiresOnce(s2.timers, s2.now, news, i, due))
  {
    if Alone(news, i) {
      OneShotKept(s1, s2, news, i);
    }
  }

  lemma JustSet<W>(s: Sched<W>, i: nat, ticks: nat, continuous: bool)
    requires Pending(s.timers, s.now) && i < |s.timers|
    ensures var s1 := Do(s, Activate(i, ticks, continuous));
      && Pending(s1.timers, s1.now) && |s1.timers| == |s.timers| && s1.timers[i].active
      && s1.timers[i].continuous == continuous && s1.timers[i].timeToFire == s.now + PeriodOf(ticks)
  {
  }

  /** A one-shot timer fires once, at its deadline, and is then off. */
  lemma OneShotTimer<W>(h: Handler<W>, s: Sched<W>, i: nat, ticks: nat, cmds: seq<Command>) returns (news: seq<Event>)
    requires Pending(s.timers, s.now) && i < |s.timers|
    ensures var s1 := Do(s, Activate(i, ticks, false));
      var s2 := Run(h, s1, cmds);
      s2.log == s1.log + news && (Alone(news, i) ==> FiresOnce(s2.timers, s2.now, news, i, s.now + PeriodOf(ticks)))
  {
    var s1 := Do(s, Activate(i, ticks, false));
    JustSet(s, i, ticks, false);
    news := RunKept(h, s1, cmds, i);
    OneShotSince(s1, Run(h, s1, cmds), news, i, s.now + PeriodOf(ticks));
  }

  // ---------- the countdown over whole runs ----------

  function ClockStep<W>(h: Handler<W>, c: Clock<W>, cmd: Command): (r: Clock<W>)
    requires c.countdown <= c.period
    ensures r.countdown <= r.period
  {
    match cmd
    case TickOnce => c.Tick(h)
    case TickMany(n) => ClockTicks(h, c, n)
    case Act(act) => c.Do(act)
    case Enrol(ticks, continuous, active, funct) =>
      if c.timers == [] then c else c.Register(ticks, continuous, active, funct)
    case Leave(i) => if i < |c.timers| then c.Unregister(i) else c
  }

  function ClockRun<W>(h: Handler<W>, c: Clock<W>, cmds: seq<Command>): (r: Clock<W>)
    requires c.countdown <= c.period
    ensures r.countdown <= r.period
  {
    if cmds == [] then c else ClockStep(h, ClockRun(h, c, cmds[..|cmds| - 1]), cmds[|cmds| - 1])
  }

  /** What the source asks of its callers. */
  predicate Permitted<W>(c: Clock<W>, cmd: Command)
    requires c.countdown <= c.period
  {
    match cmd
    case TickOnce => c.Now() < HORIZON
    case TickMany(n) => c.Now() + n <= HORIZON
    case Act(act) => Allowed(act, |c.timers|)
    case Enrol(ticks, _, _, _) => ticks <= HORIZON
    case Leave(i) => 1 <= i < |c.timers|
  }

  /** It asks the same of the callbacks that a command makes. */
  predicate Legal<W>(h: Handler<W>, c: Clock<W>, cmd: Command)
    requires c.countdown <= c.period
  {
    && Permitted(c, cmd)
    && match cmd
       case TickOnce => c.TickOk(h)
       case TickMany(n) => TicksOk(h, c, n)
       case _ => true
  }

  predicate LegalRun<W>(h: Handler<W>, c: Clock<W>, cmds: seq<Command>)
    requires c.countdown <= c.period
  {
    cmds == [] ||
    (LegalRun(h, c, cmds[..|cmds| - 1]) && Legal(h, ClockRun(h, c, cmds[..|cmds| - 1]), cmds[|cmds| - 1]))
  }

  /** Nothing but its callers can make a command illegal while the callbacks of the table behave. */
  lemma TameLegal<W(!new)>(h: Handler<W>, c: Clock<W>, cmd: Command)
    requires c.countdown <= c.period && Tame(h, c.timers)
    ensures Legal(h, c, cmd) <==> Permitted(c, cmd)
  {
    TameTick(h, c);
    if cmd.TickMany? {
      TameTicks(h, c, cmd.n);
    }
  }

  predicate OnlyOn(acts: seq<Action>, i: nat) {
    forall k :: 0 <= k < |acts| ==> acts[k].slot == i && Allowed(acts[k], i + 1)
  }

  /** Every callback acts on its own timer only, which it may set anew; so the null timer's does nothing. */
  ghost predicate OwnTimerOnly<W(!new)>(h: Handler<W>) {
    forall w, f, i, now :: OnlyOn(h(w, f, i, now).1, i)
  }

  lemma OwnTimerTame<W(!new)>(h: Handler<W>, ts: seq<Timer>)
    requires OwnTimerOnly(h)
    ensures Tame(h, ts)
  {
    forall i: nat | i < |ts| ensures TameOf(h, ts[i].funct, i, |ts|) {
      forall w, now ensures AllAllowed(h(w, ts[i].funct, i, now).1, |ts|) {
        assert OnlyOn(h(w, ts[i].funct, i, now).1, i);
      }
    }
  }

  predicate PermittedRun<W>(h: Handler<W>, c: Clock<W>, cmds: seq<Command>)
    requires c.countdown <= c.period
  {
    cmds == [] ||
    (PermittedRun(h, c, cmds[..|cmds| - 1]) && Permitted(ClockRun(h, c, cmds[..|cmds| - 1]), cmds[|cmds| - 1]))
  }

  /** With such callbacks every run is legal that the callers of the source may make. */
  lemma {:induction false} OwnTimerRuns<W(!new)>(h: Handler<W>, c: Clock<W>, cmds: seq<Command>)
    requires c.countdown <= c.period && OwnTimerOnly(h)
    ensures LegalRun(h, c, cmds) <==> PermittedRun(h, c, cmds)
  {
    if cmds != [] {
      var n := |cmds| - 1;
      OwnTimerRuns(h, c, cmds[..n]);
      var r := ClockRun(h, c, cmds[..n]);
      OwnTimerTame(h, r.timers);
      TameLegal(h, r, cmds[n]);
    }
  }

  lemma ClockStepRefines<W(!new)>(h: Handler<W>, c: Clock<W>, cmd: Command, interval: nat)
    requires Good(c, interval) && Legal(h, c, cmd)
    ensures Good(ClockStep(h, c, cmd), interval) && ClockStep(h, c, cmd).Abs() == Step(h, c.Abs(), cmd)
  {
    match cmd
    case TickOnce => TickGood(h, c, interval);
    case TickMany(n) => TicksGood(h, c, n, interval);
    case Act(act) => DoGood(c, act, interval);
    case Enrol(ticks, continuous, active, funct) => RegisterGood(c, ticks, continuous, active, funct, interval);
    case Leave(i) => UnregisterGood(c, i, interval);
  }

  /**
   * In every state that a legal run reaches, the countdown is positive and fits 32 bits and no active deadline
   * comes before the next event; and the countdown has done what the list of deadlines promises.
   */
  lemma {:induction false} ClockRunRefines<W(!new)>(h: Handler<W>, c: Clock<W>, cmds: seq<Command>, interval: nat)
    requires Good(c, interval) && LegalRun(h, c, cmds)
    ensures Good(ClockRun(h, c, cmds), interval)
    ensures ClockRun(h, c, cmds).Abs() == Run(h, c.Abs(), cmds)
    ensures Pending(ClockRun(h, c, cmds).timers, ClockRun(h, c, cmds).Now())
  {
    if cmds != [] {
      var n := |cmds| - 1;
      ClockRunRefines(h, c, cmds[..n], interval);
      ClockStepRefines(h, ClockRun(h, c, cmds[..n]), cmds[n], interval);
    }
  }

  // ---------- the promise, of the countdown ----------

  /** How much time a command takes. */
  function Duration(cmd: Command): nat {
    match cmd
    case TickOnce => 1
    case TickMany(n) => n
    case Act(_) => 0
    case Enrol(_, _, _, _) => 0
    case Leave(_) => 0
  }

  lemma {:induction false} TicksTime<W>(h: Handler<W>, s: Sched<W>, n: nat)
    ensures Ticks(h, s, n).now == s.now + n
  {
    if n > 0 {
      TicksTime(h, s, n - 1);
      TickTime(h, Ticks(h, s, n - 1));
    }
  }

  /** Only ticks move the clock, however the countdown is cut short. */
  lemma OnlyTicksTakeTime<W(!new)>(h: Handler<W>, c: Clock<W>, cmd: Command, interval: nat)
    requires Good(c, interval) && Legal(h, c, cmd)
    ensures ClockStep(h, c, cmd).Now() == c.Now() + Duration(cmd)
  {
    ClockStepRefines(h, c, cmd, interval);
    if cmd == TickOnce {
      TickTime(h, c.Abs());
    } else if cmd.TickMany? {
      TicksTime(h, c.Abs(), cmd.n);
    }
  }

  lemma GoodPending<W(!new)>(c: Clock<W>, interval: nat)
    requires Good(c, interval)
    ensures Pending(c.Abs().timers, c.Abs().now)
  {
  }

  /** What the countdown does over a legal run is what every timer left alone is promised. */
  lemma ClockRunKept<W(!new)>(h: Handler<W>, c: Clock<W>, cmds: seq<Command>, i: nat, interval: nat)
    returns (news: seq<Event>)
    requires Good(c, interval) && LegalRun(h, c, cmds)
    ensures Pending(c.Abs().timers, c.Abs().now) && Kept(c.Abs(), ClockRun(h, c, cmds).Abs(), news, i)
  {
    GoodPending(c, interval);
    ClockRunRefines(h, c, cmds, interval);
    news := RunKept(h, c.Abs(), cmds, i);
  }

  /** After an activation the countdown keeps to the list of deadlines, over any legal run. */
  lemma ActivatedRefines<W(!new)>(h: Handler<W>, c: Clock<W>, act: Action, cmds: seq<Command>, interval: nat)
    requires Good(c, interval) && Allowed(act, |c.timers|) && LegalRun(h, c.Do(act), cmds)
    ensures Pending(c.Abs().timers, c.Abs().now) && c.Do(act).Abs() == Do(c.Abs(), act)
    ensures ClockRun(h, c.Do(act), cmds).Abs() == Run(h, Do(c.Abs(), act), cmds)
  {
    DoGood(c, act, interval);
    GoodPending(c, interval);
    ClockRunRefines(h, c.Do(act), cmds, interval);
  }

  /** The countdown fires a continuous timer one period after its activation, two periods after it, and so on. */
  lemma ContinuousOnClock<W(!new)>(h: Handler<W>, c: Clock<W>, i: nat, ticks: nat, cmds: seq<Command>, interval: nat)
    returns (news: seq<Event>)
    requires Good(c, interval) && Allowed(Activate(i, ticks, true), |c.timers|)
    requires LegalRun(h, c.Do(Activate(i, ticks, true)), cmds)
    ensures var c1 := c.Do(Activate(i, ticks, true));
      var c2 := ClockRun(h, c1, cmds);
      c2.log == c1.log + news
      && (Alone(news, i) ==> EveryPeriod(Firings(news, i), c.Now() + PeriodOf(ticks), PeriodOf(ticks), c2.Now()))
  {
    ActivatedRefines(h, c, Activate(i, ticks, true), cmds, interval);
    news := ContinuousTimer(h, c.Abs(), i, ticks, cmds);
  }

  /** From `c1` on, with the news `news`, the one-shot timer of slot `i` set for `due` did what it should. */
  ghost predicate OnceSince<W>(c1: Clock<W>, c2: Clock<W>, news: seq<Event>, i: nat, due: nat)
    requires c2.countdown <= c2.period
  {
    c2.log == c1.log + news && (Alone(news, i) ==> FiresOnce(c2.timers, c2.Now(), news, i, due))
  }

  lemma OnceKept<W>(s1: Sched<W>, s2: Sched<W>, c1: Clock<W>, c2: Clock<W>, news: seq<Event>, i: nat, due: nat)
    requires c1.countdown <= c1.period && c2.countdown <= c2.period && c1.Abs() == s1 && c2.Abs() == s2
    requires Pending(s1.timers, s1.now) && Kept(s1, s2, news, i)
    requires i < |s1.timers| && s1.timers[i].active && !s1.timers[i].continuous && s1.timers[i].timeToFire == due
    ensures OnceSince(c1, c2, news, i, due)
  {
    OneShotSince(s1, s2, news, i, due);
  }

  lemma JustActivated<W(!new)>(c: Clock<W>, i: nat, ticks: nat, continuous: bool, interval: nat)
    requires Good(c, interval) && Allowed(Activate(i, ticks, continuous), |c.timers|)
    ensures var c1 := c.Do(Activate(i, ticks, continuous));
      && Good(c1, interval) && i < |c1.timers| && c1.timers[i].active && c1.timers[i].continuous == continuous
      && c1.timers[i].timeToFire == c.Now() + PeriodOf(ticks)
  {
    DoGood(c, Activate(i, ticks, continuous), interval);
  }

  lemma OneShotFrom<W(!new)>(h: Handler<W>, c1: Clock<W>, cmds: seq<Command>, i: nat, due: nat, interval: nat)
    returns (news: seq<Event>)
    requires Good(c1, interval) && LegalRun(h, c1, cmds)
    requires i < |c1.timers| && c1.timers[i].active && !c1.timers[i].continuous && c1.timers[i].timeToFire == due
    ensures OnceSince(c1, ClockRun(h, c1, cmds), news, i, due)
  {
    news := ClockRunKept(h, c1, cmds, i, interval);
    var c2 := ClockRun(h, c1, cmds);
    OnceKept(c1.Abs(), c2.Abs(), c1, c2, news, i, due);
  }

  /** It fires a one-shot timer once, at its deadline. */
  lemma OneShotOnClock<W(!new)>(h: Handler<W>, c: Clock<W>, i: nat, ticks: nat, cmds: seq<Command>, interval: nat)
    returns (news: seq<Event>)
    requires Good(c, interval) && Allowed(Activate(i, ticks, false), |c.timers|)
    requires LegalRun(h, c.Do(Activate(i, ticks, false)), cmds)
    ensures var c1 := c.Do(Activate(i, ticks, false));
      OnceSince(c1, ClockRun(h, c1, cmds), news, i, c.Now() + PeriodOf(ticks))
  {
    JustActivated(c, i, ticks, false, interval);
    news := OneShotFrom(h, c.Do(Activate(i, ticks, false)), cmds, i, c.Now() + PeriodOf(ticks), interval);
  }
}
