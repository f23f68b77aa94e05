/** What callbacks do takes effect: which runs leave a timer alone, which calls are made, and timers that re-arm. */
module TimerCallbacks {
  import opened Timers
  import opened TimerRuns

  // ---------- who touches a timer ----------

  /** How often slot `i` was touched. */
  function Touches(log: seq<Event>, i: nat): nat {
    multiset(log)[Touched(i)]
  }

  lemma NoMoreTouches(log: seq<Event>, news: seq<Event>, i: nat)
    ensures Touches(log + news, i) == Touches(log, i) <==> Alone(news, i)
  {
    assert Touched(i) in news <==> Touched(i) in multiset(news);
  }

  /** No callback of another slot acts on slot `i`. */
  ghost predicate OthersShun<W(!new)>(h: Handler<W>, i: nat) {
    forall w, f, j: nat, now :: j != i ==> Elsewhere(h(w, f, j, now).1, i)
  }

  predicate Elsewhere(acts: seq<Action>, i: nat) {
    forall k :: 0 <= k < |acts| ==> acts[k].slot != i
  }

  /** The command does not name slot `i`. */
  predicate Aside(cmd: Command, i: nat) {
    (cmd.Act? ==> cmd.act.slot != i) && (cmd.Leave? ==> cmd.slot != i)
  }

  predicate AllAside(cmds: seq<Command>, i: nat) {
    forall k :: 0 <= k < |cmds| ==> Aside(cmds[k], i)
  }

  lemma DoElsewhere<W>(s: Sched<W>, act: Action, i: nat)
    requires act.slot != i
    ensures Touches(Do(s, act).log, i) == Touches(s.log, i)
  {
  }

  lemma {:induction false} DoAllElsewhere<W>(s: Sched<W>, acts: seq<Action>, i: nat)
    requires Elsewhere(acts, i)
    ensures Touches(DoAll(s, acts).log, i) == Touches(s.log, i)
  {
    if acts != [] {
      var n := |acts| - 1;
      DoAllElsewhere(s, acts[..n], i);
      DoElsewhere(DoAll(s, acts[..n]), acts[n], i);
    }
  }

  /** A call that does not act on slot `i`. */
  lemma CallElsewhere<W>(h: Handler<W>, s: Sched<W>, j: nat, i: nat)
    requires j < |s.timers| ==> Elsewhere(h(s.world, s.timers[j].funct, j, s.now).1, i)
    ensures Touches(Call(h, s, j).log, i) == Touches(s.log, i)
  {
    if j < |s.timers| {
      var (world, acts) := h(s.world, s.timers[j].funct, j, s.now);
      DoAllElsewhere(s.(world := world, log := s.log + [Fired(s.now, j)]), acts, i);
    }
  }

  /** No callback at all acts on slot `i`. */
  ghost predicate AllShun<W(!new)>(h: Handler<W>, i: nat) {
    forall w, f, j: nat, now :: Elsewhere(h(w, f, j, now).1, i)
  }

  lemma {:induction false} CallDueElsewhere<W(!new)>(h: Handler<W>, s: Sched<W>, ts: seq<Timer>, now: nat, n: nat,
      i: nat)
    requires n <= |ts| && AllShun(h, i)
    ensures Touches(CallDue(h, s, ts, now, n).log, i) == Touches(s.log, i)
  {
    if n > 0 {
      CallDueElsewhere(h, s, ts, now, n - 1, i);
      CallElsewhere(h, CallDue(h, s, ts, now, n - 1), n - 1, i);
    }
  }

  lemma {:induction false} TicksElsewhere<W(!new)>(h: Handler<W>, s: Sched<W>, n: nat, i: nat)
    requires AllShun(h, i)
    ensures Touches(Ticks(h, s, n).log, i) == Touches(s.log, i)
  {
    if n > 0 {
      TicksElsewhere(h, s, n - 1, i);
      TickElsewhere(h, Ticks(h, s, n - 1), i);
    }
  }

  lemma TickElsewhere<W(!new)>(h: Handler<W>, s: Sched<W>, i: nat)
    requires AllShun(h, i)
    ensures Touches(Tick(h, s).log, i) == Touches(s.log, i)
  {
    var now := s.now + 1;
    CallDueElsewhere(h, s.(now := now, timers := AdvanceAll(s.timers, now)), s.timers, now, |s.timers|, i);
  }

  /** A command that does not name a slot in use does not touch it. */
  lemma StepElsewhere<W(!new)>(h: Handler<W>, s: Sched<W>, cmd: Command, i: nat)
    requires AllShun(h, i) && Aside(cmd, i) && 1 <= i < |s.timers| && s.timers[i].inUse
    ensures Touches(Step(h, s, cmd).log, i) == Touches(s.log, i)
  {
    match cmd
    case TickOnce => TickElsewhere(h, s, i);
    case TickMany(n) => TicksElsewhere(h, s, n, i);
    case Act(act) => DoElsewhere(s, act, i);
    case Enrol(_, _, _, _) => FreeSlotIsFirst(s.timers, 1);
    case Leave(_) =>
  }

  lemma {:induction false} AgedInUse(t: Timer, until: nat)
    requires t.active ==> 1 <= t.period
    ensures Aged(t, until).inUse == t.inUse && Aged(t, until).funct == t.funct
    decreases if t.active && t.timeToFire <= until then until - t.timeToFire + 1 else 0
  {
    if t.active && t.timeToFire <= until {
      AgedInUse(Advance(t, t.timeToFire), until);
    }
  }

  /** If neither commands nor callbacks name a slot in use, nobody touches it, and it stays in use. */
  lemma {:induction false} LeftAlone<W(!new)>(h: Handler<W>, s: Sched<W>, cmds: seq<Command>, i: nat)
    returns (news: seq<Event>)
    requires Pending(s.timers, s.now) && AllShun(h, i) && AllAside(cmds, i) && 1 <= i < |s.timers| && s.timers[i].inUse
    ensures var s2 := Run(h, s, cmds);
      s2.log == s.log + news && Alone(news, i) && i < |s2.timers| && s2.timers[i].inUse
  {
    news := RunKept(h, s, cmds, i);
    if cmds == [] {
      NoMoreTouches(s.log, news, i);
    } else {
      var n := |cmds| - 1;
      var r := Run(h, s, cmds[..n]);
      var m := LeftAlone(h, s, cmds[..n], i);
      NoMoreTouches(s.log, m, i);
      StepElsewhere(h, r, cmds[n], i);
      NoMoreTouches(s.log, news, i);
      AgedInUse(s.timers[i], Run(h, s, cmds).now);
    }
  }

  // ---------- which calls are made ----------

  /** A call of the callback `funct` for a slot at a time. */
  datatype Made = Made(funct: int, slot: nat, at: nat)

  /** Devices that note every call, with what they are told. */
  ghost predicate Records(h: Handler<seq<Made>>) {
    forall w, f, i, now :: h(w, f, i, now).0 == w + [Made(f, i, now)]
  }

  /** The calls for slot `i`. */
  function MadeFor(w: seq<Made>, i: nat): seq<Made> {
    if w == [] then []
    else
      var c := w[|w| - 1];
      MadeFor(w[..|w| - 1], i) + if c.slot == i then [c] else []
  }

  lemma {:induction false} MadeForAdd(a: seq<Made>, b: seq<Made>, i: nat)
    ensures MadeFor(a + b, i) == MadeFor(a, i) + MadeFor(b, i)
  {
    if b == [] {
      assert a + b == a;
    } else {
      var n := |b| - 1;
      assert (a + b)[..|a + b| - 1] == a + b[..n];
      MadeForAdd(a, b[..n], i);
    }
  }

  /** Calls of `f` for slot `i`, one at each of the times. */
  function CallsAt(times: seq<nat>, f: int, i: nat): (c: seq<Made>)
    ensures |c| == |times| && forall k :: 0 <= k < |c| ==> c[k] == Made(f, i, times[k])
  {
    seq(|times|, k requires 0 <= k < |times| => Made(f, i, times[k]))
  }

  /** Slot `i` is there, with the callback `f`. */
  predicate Wired(ts: seq<Timer>, i: nat, f: int) {
    i < |ts| && ts[i].funct == f
  }

  /** From `s` to `s'` slot `i`, if nobody touched it, had `f` called exactly when it fired. */
  ghost predicate Reported(s: Sched<seq<Made>>, s': Sched<seq<Made>>, news: seq<Event>, made: seq<Made>, i: nat,
      f: int) {
    && s'.log == s.log + news && s'.world == s.world + made
    && (Alone(news, i) && Wired(s.timers, i, f) ==>
          MadeFor(made, i) == CallsAt(Firings(news, i), f, i) && Wired(s'.timers, i, f))
  }

  lemma ReportedAdd(a: Sched<seq<Made>>, b: Sched<seq<Made>>, c: Sched<seq<Made>>, m: seq<Event>, x: seq<Made>,
      n: seq<Event>, y: seq<Made>, i: nat, f: int)
    requires Reported(a, b, m, x, i, f) && Reported(b, c, n, y, i, f)
    ensures Reported(a, c, m + n, x + y, i, f)
  {
    AlonePart(m, n, i);
    FiringsAdd(m, n, i);
    MadeForAdd(x, y, i);
    assert c.log == a.log + (m + n) && c.world == a.world + (x + y);
    assert CallsAt(Firings(m, i) + Firings(n, i), f, i) == CallsAt(Firings(m, i), f, i) + CallsAt(Firings(n, i), f, i);
  }

  /** A step that makes no call and keeps the callback of a slot that is not touched. */
  lemma NoCall(s: Sched<seq<Made>>, s': Sched<seq<Made>>, news: seq<Event>, i: nat, f: int)
    requires s'.log == s.log + news && s'.world == s.world && |news| <= 1 && (news != [] ==> news[0].Touched?)
    requires Alone(news, i) && Wired(s.timers, i, f) ==> Wired(s'.timers, i, f)
    ensures Reported(s, s', news, [], i, f)
  {
    Unmoved(news, i);
    assert s.world + [] == s.world;
  }

  lemma DoReported(s: Sched<seq<Made>>, act: Action, i: nat, f: int) returns (news: seq<Event>)
    ensures Reported(s, Do(s, act), news, [], i, f)
  {
    news := if act.slot >= |s.timers| then [] else [Touched(act.slot)];
    assert s.log + [] == s.log;
    NoCall(s, Do(s, act), news, i, f);
  }

  lemma {:induction false} DoAllReported(s: Sched<seq<Made>>, acts: seq<Action>, i: nat, f: int)
    returns (news: seq<Event>)
    ensures Reported(s, DoAll(s, acts), news, [], i, f)
  {
    if acts == [] {
      news := [];
      assert s.log + [] == s.log;
      NoCall(s, s, [], i, f);
    } else {
      var n := |acts| - 1;
      var m := DoAllReported(s, acts[..n], i, f);
      var k := DoReported(DoAll(s, acts[..n]), acts[n], i, f);
      ReportedAdd(s, DoAll(s, acts[..n]), DoAll(s, acts), m, [], k, [], i, f);
      news := m + k;
      var none: seq<Made> := [];
      assert none + none == none;
    }
  }

  lemma CallReported(h: Handler<seq<Made>>, s: Sched<seq<Made>>, j: nat, i: nat, f: int)
    returns (news: seq<Event>, made: seq<Made>)
    requires Records(h) && j < |s.timers|
    ensures Reported(s, Call(h, s, j), news, made, i, f)
  {
    var (world, acts) := h(s.world, s.timers[j].funct, j, s.now);
    var m, x := [Fired(s.now, j)], [Made(s.timers[j].funct, j, s.now)];
    var s1 := s.(world := world, log := s.log + m);
    assert m[..0] == [] && m[0] == Fired(s.now, j) && x[..0] == [];
    assert Firings(m[..0], i) == [] && MadeFor(x[..0], i) == [];
    assert Firings(m, i) == if i == j then [s.now] else [];
    assert MadeFor(x, i) == if i == j then x else [];
    assert Reported(s, s1, m, x, i, f);
    var k := DoAllReported(s1, acts, i, f);
    ReportedAdd(s, s1, DoAll(s1, acts), m, x, k, [], i, f);
    news, made := m + k, x + [];
  }

  lemma {:induction false} CallDueReported(h: Handler<seq<Made>>, s: Sched<seq<Made>>, ts: seq<Timer>, now: nat, n: nat,
      i: nat, f: int) returns (news: seq<Event>, made: seq<Made>)
    requires Records(h) && n <= |ts| == |s.timers|
    ensures Reported(s, CallDue(h, s, ts, now, n), news, made, i, f)
  {
    if n == 0 {
      news, made := [], [];
      assert s.log + [] == s.log;
      NoCall(s, s, [], i, f);
    } else {
      var r := CallDue(h, s, ts, now, n - 1);
      news, made := CallDueReported(h, s, ts, now, n - 1, i, f);
      if Due(ts[n - 1], now) {
        CallDueTime(h, s, ts, now, n - 1);
        var k, y := CallReported(h, r, n - 1, i, f);
        ReportedAdd(s, r, CallDue(h, s, ts, now, n), news, made, k, y, i, f);
        news, made := news + k, made + y;
      }
    }
  }

  lemma TickReported(h: Handler<seq<Made>>, s: Sched<seq<Made>>, i: nat, f: int)
    returns (news: seq<Event>, made: seq<Made>)
    requires Records(h)
    ensures Reported(s, Tick(h, s), news, made, i, f)
  {
    var now := s.now + 1;
    var s1 := s.(now := now, timers := AdvanceAll(s.timers, now));
    news, made := CallDueReported(h, s1, s.timers, now, |s.timers|, i, f);
    assert i < |s.timers| ==> s1.timers[i] == Advance(s.timers[i], now);
  }

  lemma {:induction false} TicksReported(h: Handler<seq<Made>>, s: Sched<seq<Made>>, n: nat, i: nat, f: int)
    returns (news: seq<Event>, made: seq<Made>)
    requires Records(h)
    ensures Reported(s, Ticks(h, s, n), news, made, i, f)
  {
    if n == 0 {
      news, made := [], [];
      assert s.log + [] == s.log;
      NoCall(s, s, [], i, f);
    } else {
      var m, x := TicksReported(h, s, n - 1, i, f);
      var k, y := TickReported(h, Ticks(h, s, n - 1), i, f);
      ReportedAdd(s, Ticks(h, s, n - 1), Ticks(h, s, n), m, x, k, y, i, f);
      news, made := m + k, x + y;
    }
  }

  lemma EnrolReported(s: Sched<seq<Made>>, ticks: nat, continuous: bool, active: bool, funct: int, i: nat, f: int)
    returns (news: seq<Event>)
    requires s.timers != []
    ensures Reported(s, Register(s, ticks, continuous, active, funct), news, [], i, f)
  {
    news := [Touched(FreeSlot(s.timers, 1))];
    assert news[0] == Touched(FreeSlot(s.timers, 1));
    NoCall(s, Register(s, ticks, continuous, active, funct), news, i, f);
  }

  lemma LeaveReported(s: Sched<seq<Made>>, j: nat, i: nat, f: int) returns (news: seq<Event>)
    requires j < |s.timers|
    ensures Reported(s, Unregister(s, j), news, [], i, f)
  {
    news := if s.timers[j].active then [] else [Touched(j)];
    assert news != [] ==> news[0] == Touched(j);
    assert s.log + [] == s.log;
    NoCall(s, Unregister(s, j), news, i, f);
  }

  lemma StepReported(h: Handler<seq<Made>>, s: Sched<seq<Made>>, cmd: Command, i: nat, f: int)
    returns (news: seq<Event>, made: seq<Made>)
    requires Records(h)
    ensures Reported(s, Step(h, s, cmd), news, made, i, f)
  {
    made := [];
    if cmd == TickOnce {
      news, made := TickReported(h, s, i, f);
    } else if cmd.TickMany? {
      news, made := TicksReported(h, s, cmd.n, i, f);
    } else if cmd.Act? {
      news := DoReported(s, cmd.act, i, f);
    } else if cmd.Enrol? && s.timers != [] {
      news := EnrolReported(s, cmd.ticks, cmd.continuous, cmd.active, cmd.funct, i, f);
    } else if cmd.Leave? && cmd.slot < |s.timers| {
      news := LeaveReported(s, cmd.slot, i, f);
    } else {
      news := [];
      assert s.log + [] == s.log;
      NoCall(s, s, [], i, f);
    }
  }

  /** Over every run, devices that note their calls note those of `f` for slot `i` exactly when its timer fires. */
  lemma {:induction false} RunReported(h: Handler<seq<Made>>, s: Sched<seq<Made>>, cmds: seq<Command>, i: nat, f: int)
    returns (news: seq<Event>, made: seq<Made>)
    requires Records(h)
    ensures Reported(s, Run(h, s, cmds), news, made, i, f)
  {
    if cmds == [] {
      news, made := [], [];
      assert s.log + [] == s.log;
      NoCall(s, s, [], i, f);
    } else {
      var n := |cmds| - 1;
      var r := Run(h, s, cmds[..n]);
      var m, x := RunReported(h, s, cmds[..n], i, f);
      var k, y := StepReported(h, r, cmds[n], i, f);
      ReportedAdd(s, r, Run(h, s, cmds), m, x, k, y, i, f);
      news, made := m + k, x + y;
    }
  }

  /** The callback that was registered is the one that is called, each time the timer fires. */
  lemma RegisteredCalls(h: Handler<seq<Made>>, s: Sched<seq<Made>>, ticks: nat, continuous: bool, active: bool,
      funct: int, cmds: seq<Command>) returns (news: seq<Event>, made: seq<Made>)
    requires Records(h) && s.timers != []
    ensures var i, s2 := FreeSlot(s.timers, 1), Run(h, Register(s, ticks, continuous, active, funct), cmds);
      && s2.log == s.log + [Touched(i)] + news && s2.world == s.world + made
      && (Alone(news, i) ==> MadeFor(made, i) == CallsAt(Firings(news, i), funct, i))
  {
    var s1 := Register(s, ticks, continuous, active, funct);
    news, made := RunReported(h, s1, cmds, FreeSlot(s.timers, 1), funct);
  }
}
