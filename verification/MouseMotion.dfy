/** Pointer motion in mouse mode: `mouse_start_move`, `mouse_stop_move` and the timer handler
    `mouse_emit_rel`, in fixed point with 256 units to the pixel. */
module MouseMotion {
  import opened Keys
  import opened RowArithmetic

  const INTERVAL_MS := 10
  const UNIT := 256
  const NS_PER_MS := 1000000

  /** The tunables; sysfs stores no negative value. */
  datatype Params = Params(initialStep: nat, base: nat, max: nat, delay: nat, ramp: nat)

  /** The values the driver starts with. */
  const DEFAULTS := Params(8, 80, 320, 80, 400)

  /** How far the ramp has come, of a whole change of `span`. */
  function Ramp(span: nat, accel: nat, ramp: nat): (r: nat)
    requires accel < ramp
  {
    span * accel / ramp
  }

  lemma QuotientMono(a: nat, b: nat, d: nat)
    requires 0 < d && a <= b
    ensures a / d <= b / d
  {
    if a / d > b / d {
      MulMono(b / d + 1, a / d, d);
    }
  }

  lemma RampWithin(span: nat, accel: nat, ramp: nat)
    requires accel < ramp
    ensures Ramp(span, accel, ramp) <= span
  {
    MulMono(accel, ramp, span);
    QuotientMono(span * accel, span * ramp, ramp);
    DivRow(span, ramp, 0);
  }

  lemma RampMono(span: nat, a: nat, b: nat, ramp: nat)
    requires a <= b < ramp
    ensures Ramp(span, a, ramp) <= Ramp(span, b, ramp)
  {
    MulMono(a, b, span);
    QuotientMono(span * a, span * b, ramp);
  }

  /** Speed in pixels a second, `accel` milliseconds into the ramp. C divides towards zero, so a ramp
      that goes down takes off what the same ramp going up would add. */
  function Speed(p: Params, accel: nat): int {
    if accel >= p.ramp then p.max
    else if p.base <= p.max then p.base + Ramp(p.max - p.base, accel, p.ramp)
    else p.base - Ramp(p.base - p.max, accel, p.ramp)
  }

  /** The speed never leaves the range between the two tunables, whichever is larger. */
  lemma SpeedInRange(p: Params, accel: nat)
    ensures p.base <= p.max ==> Speed(p, accel) <= p.max && (accel < p.ramp ==> p.base <= Speed(p, accel))
    ensures p.max <= p.base ==> p.max <= Speed(p, accel) <= p.base
    ensures 0 <= Speed(p, accel)
  {
    hide Ramp;
    if accel < p.ramp {
      if p.base <= p.max {
        RampWithin(p.max - p.base, accel, p.ramp);
      } else {
        RampWithin(p.base - p.max, accel, p.ramp);
      }
    }
  }

  /** The longer a key is held the faster the pointer goes, for all times, exactly when the ramp does
      not run downhill. */
  lemma SpeedNeverDrops(p: Params)
    ensures (forall a: nat, b: nat :: a <= b ==> Speed(p, a) <= Speed(p, b)) <==> p.base <= p.max || p.ramp == 0
  {
    hide Ramp;
    if p.base <= p.max || p.ramp == 0 {
      forall a: nat, b: nat | a <= b ensures Speed(p, a) <= Speed(p, b) {
        SpeedInRange(p, a);
        if p.base <= p.max && b < p.ramp {
          RampMono(p.max - p.base, a, b, p.ramp);
        }
      }
    } else {
      assert Ramp(p.base - p.max, 0, p.ramp) == 0 by { DivRow(0, p.ramp, 0); RampOfNothing(p.base - p.max, p.ramp); }
      assert Speed(p, 0) > Speed(p, p.ramp);
    }
  }

  lemma RampOfNothing(span: nat, ramp: nat)
    requires 0 < ramp
    ensures Ramp(span, 0, ramp) == 0
  {
  }

  /** Units one tick adds to an axis. */
  function Increment(p: Params, accel: nat): (inc: nat) {
    SpeedInRange(p, accel);
    Speed(p, accel) * INTERVAL_MS * UNIT / 1000
  }

  /** Ramp times what it has come is what it should have, less a remainder. */
  lemma RampQuotient(span: nat, accel: nat, ramp: nat)
    requires accel < ramp
    ensures ramp * Ramp(span, accel, ramp) <= span * accel < ramp * Ramp(span, accel, ramp) + ramp
  {
    var all := span * accel;
    assert all == ramp * (all / ramp) + all % ramp;
  }

  /** The speed is the straight line from base to max, rounded towards base to a whole pixel a second, and max after
      the ramp. */
  lemma SpeedIsLine(p: Params, accel: nat)
    ensures p.ramp <= accel ==> Speed(p, accel) == p.max
    ensures accel < p.ramp && p.base <= p.max ==>
              p.ramp * (Speed(p, accel) - p.base) <= (p.max - p.base) * accel
              < p.ramp * (Speed(p, accel) - p.base) + p.ramp
    ensures accel < p.ramp && p.max <= p.base ==>
              p.ramp * (p.base - Speed(p, accel)) <= (p.base - p.max) * accel
              < p.ramp * (p.base - Speed(p, accel)) + p.ramp
  {
    hide Ramp;
    if accel < p.ramp {
      RampQuotient(if p.base <= p.max then p.max - p.base else p.base - p.max, accel, p.ramp);
      if p.base == p.max {
        RampQuotient(0, accel, p.ramp);
      }
    }
  }

  /** A second holds a hundred ticks. Their units make up the speed's pixels, less than a hundred units short. */
  lemma SecondOfUnits(p: Params, accel: nat)
    ensures UNIT * Speed(p, accel) - 100 < 100 * Increment(p, accel) <= UNIT * Speed(p, accel)
  {
    hide Speed;
  }

  /** The tunables keep every product in the handler within a 32-bit int. */
  predicate Fits(p: Params) {
    && p.base * INTERVAL_MS * UNIT < 0x8000_0000 && p.max * INTERVAL_MS * UNIT < 0x8000_0000
    && p.base * p.ramp < 0x8000_0000 && p.max * p.ramp < 0x8000_0000
  }

  lemma NoOverflow(p: Params, accel: nat, sub: nat)
    requires Fits(p) && sub < UNIT
    ensures accel < p.ramp ==> -0x8000_0000 < (p.max - p.base) * accel < 0x8000_0000
    ensures 0 <= Speed(p, accel) * INTERVAL_MS * UNIT < 0x8000_0000
    ensures sub + Increment(p, accel) < 0x8000_0000
  {
    hide Ramp, Speed;
    SpeedInRange(p, accel);
    SpeedBelow(p, accel);
    if accel < p.ramp {
      SpanFits(p.base, p.max, accel, p.ramp);
    }
  }

  lemma SpeedBelow(p: Params, accel: nat)
    ensures Speed(p, accel) <= p.max || Speed(p, accel) <= p.base
  {
    SpeedInRange(p, accel);
  }

  lemma SpanFits(base: nat, max: nat, accel: nat, ramp: nat)
    requires accel <= ramp
    ensures 0 - base * ramp <= (max - base) * accel <= max * ramp
  {
    MulMono(accel, ramp, max);
    MulMono(accel, ramp, base);
    assert (max - base) * accel == max * accel - base * accel;
  }

  function Abs(x: int): nat { if x < 0 then 0 - x else x }

  /** The arrows of one axis. */
  predicate Across(dirs: set<nat>) { PK_LEFT in dirs || PK_RIGHT in dirs }

  predicate Along(dirs: set<nat>) { PK_UP in dirs || PK_DOWN in dirs }

  function Jump(p: Params, d: nat, back: nat, forth: nat): int {
    if d == back then 0 - p.initialStep else if d == forth then p.initialStep else 0
  }

  /** Units one tick adds to an axis whose arrow is held. */
  function Units(p: Params, startNs: nat, nowNs: nat): nat
    requires startNs <= nowNs
  {
    var elapsed := (nowNs - startNs) / NS_PER_MS;
    if elapsed < p.delay then 0 else Increment(p, elapsed - p.delay)
  }

  /** Nothing within the delay; after it the units of a tick so far into the ramp. */
  lemma UnitsBegin(p: Params, startNs: nat, nowNs: nat)
    requires startNs <= nowNs
    ensures nowNs - startNs < p.delay * NS_PER_MS ==> Units(p, startNs, nowNs) == 0
    ensures nowNs - startNs >= p.delay * NS_PER_MS ==>
              var ms := (nowNs - startNs) / NS_PER_MS;
              p.delay <= ms && Units(p, startNs, nowNs) == Increment(p, ms - p.delay)
  {
    hide Increment;
  }

  class Mover {
    var p: Params
    var dirs: set<nat>      // the arrows whose bit is set in mouse_dir
    var pending: bool       // mouse_dw is scheduled
    var startNs: nat
    var subX: int
    var subY: int

    constructor (p: Params)
      requires Fits(p)
      ensures Valid() && dirs == {} && !pending && startNs == 0 && this.p == p
    {
      this.p, dirs, pending := p, {}, false;
      startNs, subX, subY := 0, 0, 0;
    }

    ghost predicate Valid() reads this {
      Fits(p) && 0 <= subX < UNIT && 0 <= subY < UNIT
    }

    /** A tunable changes, at rest or on the move. */
    method Tune(q: Params)
      requires Valid() && Fits(q)
      modifies `p
      ensures Valid() && p == q
    {
      p := q;
    }

    /** `mouse_start_move`: the jump belongs to the first direction pressed; a later one only joins in. */
    method StartMove(d: nat, nowNs: nat) returns (relX: int, relY: int)
      requires Valid()
      modifies this
      ensures Valid() && p == old(p) && dirs == old(dirs) + {d} && pending == (old(pending) || old(dirs) == {})
      ensures old(dirs) != {} ==>
                relX == 0 && relY == 0 && startNs == old(startNs) && subX == old(subX) && subY == old(subY)
      ensures old(dirs) == {} ==>
                && startNs == nowNs && subX == subY == 0
                && relX == Jump(p, d, PK_LEFT, PK_RIGHT) && relY == Jump(p, d, PK_UP, PK_DOWN)
    {
      relX, relY := 0, 0;
      if d in dirs {
        return;
      }
      var first := dirs == {};
      dirs := dirs + {d};
      if first {
        startNs, subX, subY := nowNs, 0, 0;
        relX, relY := Jump(p, d, PK_LEFT, PK_RIGHT), Jump(p, d, PK_UP, PK_DOWN);
        pending := true;
      }
    }

    /** `mouse_stop_move`: motion along the other directions goes on from where it was. */
    method StopMove(d: nat)
      requires Valid()
      modifies `dirs, `pending
      ensures Valid() && dirs == old(dirs) - {d} && pending == (old(pending) && dirs != {})
    {
      dirs := dirs - {d};
      if dirs == {} {
        pending := false;
      }
    }

    /** Mouse mode is switched. */
    method Halt()
      requires Valid()
      modifies `dirs, `pending
      ensures Valid() && dirs == {} && !pending
    {
      dirs, pending := {}, false;
    }

    /** One axis of a tick: whole pixels out, the rest kept. */
    static method Advance(sub: nat, inc: nat) returns (step: nat, rest: nat)
      requires sub < UNIT
      ensures UNIT * step + rest == sub + inc && rest < UNIT
    {
      rest, step := sub + inc, 0;
      var px := rest / UNIT;
      if px > 0 {
        rest, step := rest - px * UNIT, px;
      }
    }

    method TickX(inc: nat) returns (relX: int)
      requires Valid()
      modifies `subX
      ensures Valid()
      ensures UNIT * Abs(relX) + subX == old(subX) + if Across(dirs) then inc else 0
      ensures if PK_RIGHT in dirs then 0 <= relX else relX <= 0
    {
      relX := 0;
      if PK_LEFT in dirs || PK_RIGHT in dirs {
        var step: nat;
        step, subX := Advance(subX, inc);
        relX := (if PK_RIGHT in dirs then 1 else -1) * step;
      }
    }

    method TickY(inc: nat) returns (relY: int)
      requires Valid()
      modifies `subY
      ensures Valid()
      ensures UNIT * Abs(relY) + subY == old(subY) + if Along(dirs) then inc else 0
      ensures if PK_DOWN in dirs then 0 <= relY else relY <= 0
    {
      relY := 0;
      if PK_UP in dirs || PK_DOWN in dirs {
        var step: nat;
        step, subY := Advance(subY, inc);
        relY := (if PK_DOWN in dirs then 1 else -1) * step;
      }
    }

    /** `mouse_emit_rel`, which runs only when scheduled: each axis with an arrow held gains the units, reports its
        whole pixels and keeps the rest. */
    method Tick(nowNs: nat) returns (relX: int, relY: int)
      requires Valid() && pending && startNs <= nowNs
      modifies `subX, `subY, `pending
      ensures Valid() && pending == (dirs != {})
      ensures UNIT * Abs(relX) + subX == old(subX) + if Across(dirs) then Units(p, startNs, nowNs) else 0
      ensures UNIT * Abs(relY) + subY == old(subY) + if Along(dirs) then Units(p, startNs, nowNs) else 0
      ensures if PK_RIGHT in dirs then 0 <= relX else relX <= 0
      ensures if PK_DOWN in dirs then 0 <= relY else relY <= 0
    {
      hide Increment, Speed, Fits;
      relX, relY := 0, 0;
      pending := false;
      if dirs == {} {
        return;
      }
      pending := true;
      var elapsed := (nowNs - startNs) / NS_PER_MS;
      if elapsed < p.delay {
        return;
      }
      var inc := Increment(p, elapsed - p.delay);
      relX := TickX(inc);
      relY := TickY(inc);
    }
  }

  // --- Whole sessions -----------------------------------------------------------------------------

  /** One step of a session: a press, a release, mouse mode ending, time passing to a tick, or a new tunable. */
  datatype Step = Press(d: nat) | Release(d: nat) | ModeOff | Timer(nowNs: nat) | Retune(q: Params)

  /** What decides how much motion the next tick adds. */
  datatype Control = Control(p: Params, dirs: set<nat>, startNs: nat, clock: nat)

  function Next(c: Control, s: Step): Control {
    match s
    case Press(d) => c.(dirs := c.dirs + {d}, startNs := if c.dirs == {} then c.clock else c.startNs)
    case Release(d) => c.(dirs := c.dirs - {d})
    case ModeOff => c.(dirs := {})
    case Timer(nowNs) => c.(clock := if nowNs < c.clock then c.clock else nowNs)
    case Retune(q) => c.(p := q)
  }

  function After(c: Control, steps: seq<Step>): (c': Control)
    requires c.startNs <= c.clock
    ensures c'.startNs <= c'.clock
  {
    if steps == [] then c else Next(After(c, steps[..|steps| - 1]), steps[|steps| - 1])
  }

  predicate Moves(c: Control, horizontal: bool) { if horizontal then Across(c.dirs) else Along(c.dirs) }

  /** All motion added on an axis by ticks since the last start from rest, `carried` being left over from before. */
  function Added(c: Control, carried: int, steps: seq<Step>, horizontal: bool): int
    requires c.startNs <= c.clock
  {
    if steps == [] then carried
    else
      var c', s := After(c, steps[..|steps| - 1]), steps[|steps| - 1];
      var before := Added(c, carried, steps[..|steps| - 1], horizontal);
      if s.Press? && c'.dirs == {} then 0
      else if s.Timer? && Moves(c', horizontal) then before + Units(c'.p, c'.startNs, Next(c', s).clock)
      else before
  }

  /** All pixels reported on an axis by those ticks. */
  function Reported(c: Control, steps: seq<Step>, reports: seq<(int, int)>, horizontal: bool): int
    requires c.startNs <= c.clock && |reports| == |steps|
  {
    if steps == [] then 0
    else
      var n := |steps| - 1;
      var before := Reported(c, steps[..n], reports[..n], horizontal);
      if steps[n].Press? && After(c, steps[..n]).dirs == {} then 0
      else if steps[n].Timer? then before + Abs(if horizontal then reports[n].0 else reports[n].1)
      else before
  }

  /** What one step reports goes the way the arrows held say, and a first press jumps. */
  predicate Directed(c: Control, s: Step, r: (int, int)) {
    match s
    case Press(d) =>
      r == if c.dirs == {} then (Jump(c.p, d, PK_LEFT, PK_RIGHT), Jump(c.p, d, PK_UP, PK_DOWN)) else (0, 0)
    case Timer(_) =>
      && (if PK_RIGHT in c.dirs then 0 <= r.0 else r.0 <= 0)
      && (if PK_DOWN in c.dirs then 0 <= r.1 else r.1 <= 0)
    case _ => r == (0, 0)
  }

  /** One step of the driver. */
  method Perform(m: Mover, s: Step, clock: nat) returns (report: (int, int), clock': nat)
    requires m.Valid() && m.startNs <= clock && m.pending == (m.dirs != {}) && (s.Retune? ==> Fits(s.q))
    modifies m
    ensures m.Valid() && m.startNs <= clock' && m.pending == (m.dirs != {})
    ensures var c := old(Control(m.p, m.dirs, m.startNs, clock));
            && Control(m.p, m.dirs, m.startNs, clock') == Next(c, s) && Directed(c, s, report)
            && (s.Press? && c.dirs == {} ==> m.subX == m.subY == 0)
            && (!(s.Press? && c.dirs == {}) ==>
                  && UNIT * (if s.Timer? then Abs(report.0) else 0) + m.subX ==
                     old(m.subX) + (if s.Timer? && Across(c.dirs) then Units(c.p, c.startNs, clock') else 0)
                  && UNIT * (if s.Timer? then Abs(report.1) else 0) + m.subY ==
                     old(m.subY) + (if s.Timer? && Along(c.dirs) then Units(c.p, c.startNs, clock') else 0))
  {
    hide Fits, Units;
    clock' := clock;
    var relX, relY := 0, 0;
    match s {
      case Press(d) =>
        relX, relY := m.StartMove(d, clock);
      case Release(d) =>
        m.StopMove(d);
      case ModeOff =>
        m.Halt();
      case Timer(nowNs) =>
        clock' := if nowNs < clock then clock else nowNs;
        if m.pending {
          relX, relY := m.Tick(clock');
        }
      case Retune(q) =>
        m.Tune(q);
    }
    report := (relX, relY);
  }

  /** However presses, releases, ticks and new tunables interleave: 256 times the pixels reported on an axis by the
      ticks since the last start from rest, plus what is kept, is all the motion those ticks added. */
  method Session(m: Mover, steps: seq<Step>, start: nat) returns (reports: seq<(int, int)>)
    requires m.Valid() && m.startNs <= start && m.pending == (m.dirs != {})
    requires forall i :: 0 <= i < |steps| && steps[i].Retune? ==> Fits(steps[i].q)
    modifies m
    ensures m.Valid() && |reports| == |steps|
    ensures var c := old(Control(m.p, m.dirs, m.startNs, start));
            && UNIT * Reported(c, steps, reports, true) + m.subX == Added(c, old(m.subX), steps, true)
            && UNIT * Reported(c, steps, reports, false) + m.subY == Added(c, old(m.subY), steps, false)
            && forall i :: 0 <= i < |steps| ==> Directed(After(c, steps[..i]), steps[i], reports[i])
  {
    hide Fits, Units, Directed, Next, Added, Reported, After;
    SessionStarts(Control(m.p, m.dirs, m.startNs, start), m.subX, m.subY);
    ghost var c, x, y := Control(m.p, m.dirs, m.startNs, start), m.subX, m.subY;
    var clock: nat := start;
    reports := [];
    for i := 0 to |steps|
      invariant m.Valid() && m.pending == (m.dirs != {}) && |reports| == i
      invariant m.startNs <= clock && Control(m.p, m.dirs, m.startNs, clock) == After(c, steps[..i])
      invariant UNIT * Reported(c, steps[..i], reports, true) + m.subX == Added(c, x, steps[..i], true)
      invariant UNIT * Reported(c, steps[..i], reports, false) + m.subY == Added(c, y, steps[..i], false)
      invariant forall j :: 0 <= j < i ==> Directed(After(c, steps[..j]), steps[j], reports[j])
    {
      ghost var was, subX, subY := reports, m.subX, m.subY;
      var report;
      report, clock := Perform(m, steps[i], clock);
      reports := reports + [report];
      assert steps[..i] + [steps[i]] == steps[..i + 1];
      Carry(c, x, steps[..i], was, steps[i], report, true, subX, m.subX);
      Carry(c, y, steps[..i], was, steps[i], report, false, subY, m.subY);
    }
    assert steps[..|steps|] == steps;
  }

  lemma SessionStarts(c: Control, x: int, y: int)
    requires c.startNs <= c.clock
    ensures After(c, []) == c && Added(c, x, [], true) == x && Added(c, y, [], false) == y
    ensures Reported(c, [], [], true) == 0 && Reported(c, [], [], false) == 0
  {
  }

  /** One more step keeps the account of an axis. */
  lemma Carry(c: Control, carried: int, steps: seq<Step>, reports: seq<(int, int)>, s: Step, r: (int, int), h: bool,
              sub: int, sub': int)
    requires c.startNs <= c.clock && |reports| == |steps|
    requires UNIT * Reported(c, steps, reports, h) + sub == Added(c, carried, steps, h)
    requires var c' := After(c, steps);
             if s.Press? && c'.dirs == {} then sub' == 0
             else UNIT * (if s.Timer? then Abs(if h then r.0 else r.1) else 0) + sub' ==
                  sub + (if s.Timer? && Moves(c', h) then Units(c'.p, c'.startNs, Next(c', s).clock) else 0)
    ensures UNIT * Reported(c, steps + [s], reports + [r], h) + sub' == Added(c, carried, steps + [s], h)
    ensures After(c, steps + [s]) == Next(After(c, steps), s)
  {
    hide Units;
    assert (steps + [s])[..|steps|] == steps && (reports + [r])[..|steps|] == reports;
  }

  /** The first arrow jumps its own way. */
  lemma JumpsItsWay(c: Control, d: nat, r: (int, int))
    requires c.dirs == {} && Directed(c, Press(d), r)
    ensures d == PK_LEFT ==> r == (0 - c.p.initialStep, 0)
    ensures d == PK_RIGHT ==> r == (c.p.initialStep, 0)
    ensures d == PK_UP ==> r == (0, 0 - c.p.initialStep)
    ensures d == PK_DOWN ==> r == (0, c.p.initialStep)
  {
  }

  /** Ticks after the ramp, nothing else happening. */
  predicate Steady(c: Control, steps: seq<Step>) {
    && c.startNs <= c.clock && (c.p.delay + c.p.ramp) * NS_PER_MS <= c.clock - c.startNs
    && forall i :: 0 <= i < |steps| ==> steps[i].Timer?
  }

  lemma {:induction false} SteadyTicks(c: Control, carried: int, steps: seq<Step>, h: bool)
    requires Steady(c, steps) && Moves(c, h)
    ensures Added(c, carried, steps, h) == carried + |steps| * Increment(c.p, c.p.ramp)
    ensures var c' := After(c, steps); c.clock <= c'.clock && c' == c.(clock := c'.clock)
  {
    hide Increment, Moves, Units;
    if steps != [] {
      var before, s := steps[..|steps| - 1], steps[|steps| - 1];
      SteadyTicks(c, carried, before, h);
      var c' := After(c, before);
      assert s.Timer?;
      assert Moves(c', h) by { StillMoves(c, c', h); }
      SteadyUnits(c, Next(c', s).clock);
      OneMore(|steps|, Increment(c.p, c.p.ramp));
    }
  }

  lemma StillMoves(c: Control, c': Control, h: bool)
    requires Moves(c, h) && c'.dirs == c.dirs
    ensures Moves(c', h)
  {
  }

  lemma SteadyUnits(c: Control, now: nat)
    requires c.startNs <= c.clock <= now && (c.p.delay + c.p.ramp) * NS_PER_MS <= c.clock - c.startNs
    ensures Units(c.p, c.startNs, now) == Increment(c.p, c.p.ramp)
  {
    hide Speed;
    UnitsBegin(c.p, c.startNs, now);
    AfterRamp(c.p, (now - c.startNs) / NS_PER_MS - c.p.delay);
  }

  lemma AfterRamp(p: Params, accel: nat)
    requires p.ramp <= accel
    ensures Increment(p, accel) == Increment(p, p.ramp)
  {
  }

  lemma OneMore(n: nat, inc: nat)
    requires 0 < n
    ensures n * inc == (n - 1) * inc + inc
  {
  }

  /** A second of steady motion reports the top speed's pixels, one fewer at most, on each axis with an arrow held. */
  method SteadySecond(m: Mover, steps: seq<Step>, start: nat) returns (reports: seq<(int, int)>)
    requires m.Valid() && m.startNs <= start && m.pending == (m.dirs != {}) && |steps| == 100
    requires Steady(Control(m.p, m.dirs, m.startNs, start), steps)
    modifies m
    ensures m.Valid() && |reports| == |steps|
    ensures var c := old(Control(m.p, m.dirs, m.startNs, start));
            && (Across(c.dirs) ==> c.p.max - 1 <= Reported(c, steps, reports, true) <= c.p.max)
            && (Along(c.dirs) ==> c.p.max - 1 <= Reported(c, steps, reports, false) <= c.p.max)
  {
    hide Increment, Speed, Added, Reported, Across, Along, Units, Directed, Fits;
    ghost var c, x, y := Control(m.p, m.dirs, m.startNs, start), m.subX, m.subY;
    if Across(c.dirs) {
      SteadyTicks(c, x, steps, true);
    }
    if Along(c.dirs) {
      SteadyTicks(c, y, steps, false);
    }
    SecondOfUnits(c.p, c.p.ramp);
    SpeedIsLine(c.p, c.p.ramp);
    reports := Session(m, steps, start);
  }
}
