/** End to end the other way: a switch that closes reaches Linux, whatever other keys are held meanwhile. */
module Strokes {
  import opened Keys
  import opened SlotTable
  import opened DriverSpec
  import opened Scanning
  import opened Pipeline
  import opened Typing
  import Fifo
  import Firmware

  /** The driver knows every key that has a slot to be held. */
  ghost predicate SlotsHeld(es: seq<Event>, t: Table) {
    forall q: nat :: q < KEYS && q != BLANK_KEY && Present(t, q) ==> Held(es, PhysOf(q))
  }

  lemma AllInUseAreHeld(es: seq<Event>, t: Table)
    requires Agrees(es, t) && forall i :: 0 <= i < |t| && t[i].entry != NO_ENTRY ==> IsDown(t[i].state)
    ensures SlotsHeld(es, t)
  {
    hide PhysOf, Held, PhaseOf;
    forall q: nat | q < KEYS && q != BLANK_KEY && Present(t, q) ensures Held(es, PhysOf(q)) {
      assert Active(t, q);
      PhaseIsHeld(es, PhysOf(q));
    }
  }

  /** Holds, and presses of keys that are held, tell the driver nothing new. */
  predicate NothingNew(es: seq<Event>, e: Event) {
    e.state == Hold || (e.state == Pressed && IsOrdinary(ScanToPhys(e.scan)) && Held(es, ScanToPhys(e.scan)))
  }

  lemma NothingNewHappens(es: seq<Event>, e: Event)
    requires (forall x <- es :: x.state != Idle) && NothingNew(es, e)
    ensures forall x <- es + [e] :: x.state != Idle
    ensures Run(Start(), es + [e]) == Run(Start(), es)
    ensures forall p :: Held(es + [e], p) <==> Held(es, p)
  {
    hide Run, ScanToPhys;
    RunSnoc(es, e);
    if e.state == Pressed {
      HeldPress(es, e.scan, Pressed);
    }
    assert (es + [e])[..|es|] == es;
  }

  /** Only ordinary keys have their holds reported as presses. */
  lemma RepeatersAreOrdinary(q: nat)
    requires q < KEYS && q != BLANK_KEY && Repeats(ScanOf(q))
    ensures IsOrdinary(PhysOf(q))
  {
    hide ScanOf, PhysOf, Repeats;
    RepeatingKeys(q);
    KeyOfPhysOf(q);
    var p := PhysOf(q);
    if p >= PK_CAPSLOCK {
      LateKeys(p);
    }
  }

  lemma LateKeys(p: nat)
    requires PK_CAPSLOCK <= p
    ensures KeyOf(p) == 10 || KeyOf(p) >= 56
    ensures KeyOf(p) < KEYS ==> KeyOf(p) == 10 || KeyOf(p) < 60
  {
  }

  /** A held key that stays closed reports nothing new. */
  lemma HeldKeyIsQuiet(t: Table, t': Table, q: nat, full: bool, out: seq<Event>, es: seq<Event>)
    requires q < KEYS && q != BLANK_KEY && Present(t, q) && Fate(t, t', q, true, full, out)
    requires forall i :: 0 <= i < |t| && t[i].entry != NO_ENTRY ==> IsDown(t[i].state)
    requires Held(es, PhysOf(q))
    ensures out == [] || (|out| == 1 && NothingNew(es, out[0]) && ScanToPhys(out[0].scan) == PhysOf(q))
  {
    hide ScanOf, ScanToPhys, Held, Repeats, Since;
    var i, now: nat, later: nat :| Continues(t, t', i, q, true, now, later, out);
    assert IsDown(t[i].state);
    if Repeats(ScanOf(q)) {
      RepeatersAreOrdinary(q);
    }
  }

  /** The first n looks of a scan in which key k is newly closed and every other key is as it was: the driver hears of
      that press and of nothing else. */
  lemma {:induction false} OneNewKey(vs: seq<Visit>, t: Table, t': Table, readings: seq<bool>, k: nat,
                                     es: seq<Event>, n: nat)
    requires |vs| == KEYS && Scanned(vs, t, t', readings) && n <= KEYS
    requires k < KEYS && k != BLANK_KEY && readings[k] && !Present(t, k)
    requires |Wanting(t, readings)| <= KEY_LIST_SIZE
    requires forall q: nat :: q < KEYS && q != k ==> (readings[q] <==> Present(t, q))
    requires forall i :: 0 <= i < |t| && t[i].entry != NO_ENTRY ==> IsDown(t[i].state)
    requires (forall x <- es :: x.state != Idle) && SlotsHeld(es, t) && !Present(t, BLANK_KEY)
    ensures var es' := es + AllOut(vs[..n]);
            && (forall x <- es' :: x.state != Idle) && SlotsHeld(es', t)
            && Run(Start(), es') ==
               (if Turn(k) < n then Dispatch(Run(Start(), es), PhysOf(k), Pressed) else Run(Start(), es))
            && (forall p :: Held(es', p) <==> Held(es, p) || (Turn(k) < n && p == PhysOf(k)))
  {
    hide Run, Dispatch, Held, PhysOf, ScanOf, ScanToPhys, Fate, Scanned, Order, Turn, Wanting;
    if n == 0 {
      assert es + AllOut(vs[..0]) == es;
    } else {
      OneNewKey(vs, t, t', readings, k, es, n - 1);
      var before := es + AllOut(vs[..n - 1]);
      TurnOnce(n - 1);
      TurnOf(k);
      var q, out := Order(n - 1), vs[n - 1].out;
      assert vs[..n][..n - 1] == vs[..n - 1];
      assert es + AllOut(vs[..n]) == before + out;
      OneLook(vs, t, t', readings, k, q, before);
      LookHeard(before, out, k, q, t);
    }
  }

  /** One of those looks. */
  lemma OneLook(vs: seq<Visit>, t: Table, t': Table, readings: seq<bool>, k: nat, q: nat, es: seq<Event>)
    requires |vs| == KEYS && Scanned(vs, t, t', readings) && q < KEYS
    requires k < KEYS && k != BLANK_KEY && readings[k] && !Present(t, k)
    requires |Wanting(t, readings)| <= KEY_LIST_SIZE
    requires forall q: nat :: q < KEYS && q != k ==> (readings[q] <==> Present(t, q))
    requires forall i :: 0 <= i < |t| && t[i].entry != NO_ENTRY ==> IsDown(t[i].state)
    requires SlotsHeld(es, t) && !Present(t, BLANK_KEY)
    ensures var out := vs[Turn(q)].out;
            if q == k then out == Scanning.Report(k, Pressed)
            else out == [] || (|out| == 1 && NothingNew(es, out[0]))
  {
    hide Held, PhysOf, ScanOf, ScanToPhys, Scanned, Turn, Wanting, NothingNew, Scanning.Report, NextState, Reports;
    KeyFate(vs, t, t', readings, q);
    if q == k {
      TenKeys(vs, t, t', readings, k);
    } else if Present(t, q) {
      HeldKeyIsQuiet(t, t', q, !Present(vs[Turn(q)].before, NO_ENTRY), vs[Turn(q)].out, es);
    }
  }

  lemma LookHeard(es: seq<Event>, out: seq<Event>, k: nat, q: nat, t: Table)
    requires (forall x <- es :: x.state != Idle) && SlotsHeld(es, t) && k < KEYS && k != BLANK_KEY
    requires if q == k then out == Scanning.Report(k, Pressed) else out == [] || (|out| == 1 && NothingNew(es, out[0]))
    ensures forall x <- es + out :: x.state != Idle
    ensures SlotsHeld(es + out, t)
    ensures Run(Start(), es + out) ==
            if q == k then Dispatch(Run(Start(), es), PhysOf(k), Pressed) else Run(Start(), es)
    ensures forall p :: Held(es + out, p) <==> Held(es, p) || (q == k && p == PhysOf(k))
  {
    hide Run, Dispatch, ScanOf, ScanToPhys, NothingNew;
    if q == k {
      Firmware.ScanOfBlank(k);
      var e := Event(ScanOf(k), Pressed);
      assert out == [e];
      RunSnoc(es, e);
      assert (es + [e])[..|es|] == es;
    } else if out == [] {
      assert es + out == es;
    } else {
      assert out == [out[0]];
      NothingNewHappens(es, out[0]);
    }
  }

  /** One more switch is closed while up to nine keys are held: after one scan and one poll the driver is exactly where
      that press alone takes it. */
  method PressOne(s: System, k: nat, readings: seq<bool>)
    requires s.Inv() && !s.kb.lost && s.batch == [] && s.fifo.Contents() == []
    requires k < KEYS && k != BLANK_KEY && |readings| == KEYS && readings[k] && !Present(s.kb.list[..], k)
    requires |Wanting(s.kb.list[..], readings)| <= KEY_LIST_SIZE && !Present(s.kb.list[..], BLANK_KEY)
    requires forall q: nat :: q < KEYS && q != k ==> (readings[q] <==> Present(s.kb.list[..], q))
    requires forall i :: 0 <= i < s.kb.list.Length && s.kb.list[i].entry != NO_ENTRY ==> IsDown(s.kb.list[i].state)
    modifies s, s.kb, s.kb.list, s.kb.mods, s.fifo, s.fifo.items, s.drv, s.drv.keyState, s.drv.mover
    ensures s.Inv() && !s.kb.lost && s.batch == [] && s.fifo.Contents() == []
    ensures s.drv.State() == Dispatch(old(s.drv.State()), PhysOf(k), Pressed)
    ensures forall q: nat :: q < KEYS ==> (Present(s.kb.list[..], q) <==> old(Present(s.kb.list[..], q)) || q == k)
    ensures forall i :: 0 <= i < s.kb.list.Length && s.kb.list[i].entry != NO_ENTRY ==> IsDown(s.kb.list[i].state)
    ensures forall p :: Held(s.seen, p) <==> old(Held(s.seen, p)) || p == PhysOf(k)
  {
    hide Run, Dispatch, Held, PhysOf, Scanned, AllOut, Turn, Wanting, Fate, Agrees, WellFormed,
      Firmware.ModsAgree, Since;
    ghost var t, es := s.kb.list[..], s.kb.emitted;
    assert es == s.seen;
    AllInUseAreHeld(es, t);
    var now := (s.kb.lastProcess + KEY_POLL_TIME + 1) % CLOCK;
    SoonEnough(s.kb.lastProcess);
    var scanned;
    ghost var vs;
    scanned, vs := s.ScanOnce(now, readings);
    ghost var t' := s.kb.list[..];
    assert vs[..KEYS] == vs;
    TurnOf(k);
    TenKeys(vs, t, t', readings, k);
    FewReports(vs, t, t', readings);
    OneNewKey(vs, t, t', readings, k, es, KEYS);
    ghost var full := seq(KEYS, q requires 0 <= q < KEYS => !Present(vs[Turn(q)].before, NO_ENTRY));
    ghost var outs := seq(KEYS, q requires 0 <= q < KEYS => vs[Turn(q)].out);
    StillDown(t, t', readings, full, outs);
    SlotsKept(t, t', readings, full, outs);
    s.Poll();
    assert s.seen == s.kb.emitted;
    assert s.kb.list[..] == t';
  }

  lemma SlotsKept(t: Table, t': Table, readings: seq<bool>, full: seq<bool>, outs: seq<seq<Event>>)
    requires |readings| == KEYS == |full| == |outs|
    requires forall k: nat :: k < KEYS ==> Fate(t, t', k, readings[k], full[k], outs[k])
    requires forall i :: 0 <= i < |t| && t[i].entry != NO_ENTRY ==> IsDown(t[i].state)
    ensures forall k: nat :: k < KEYS && Present(t, k) ==> Present(t', k)
  {
    hide Since, Scanning.Report, Reports, NextState;
    forall k: nat | k < KEYS && Present(t, k) ensures Present(t', k) {
      var i, now: nat, later: nat :| Continues(t, t', i, k, readings[k], now, later, outs[k]);
      assert IsDown(t[i].state);
    }
  }

  function Closed(ks: set<nat>): seq<bool> { seq(KEYS, k requires 0 <= k < KEYS => k in ks) }

  const RSHIFT_KEY := 59

  /** Nothing pressed, nothing on its way. */
  ghost predicate AtRest(s: System)
    reads s, s.kb, s.kb.list, s.kb.mods, s.fifo, s.fifo.items, s.drv, s.drv.keyState, s.drv.mover
  {
    && s.Inv() && !s.kb.lost && s.batch == [] && s.fifo.Contents() == []
    && forall i :: 0 <= i < s.kb.list.Length ==> s.kb.list[i].entry == NO_ENTRY
  }

  lemma Rested(s: System)
    requires AtRest(s)
    ensures s.drv.State() == Run(Start(), s.seen) && (forall x <- s.seen :: x.state != Idle)
    ensures s.drv.State().down == {}
    ensures forall p :: 0 < p < PK_POWER ==> !Held(s.seen, p)
    ensures forall q: nat :: q < KEYS ==> !Present(s.kb.list[..], q)
  {
    hide Run, Held, WellFormed, Firmware.ModsAgree, Agrees;
    assert s.kb.emitted == s.seen;
    assert forall i :: 0 <= i < s.kb.list.Length ==> s.kb.list[..][i] == s.kb.list[i];
    AllFree(s.kb.list[..], s.seen);
  }

  lemma AllFree(t: Table, es: seq<Event>)
    requires Agrees(es, t) && WellFormed(t) && forall i :: 0 <= i < |t| ==> t[i].entry == NO_ENTRY
    ensures forall x <- es :: x.state != Idle
    ensures Run(Start(), es).down == {} && forall p :: 0 < p < PK_POWER ==> !Held(es, p)
    ensures forall q: nat :: q < KEYS ==> !Present(t, q)
  {
    hide Run, Held, PhysOf, PhaseOf;
    NoneHeld(es, t);
    AllUp(es);
  }

  lemma NotBlank(k: nat)
    requires k < KEYS && IsOrdinary(PhysOf(k))
    ensures k != BLANK_KEY && k != RSHIFT_KEY && PhysOf(RSHIFT_KEY) == PK_RSHIFT
    ensures ScanToPhys(ScanOf(k)) == PhysOf(k)
  {
    ModifierButtons();
  }

  lemma OneKeyWanted(t: Table, k: nat)
    requires k < KEYS && forall q: nat :: q < KEYS ==> !Present(t, q)
    ensures Wanting(t, Closed({k})) == {k}
  {
    hide Present;
  }

  lemma TwoKeysWanted(t: Table, k: nat)
    requires k < KEYS && forall q: nat :: q < KEYS ==> (Present(t, q) <==> q == RSHIFT_KEY)
    ensures |Wanting(t, Closed({RSHIFT_KEY, k}))| <= 2
  {
    hide Present;
    SubsetSize(Wanting(t, Closed({RSHIFT_KEY, k})), {RSHIFT_KEY, k});
    assert {RSHIFT_KEY, k} - {RSHIFT_KEY} <= {k};
  }

  /** R-shift alone is not reported to Linux. */
  lemma ShiftPressed(c: Ctx)
    requires |c.keys| == PK_MAX
    ensures var c' := Dispatch(c, PK_RSHIFT, Pressed); c'.down == c.down && c'.mouseMode == c.mouseMode
  {
  }

  /** From rest an ordinary key is pressed: Linux has down the key's keycode and nothing else, or in mouse mode a button
      or nothing if it is an arrow or bracket. */
  method Stroke(s: System, k: nat)
    requires AtRest(s) && k < KEYS && IsOrdinary(PhysOf(k))
    modifies s, s.kb, s.kb.list, s.kb.mods, s.fifo, s.fifo.items, s.drv, s.drv.keyState, s.drv.mover
    ensures s.Inv() && !s.kb.lost && s.batch == [] && s.fifo.Contents() == []
    ensures var p := PhysOf(k);
            s.drv.State().down ==
            if old(s.drv.State()).mouseMode && IsPointerKey(p) then
              if p == PK_LBRACKET then {BTN_LEFT} else if p == PK_RBRACKET then {BTN_RIGHT} else {}
            else {BaseKeycode(p)}
  {
    hide Run, Held, PhysOf, ScanOf, ScanToPhys, BaseKeycode, FnKeycode, HasFn, IsPointerKey, IsAction, Wanting, Closed,
      Agrees, WellFormed, Firmware.ModsAgree, Dispatch, MouseOn, Present;
    Rested(s);
    NotBlank(k);
    ghost var es, c := s.seen, s.drv.State();
    OneKeyWanted(s.kb.list[..], k);
    ClosedAre({k});
    PlainShows(es, k);
    PressOne(s, k, Closed({k}));
  }

  /** The same with R-shift held: KEY_RIGHTSHIFT as well, unless R-shift gives the key another meaning. */
  method ShiftedStroke(s: System, k: nat)
    requires AtRest(s) && k < KEYS && IsOrdinary(PhysOf(k))
    modifies s, s.kb, s.kb.list, s.kb.mods, s.fifo, s.fifo.items, s.drv, s.drv.keyState, s.drv.mover
    ensures s.Inv() && !s.kb.lost && s.batch == [] && s.fifo.Contents() == []
    ensures var p, mouse := PhysOf(k), old(s.drv.State()).mouseMode;
            s.drv.State().down ==
            if IsAction(p) then {} else if HasFn(p, mouse) then {FnKeycode(p, mouse)}
            else {KEY_RIGHTSHIFT, BaseKeycode(p)}
  {
    hide Run, Held, PhysOf, ScanOf, ScanToPhys, BaseKeycode, FnKeycode, HasFn, IsPointerKey, IsAction, Wanting, Closed,
      Agrees, WellFormed, Firmware.ModsAgree, Dispatch, MouseOn, Present;
    Rested(s);
    NotBlank(k);
    OneKeyWanted(s.kb.list[..], RSHIFT_KEY);
    ClosedAre({RSHIFT_KEY});
    ShiftPressed(s.drv.State());
    PressOne(s, RSHIFT_KEY, Closed({RSHIFT_KEY}));
    TwoKeysWanted(s.kb.list[..], k);
    ClosedAre({RSHIFT_KEY, k});
    ShiftedShows(s.seen, k);
    PressOne(s, k, Closed({RSHIFT_KEY, k}));
  }

  lemma ClosedAre(ks: set<nat>)
    ensures |Closed(ks)| == KEYS && forall k: nat :: k < KEYS ==> (Closed(ks)[k] <==> k in ks)
  {
  }

  lemma PlainShows(es: seq<Event>, k: nat)
    requires (forall x <- es :: x.state != Idle) && k < KEYS && IsOrdinary(PhysOf(k))
    requires Run(Start(), es).down == {} && !Held(es, PhysOf(k)) && !Held(es, PK_RSHIFT)
    ensures var c, p := Run(Start(), es), PhysOf(k);
            Dispatch(c, p, Pressed).down ==
            if c.mouseMode && IsPointerKey(p) then
              if p == PK_LBRACKET then {BTN_LEFT} else if p == PK_RBRACKET then {BTN_RIGHT} else {}
            else {BaseKeycode(p)}
  {
    hide Run, Held, ScanOf, ScanToPhys, BaseKeycode, FnKeycode, HasFn, Dispatch, MouseOn;
    RunRemembers(es);
    FreshPress(es, ScanOf(k));
    RunSnoc(es, Event(ScanOf(k), Pressed));
  }

  lemma ShiftedShows(es: seq<Event>, k: nat)
    requires (forall x <- es :: x.state != Idle) && k < KEYS && IsOrdinary(PhysOf(k))
    requires Run(Start(), es).down == {} && !Held(es, PhysOf(k)) && Held(es, PK_RSHIFT)
    ensures var c, p := Run(Start(), es), PhysOf(k);
            Dispatch(c, p, Pressed).down ==
            if IsAction(p) then {} else if HasFn(p, c.mouseMode) then {FnKeycode(p, c.mouseMode)}
            else {KEY_RIGHTSHIFT, BaseKeycode(p)}
  {
    hide Run, Held, ScanOf, ScanToPhys, BaseKeycode, FnKeycode, HasFn, Dispatch, MouseOn;
    RunRemembers(es);
    FreshPress(es, ScanOf(k));
    RunSnoc(es, Event(ScanOf(k), Pressed));
  }

  /** When every key is let go, three scans and a poll bring rest: no event is lost, since thirty fit into the queue,
      and Linux has nothing down. Then the next stroke can follow. */
  method LetGo(s: System)
    requires s.Inv() && !s.kb.lost && s.batch == [] && s.fifo.Contents() == []
    modifies s, s.kb, s.kb.list, s.kb.mods, s.fifo, s.fifo.items, s.drv, s.drv.keyState, s.drv.mover
    ensures AtRest(s) && s.drv.State().down == {} && s.drv.State().mouseDir == {}
  {
    hide Agrees, WellFormed, Firmware.ModsAgree, Run, Quieter;
    ghost var t := s.kb.list[..];
    s.OpenScan();
    ghost var t1 := s.kb.list[..];
    s.OpenScan();
    ghost var t2 := s.kb.list[..];
    s.OpenScan();
    ghost var t3 := s.kb.list[..];
    s.Poll();
    assert s.kb.list[..] == t3;
    FreeAfterThree(t, t1, t2, t3);
    assert forall i :: 0 <= i < s.kb.list.Length ==> s.kb.list[i] == t3[i];
    s.NothingStuck();
  }

  lemma FreeAfterThree(t: Table, t1: Table, t2: Table, t3: Table)
    requires Quieter(t, t1) && Quieter(t1, t2) && Quieter(t2, t3) && WellFormed(t3)
    requires WellFormed(t) && WellFormed(t1) && WellFormed(t2)
    ensures forall i :: 0 <= i < |t3| ==> t3[i].entry == NO_ENTRY && !IsDown(t3[i].state)
  {
  }
}
