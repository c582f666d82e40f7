/** The Linux keyboard driver's state machine, `key_dispatch`, as a function of its state and
    one event. */
module DriverSpec {
  import opened Keys

  // --- Linux keycodes (linux/input-event-codes.h) ------------------------------------------

  const KEY_LEFTCTRL := 29
  const KEY_LEFTSHIFT := 42
  const KEY_RIGHTSHIFT := 54
  const KEY_LEFTALT := 56
  const KEY_CAPSLOCK := 58
  const BTN_LEFT := 0x110
  const BTN_RIGHT := 0x111

  /** `phys_to_base_keycode` */
  function BaseKeycode(p: nat): nat {
    if p < 14 then (match p
      case 1 => 30 case 2 => 48 case 3 => 46 case 4 => 32 case 5 => 18 case 6 => 33 case 7 => 34
      case 8 => 35 case 9 => 23 case 10 => 36 case 11 => 37 case 12 => 38 case 13 => 50
      case _ => 0)
    else if p < 27 then (match p
      case 14 => 49 case 15 => 24 case 16 => 25 case 17 => 16 case 18 => 19 case 19 => 31 case 20 => 20
      case 21 => 22 case 22 => 47 case 23 => 17 case 24 => 45 case 25 => 21
      case _ => 44)
    else if p < 37 then (if p == PK_0 then 11 else p - PK_0 + 1)   // digits
    else if p < 45 then (match p
      case 37 => 57 case 38 => 28 case 39 => 15 case 40 => 1 case 41 => 14 case 42 => 52 case 43 => 51
      case _ => 39)
    else if p < 53 then (match p
      case 45 => 40 case 46 => 12 case 47 => 13 case 48 => 53 case 49 => 43 case 50 => 26 case 51 => 27
      case _ => 41)
    else if p < 63 then p - PK_F1 + 59                              // F1 to F10
    else (match p
      case 63 => 103 case 64 => 108 case 65 => 105 case 66 => 106 case 67 => 102 case 68 => 107
      case 69 => 110 case 70 => 111 case 71 => 104 case 72 => 109 case 73 => 119 case 74 => KEY_CAPSLOCK
      case _ => 0)
  }

  /** `fn_key_table` */
  function FnTable(p: nat): nat {
    if PK_F1 <= p < PK_F1 + 5 then p - PK_F1 + 64   // F1..F5 become F6..F10
    else match p
      case 40 => 119   // Esc: Pause
      case 39 => 102   // Tab: Home
      case 70 => 107   // Delete: End
      case 41 => 87    // Backspace: F11
      case 63 => 104   // Up: Page Up
      case 64 => 109   // Down: Page Down
      case 65 => 102   // Left: Home
      case 66 => 107   // Right: End
      case 9 => 110    // I: Insert
      case _ => 0
  }

  /** `mouse_fn_key_table` */
  function MouseFnTable(p: nat): nat {
    match p
    case 63 => 103   // arrows and brackets are themselves again
    case 64 => 108
    case 65 => 105
    case 66 => 106
    case 50 => 26
    case 51 => 27
    case 52 => 104   // Grave: Page Up
    case 48 => 109   // Slash: Page Down
    case _ => 0
  }

  /** `lookup_fn_keycode` */
  function FnKeycode(p: nat, mouseMode: bool): nat {
    if mouseMode && MouseFnTable(p) != 0 then MouseFnTable(p) else FnTable(p)
  }

  /** `lookup_fn_action` finds an action. */
  predicate IsFnAction(p: nat) { p == PK_COMMA || p == PK_DOT || p == PK_SPACE }

  predicate IsArrow(p: nat) { PK_UP <= p <= PK_RIGHT }

  predicate IsMouseKey(p: nat) { IsArrow(p) || p == PK_LBRACKET || p == PK_RBRACKET }

  predicate IsModifier(p: nat) { PK_LSHIFT <= p <= PK_LCTRL }

  /** Keys whose events lock and release a record of their own. */
  predicate IsOrdinary(p: nat) { 0 < p < PK_CAPSLOCK }

  // --- State ---------------------------------------------------------------------------------

  datatype EmitMode = None | Normal | Shifted | Fn | Mouse

  /** What a key was reported as when it went down. */
  datatype Rec = Rec(mode: EmitMode, keycode: nat)

  const FREE := Rec(None, 0)

  datatype Ctx = Ctx(
    shl: bool, shr: bool, alt: bool, ctrl: bool,   // modifiers physically held
    caps: bool,
    rshiftReported: bool,
    keys: seq<Rec>,                                // key_state[PK_MAX]
    mouseMode: bool,
    mouseDir: set<nat>,                            // the arrows whose bit is set in mouse_dir
    tickPending: bool,                             // mouse_dw is scheduled
    down: set<nat>                                 // keycodes and buttons Linux has down
  )

  ghost predicate Shape(c: Ctx) { |c.keys| == PK_MAX }

  function Start(): Ctx {
    Ctx(false, false, false, false, false, false, seq(PK_MAX, _ => FREE), false, {}, false, {})
  }

  /** `input_report_key`, as the input core remembers it. */
  function Report(down: set<nat>, keycode: nat, value: bool): set<nat> {
    if value then down + {keycode} else down - {keycode}
  }

  // --- One event -------------------------------------------------------------------------------

  /** What a fresh press of p is locked to, given Fn and mouse mode at that moment. */
  function Lock(p: nat, shr: bool, mouseMode: bool): Rec {
    if mouseMode && !shr && IsMouseKey(p) then
      Rec(Mouse, if p == PK_LBRACKET then BTN_LEFT else if p == PK_RBRACKET then BTN_RIGHT else 0)
    else if shr && IsFnAction(p) then Rec(Fn, 0)
    else if shr && FnKeycode(p, mouseMode) != 0 then Rec(Fn, FnKeycode(p, mouseMode))
    else if BaseKeycode(p) == 0 then FREE
    else Rec(if shr then Shifted else Normal, BaseKeycode(p))
  }

  function Press(c: Ctx, p: nat): (c': Ctx)
    requires p < |c.keys|
    ensures |c'.keys| == |c.keys|
  {
    if c.keys[p].mode != None then c else PressAs(c, p, Lock(p, c.shr, c.mouseMode))
  }

  function PressAs(c: Ctx, p: nat, r: Rec): (c': Ctx)
    requires p < |c.keys|
    ensures |c'.keys| == |c.keys|
  {
    var supplement := r.mode == Shifted && !c.rshiftReported;
    var moves := r.mode == Mouse && IsArrow(p);
    c.(keys := c.keys[p := r],
       rshiftReported := c.rshiftReported || supplement,
       down := c.down + (if supplement then {KEY_RIGHTSHIFT} else {}) + (if r.keycode != 0 then {r.keycode} else {}),
       mouseDir := if moves then c.mouseDir + {p} else c.mouseDir,
       tickPending := c.tickPending || (moves && c.mouseDir == {}))
  }

  function Release(c: Ctx, p: nat): (c': Ctx)
    requires p < |c.keys|
    ensures |c'.keys| == |c.keys|
  {
    var r := c.keys[p];
    var dir := if r.mode == Mouse && IsArrow(p) then c.mouseDir - {p} else c.mouseDir;
    c.(keys := c.keys[p := FREE],
       down := (match r.mode
                case None => c.down
                case Mouse => if p == PK_LBRACKET then c.down - {BTN_LEFT}
                              else if p == PK_RBRACKET then c.down - {BTN_RIGHT} else c.down
                case _ => c.down - {r.keycode}),
       mouseDir := dir,
       tickPending := c.tickPending && !(r.mode == Mouse && IsArrow(p) && dir == {}))
  }

  /** Modifiers are reported as they come, R-shift only when a shifted key needs it. */
  function Modify(c: Ctx, p: nat, down: bool): (c': Ctx)
    ensures c'.keys == c.keys
  {
    c.(shl := if p == PK_LSHIFT then down else c.shl,
       shr := if p == PK_RSHIFT then down else c.shr,
       alt := if p == PK_LALT then down else c.alt,
       ctrl := if p == PK_LCTRL then down else c.ctrl,
       rshiftReported := c.rshiftReported && (p == PK_RSHIFT ==> down),
       down := if p != PK_RSHIFT then Report(c.down, ModifierKeycode(p), down)
               else if c.rshiftReported && !down then c.down - {KEY_RIGHTSHIFT} else c.down)
  }

  function ModifierKeycode(p: nat): nat {
    if p == PK_LSHIFT then KEY_LEFTSHIFT else if p == PK_LALT then KEY_LEFTALT else KEY_LEFTCTRL
  }

  /** Caps Lock, or with R-shift the switch of mouse mode. */
  function Caps(c: Ctx, down: bool): (c': Ctx)
    ensures c'.keys == c.keys
  {
    if down && c.shr then
      c.(mouseMode := !c.mouseMode, mouseDir := {}, tickPending := false, rshiftReported := false,
         down := if c.rshiftReported then c.down - {KEY_RIGHTSHIFT} else c.down)
    else
      c.(caps := if down then !c.caps else c.caps, down := Report(c.down, KEY_CAPSLOCK, down))
  }

  function Dispatch(c: Ctx, p: nat, state: KeyState): (c': Ctx)
    requires |c.keys| == PK_MAX && state != Idle
    ensures |c'.keys| == PK_MAX
  {
    if p == PK_NONE || p >= PK_POWER || state == Hold then c
    else if IsModifier(p) then Modify(c, p, state == Pressed)
    else if p == PK_CAPSLOCK then Caps(c, state == Pressed)
    else if state == Pressed then Press(c, p)
    else Release(c, p)
  }

  /** The driver after a sequence of events. */
  function Run(c: Ctx, es: seq<Event>): (c': Ctx)
    requires |c.keys| == PK_MAX
    requires forall e <- es :: e.state != Idle
    ensures |c'.keys| == PK_MAX
  {
    if es == [] then c
    else Dispatch(Run(c, es[..|es| - 1]), ScanToPhys(es[|es| - 1].scan), es[|es| - 1].state)
  }

  /** Whether the last press or release of p among these events was a press. */
  predicate Held(es: seq<Event>, p: nat) {
    es != [] &&
    var e := es[|es| - 1];
    if ScanToPhys(e.scan) == p && (e.state == Pressed || e.state == Released) then e.state == Pressed
    else Held(es[..|es| - 1], p)
  }

  // --- No key is stuck -----------------------------------------------------------------------

  /** Keycode kc is down because key p was locked to it. */
  ghost predicate Names(c: Ctx, p: nat, kc: nat) {
    p < |c.keys| && IsOrdinary(p) && c.keys[p].mode != None && c.keys[p].keycode == kc
  }

  predicate IsSpecial(kc: nat) {
    kc == KEY_LEFTSHIFT || kc == KEY_RIGHTSHIFT || kc == KEY_LEFTALT || kc == KEY_LEFTCTRL || kc == KEY_CAPSLOCK
  }

  /** Records are what `Lock` can produce for their key. */
  predicate Locked(p: nat, r: Rec) {
    match r.mode
    case None => r.keycode == 0
    case Mouse => IsMouseKey(p)
                  && r.keycode == (if p == PK_LBRACKET then BTN_LEFT else if p == PK_RBRACKET then BTN_RIGHT else 0)
    case _ => !IsSpecial(r.keycode)
  }

  ghost predicate Records(c: Ctx) {
    && |c.keys| == PK_MAX
    && (forall p :: 0 <= p < PK_MAX ==> Locked(p, c.keys[p]))
    && (forall p :: 0 <= p < PK_MAX && !IsOrdinary(p) ==> c.keys[p] == FREE)
  }

  /** Whatever Linux has down, a locked key accounts for it. */
  ghost predicate Accounted(c: Ctx) {
    && 0 !in c.down
    && forall kc :: kc in c.down && !IsSpecial(kc) ==> exists p :: Names(c, p, kc)
  }

  ghost predicate ShiftsAgree(c: Ctx) {
    && (KEY_LEFTSHIFT in c.down <==> c.shl)
    && (KEY_LEFTALT in c.down <==> c.alt)
    && (KEY_LEFTCTRL in c.down <==> c.ctrl)
    && (KEY_RIGHTSHIFT in c.down <==> c.rshiftReported)
    && (c.rshiftReported ==> c.shr)
  }

  ghost predicate MouseAgrees(c: Ctx) {
    && |c.keys| == PK_MAX
    && (forall d :: d in c.mouseDir ==> IsArrow(d) && c.keys[d].mode == Mouse)
    && (c.tickPending <==> c.mouseDir != {})
  }

  ghost predicate Inv(c: Ctx) {
    Records(c) && Accounted(c) && ShiftsAgree(c) && MouseAgrees(c)
  }

  /** The tables never yield a modifier, so shifts are only ever reported as shifts. */
  lemma TablesAreOrdinary(p: nat, shr: bool, mouseMode: bool)
    requires IsOrdinary(p)
    ensures BaseKeycode(p) != 0 && !IsSpecial(BaseKeycode(p))
    ensures !IsSpecial(FnKeycode(p, mouseMode))
  {
  }

  lemma LockIsLocked(p: nat, shr: bool, mouseMode: bool)
    requires IsOrdinary(p)
    ensures Locked(p, Lock(p, shr, mouseMode)) && Lock(p, shr, mouseMode).mode != None
    ensures Lock(p, shr, mouseMode).mode == Shifted ==> shr
  {
    hide BaseKeycode, FnKeycode;
    TablesAreOrdinary(p, shr, mouseMode);
  }

  lemma PressKeeps(c: Ctx, p: nat)
    requires Inv(c) && IsOrdinary(p)
    ensures Inv(Press(c, p))
  {
    hide Lock;
    LockIsLocked(p, c.shr, c.mouseMode);
    if c.keys[p].mode == None {
      PressAsKeeps(c, p, Lock(p, c.shr, c.mouseMode));
    }
  }

  lemma PressAsKeeps(c: Ctx, p: nat, r: Rec)
    requires Inv(c) && IsOrdinary(p) && c.keys[p].mode == None
    requires Locked(p, r) && r.mode != None && (r.mode == Shifted ==> c.shr)
    ensures Inv(PressAs(c, p, r))
  {
    var c' := PressAs(c, p, r);
    assert Accounted(c') by {
      forall kc | kc in c'.down && !IsSpecial(kc) ensures exists q :: Names(c', q, kc) {
        if kc == r.keycode {
          assert Names(c', p, kc);
        } else {
          var q :| Names(c, q, kc);
          assert Names(c', q, kc);
        }
      }
    }
    assert MouseAgrees(c') by {
      assert p !in c.mouseDir;
    }
  }

  lemma ReleaseKeeps(c: Ctx, p: nat)
    requires Inv(c) && IsOrdinary(p)
    ensures Inv(Release(c, p))
  {
    var c' := Release(c, p);
    assert Accounted(c') by {
      forall kc | kc in c'.down && !IsSpecial(kc) ensures exists q :: Names(c', q, kc) {
        var q :| Names(c, q, kc);
        assert Names(c', q, kc);
      }
    }
  }

  /** Changing only modifier keycodes leaves the ordinary ones accounted for. */
  lemma SpecialsApart(c: Ctx, c': Ctx)
    requires Accounted(c) && c'.keys == c.keys
    requires forall kc :: kc in c'.down ==> kc in c.down || IsSpecial(kc)
    ensures Accounted(c')
  {
    forall kc | kc in c'.down && !IsSpecial(kc) ensures exists q :: Names(c', q, kc) {
      var q :| Names(c, q, kc);
      assert Names(c', q, kc);
    }
  }

  lemma ModifyKeeps(c: Ctx, p: nat, down: bool)
    requires Inv(c) && IsModifier(p)
    ensures Inv(Modify(c, p, down))
  {
    hide Accounted;
    SpecialsApart(c, Modify(c, p, down));
  }

  lemma CapsKeeps(c: Ctx, down: bool)
    requires Inv(c)
    ensures Inv(Caps(c, down))
  {
    hide Accounted;
    SpecialsApart(c, Caps(c, down));
  }

  /** Every event keeps the invariant. */
  lemma DispatchKeeps(c: Ctx, p: nat, state: KeyState)
    requires Inv(c) && state != Idle
    ensures Inv(Dispatch(c, p, state))
  {
    hide Accounted, Records, ShiftsAgree, MouseAgrees;
    if p == PK_NONE || p >= PK_POWER || state == Hold {
    } else if IsModifier(p) {
      ModifyKeeps(c, p, state == Pressed);
    } else if p == PK_CAPSLOCK {
      CapsKeeps(c, state == Pressed);
    } else if state == Pressed {
      PressKeeps(c, p);
    } else {
      ReleaseKeeps(c, p);
    }
  }

  lemma {:induction false} RunFromKeeps(c: Ctx, es: seq<Event>)
    requires |c.keys| == PK_MAX && Inv(c) && forall e <- es :: e.state != Idle
    ensures Inv(Run(c, es))
  {
    hide Inv, Dispatch;
    if es != [] {
      RunFromKeeps(c, es[..|es| - 1]);
      DispatchKeeps(Run(c, es[..|es| - 1]), ScanToPhys(es[|es| - 1].scan), es[|es| - 1].state);
    }
  }

  /** Every reachable driver state satisfies the invariant. */
  lemma RunKeeps(es: seq<Event>)
    requires forall e <- es :: e.state != Idle
    ensures Inv(Run(Start(), es))
  {
    StartInv();
    RunFromKeeps(Start(), es);
  }

  lemma StartInv()
    ensures Inv(Start())
  {
  }

  // --- State and history ------------------------------------------------------------------------

  /** What the driver believes held is held, going by the events alone. */
  ghost predicate Believes(c: Ctx, es: seq<Event>) {
    && |c.keys| == PK_MAX
    && (forall p: nat :: IsOrdinary(p) && c.keys[p].mode != None ==> Held(es, p))
    && (c.shl <==> Held(es, PK_LSHIFT)) && (c.shr <==> Held(es, PK_RSHIFT))
    && (c.alt <==> Held(es, PK_LALT)) && (c.ctrl <==> Held(es, PK_LCTRL))
    && (KEY_CAPSLOCK in c.down ==> Held(es, PK_CAPSLOCK))
  }

  lemma HeldNext(es: seq<Event>, p: nat)
    requires es != [] && es[|es| - 1].state != Idle
    ensures var e := es[|es| - 1];
            Held(es, p) == if ScanToPhys(e.scan) == p && e.state != Hold then e.state == Pressed
                           else Held(es[..|es| - 1], p)
  {
  }

  /** Events of ordinary keys and of Caps Lock leave the modifiers alone. */
  ghost predicate SameModifiers(c: Ctx, c': Ctx) {
    c'.shl == c.shl && c'.shr == c.shr && c'.alt == c.alt && c'.ctrl == c.ctrl
  }

  lemma PressEffects(c: Ctx, p: nat)
    requires |c.keys| == PK_MAX && IsOrdinary(p)
    ensures var c' := Press(c, p);
            && (forall q :: 0 <= q < PK_MAX && q != p ==> c'.keys[q] == c.keys[q])
            && SameModifiers(c, c')
            && (KEY_CAPSLOCK in c'.down ==> KEY_CAPSLOCK in c.down)
  {
    hide Lock;
    LockIsLocked(p, c.shr, c.mouseMode);
  }

  lemma ReleaseEffects(c: Ctx, p: nat)
    requires |c.keys| == PK_MAX && IsOrdinary(p)
    ensures var c' := Release(c, p);
            && c'.keys[p] == FREE
            && (forall q :: 0 <= q < PK_MAX && q != p ==> c'.keys[q] == c.keys[q])
            && SameModifiers(c, c')
            && c'.down <= c.down
  {
  }

  lemma CapsEffects(c: Ctx, down: bool)
    ensures var c' := Caps(c, down);
            && c'.keys == c.keys && SameModifiers(c, c')
            && (!down ==> KEY_CAPSLOCK !in c'.down)
  {
  }

  lemma ModifyEffects(c: Ctx, p: nat, down: bool)
    requires IsModifier(p)
    ensures var c' := Modify(c, p, down);
            && c'.keys == c.keys
            && c'.shl == (if p == PK_LSHIFT then down else c.shl)
            && c'.shr == (if p == PK_RSHIFT then down else c.shr)
            && c'.alt == (if p == PK_LALT then down else c.alt)
            && c'.ctrl == (if p == PK_LCTRL then down else c.ctrl)
            && (KEY_CAPSLOCK in c'.down ==> KEY_CAPSLOCK in c.down)
  {
  }

  /** Only the key itself changes its record, only modifiers change the shift flags, and Linux
      has Caps Lock down at most between its press and its release. */
  lemma Effects(c: Ctx, p: nat, state: KeyState)
    requires |c.keys| == PK_MAX && state != Idle
    ensures var c' := Dispatch(c, p, state);
            && (forall q :: 0 <= q < PK_MAX && q != p ==> c'.keys[q] == c.keys[q])
            && (IsOrdinary(p) && state == Released ==> c'.keys[p] == FREE)
            && (state == Hold ==> c' == c)
            && c'.shl == (if p == PK_LSHIFT && state != Hold then state == Pressed else c.shl)
            && c'.shr == (if p == PK_RSHIFT && state != Hold then state == Pressed else c.shr)
            && c'.alt == (if p == PK_LALT && state != Hold then state == Pressed else c.alt)
            && c'.ctrl == (if p == PK_LCTRL && state != Hold then state == Pressed else c.ctrl)
            && (KEY_CAPSLOCK in c'.down ==> KEY_CAPSLOCK in c.down || (p == PK_CAPSLOCK && state == Pressed))
            && (p == PK_CAPSLOCK && state == Released ==> KEY_CAPSLOCK !in c'.down)
  {
    hide Press, Release, Caps, Modify;
    if p == PK_NONE || p >= PK_POWER || state == Hold {
    } else if IsModifier(p) {
      ModifyEffects(c, p, state == Pressed);
    } else if p == PK_CAPSLOCK {
      CapsEffects(c, state == Pressed);
    } else if state == Pressed {
      PressEffects(c, p);
    } else {
      ReleaseEffects(c, p);
    }
  }

  lemma {:induction false} RunBelieves(es: seq<Event>)
    requires forall e <- es :: e.state != Idle
    ensures Believes(Run(Start(), es), es)
  {
    hide Dispatch, ScanToPhys, Held, Inv;
    if es == [] {
      NothingHeld();
    } else {
      var es' := es[..|es| - 1];
      var e := es[|es| - 1];
      var c, p := Run(Start(), es'), ScanToPhys(e.scan);
      RunBelieves(es');
      RunKeeps(es');
      Effects(c, p, e.state);
      HeldNext(es, PK_LSHIFT);
      HeldNext(es, PK_RSHIFT);
      HeldNext(es, PK_LALT);
      HeldNext(es, PK_LCTRL);
      HeldNext(es, PK_CAPSLOCK);
      forall q | IsOrdinary(q)
        ensures Held(es, q) == if p == q && e.state != Hold then e.state == Pressed else Held(es', q)
      {
        HeldNext(es, q);
      }
    }
  }

  lemma NothingHeld()
    ensures Believes(Start(), [])
  {
  }

  /** No stuck key: whatever non-modifier keycode or button Linux has down after any trace of
      presses, holds and releases, some key that is held was locked to it. */
  lemma NoStuckKey(es: seq<Event>, kc: nat)
    requires forall e <- es :: e.state != Idle
    requires kc in Run(Start(), es).down && !IsSpecial(kc)
    ensures exists p :: Names(Run(Start(), es), p, kc) && Held(es, p)
  {
    hide Run, Held;
    var c := Run(Start(), es);
    RunKeeps(es);
    RunBelieves(es);
    var p :| Names(c, p, kc);
    assert Names(c, p, kc) && Held(es, p);
  }

  /** Once the events say that every key is up, nothing is down: no key, no button, no shift,
      no mouse motion, no record. */
  lemma AllUp(es: seq<Event>)
    requires forall e <- es :: e.state != Idle
    requires forall p :: 0 < p < PK_POWER ==> !Held(es, p)
    ensures var c := Run(Start(), es);
            && c.down == {} && c.mouseDir == {} && !c.tickPending && !c.rshiftReported
            && forall p :: 0 <= p < PK_MAX ==> c.keys[p] == FREE
  {
    hide Run, Held;
    var c := Run(Start(), es);
    RunKeeps(es);
    RunBelieves(es);
    forall p | 0 <= p < PK_MAX ensures c.keys[p] == FREE {
      assert Locked(p, c.keys[p]);
    }
    assert forall p, kc :: !Names(c, p, kc);
    assert forall kc :: kc !in c.down;
    assert forall d :: d !in c.mouseDir;
  }

  predicate Concerns(es: seq<Event>, p: nat) { exists e <- es :: ScanToPhys(e.scan) == p }

  /** Between its own events a key keeps its record, whatever shifts, Caps and mouse mode do. */
  lemma {:induction false} RecordStays(c: Ctx, es: seq<Event>, p: nat)
    requires |c.keys| == PK_MAX && p < PK_MAX && forall e <- es :: e.state != Idle
    requires !Concerns(es, p)
    ensures Run(c, es).keys[p] == c.keys[p]
  {
    hide Dispatch, ScanToPhys;
    if es != [] {
      var es', e := es[..|es| - 1], es[|es| - 1];
      assert e in es;
      RecordStays(c, es', p);
      Effects(Run(c, es'), ScanToPhys(e.scan), e.state);
    }
  }

  /** A release takes back exactly what its press reported, whatever happened in between. */
  lemma ReleaseUndoesPress(before: seq<Event>, p: nat, between: seq<Event>)
    requires IsOrdinary(p) && !Concerns(between, p)
    requires forall e <- before + between :: e.state != Idle
    requires Run(Start(), before).keys[p].mode == None
    ensures var c := Run(Start(), before);
            var pressed := Press(c, p);
            (forall e <- between :: e.state != Idle) &&
            var later := Run(pressed, between);
            var up := Release(later, p);
            && up.keys[p] == FREE
            && up.down == later.down - {Lock(p, c.shr, c.mouseMode).keycode}
            && up.mouseDir == later.mouseDir - (if pressed.keys[p].mode == Mouse then {p} else {})
  {
    hide Run, Lock;
    assert forall e <- before :: e in before + between;
    assert forall e <- between :: e in before + between;
    var c := Run(Start(), before);
    RunKeeps(before);
    var pressed := Press(c, p);
    LockIsLocked(p, c.shr, c.mouseMode);
    PressKeeps(c, p);
    RecordStays(pressed, between, p);
    RunFromKeeps(pressed, between);
  }
}
