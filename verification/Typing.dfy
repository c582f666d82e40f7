/** What the Linux driver makes of a key, over whole traces of events and in terms of the events alone: which keycodes
    go down when a key is pressed, with and without R-shift, in and out of mouse mode. */
module Typing {
  import opened Keys
  import opened DriverSpec

  // --- Modes ----------------------------------------------------------------------------------

  predicate IsPress(e: Event, p: nat) { ScanToPhys(e.scan) == p && e.state == Pressed }

  /** Mouse mode is switched by every Caps Lock pressed while R-shift is held. */
  predicate MouseOn(es: seq<Event>) {
    es != [] &&
    var before := es[..|es| - 1];
    MouseOn(before) != (IsPress(es[|es| - 1], PK_CAPSLOCK) && Held(before, PK_RSHIFT))
  }

  /** Caps Lock itself by every other one. */
  predicate CapsOn(es: seq<Event>) {
    es != [] &&
    var before := es[..|es| - 1];
    CapsOn(before) != (IsPress(es[|es| - 1], PK_CAPSLOCK) && !Held(before, PK_RSHIFT))
  }

  /** What the driver knows of the past is what the events say. */
  ghost predicate Remembers(c: Ctx, es: seq<Event>) {
    && |c.keys| == PK_MAX
    && c.mouseMode == MouseOn(es) && c.caps == CapsOn(es) && c.shr == Held(es, PK_RSHIFT)
    && forall p: nat :: IsOrdinary(p) ==> (c.keys[p].mode != None <==> Held(es, p))
  }

  lemma {:induction false} RunRemembers(es: seq<Event>)
    requires forall e <- es :: e.state != Idle
    ensures Remembers(Run(Start(), es), es)
  {
    hide Dispatch, ScanToPhys, Held, Inv;
    RunBelieves(es);
    if es == [] {
      StartRemembers();
    } else {
      var before, e := es[..|es| - 1], es[|es| - 1];
      var c, p := Run(Start(), before), ScanToPhys(e.scan);
      RunRemembers(before);
      DispatchRemembers(c, p, e.state);
      Effects(c, p, e.state);
      forall q: nat | IsOrdinary(q) ensures Run(Start(), es).keys[q].mode != None <==> Held(es, q) {
        HeldNext(es, q);
      }
    }
  }

  lemma StartRemembers()
    ensures Remembers(Start(), [])
  {
  }

  lemma DispatchRemembers(c: Ctx, p: nat, state: KeyState)
    requires |c.keys| == PK_MAX && state != Idle
    ensures var c', caps := Dispatch(c, p, state), p == PK_CAPSLOCK && state == Pressed;
            && c'.mouseMode == (c.mouseMode != (caps && c.shr))
            && c'.caps == (c.caps != (caps && !c.shr))
            && (IsOrdinary(p) && state == Pressed ==> c'.keys[p].mode != None)
  {
    hide Press, Release, Modify;
    if p == PK_NONE || p >= PK_POWER || state == Hold {
    } else if IsOrdinary(p) && state == Pressed {
      PressKeepsModes(c, p);
    } else if IsOrdinary(p) {
      ReleaseKeepsModes(c, p);
    } else if IsModifier(p) {
      ModifyKeepsModes(c, p, state == Pressed);
    }
  }

  lemma PressKeepsModes(c: Ctx, p: nat)
    requires |c.keys| == PK_MAX && IsOrdinary(p)
    ensures var c' := Press(c, p); c'.mouseMode == c.mouseMode && c'.caps == c.caps && c'.keys[p].mode != None
  {
    hide Lock, Locked;
    LockIsLocked(p, c.shr, c.mouseMode);
  }

  lemma ReleaseKeepsModes(c: Ctx, p: nat)
    requires |c.keys| == PK_MAX && IsOrdinary(p)
    ensures Release(c, p).mouseMode == c.mouseMode && Release(c, p).caps == c.caps
  {
  }

  lemma ModifyKeepsModes(c: Ctx, p: nat, down: bool)
    ensures Modify(c, p, down).mouseMode == c.mouseMode && Modify(c, p, down).caps == c.caps
  {
  }

  // --- Presses --------------------------------------------------------------------------------

  // The keys of each kind are listed here once more, apart from the driver's tables.

  /** Keys that R-shift turns into something else: the backlight keys, those with a keycode of their own, and in mouse
      mode four more. */
  predicate IsAction(p: nat) { p == PK_COMMA || p == PK_DOT || p == PK_SPACE }

  predicate HasFn(p: nat, mouse: bool) {
    || PK_F1 <= p < PK_F1 + 5 || p == PK_ESC || p == PK_TAB || p == PK_DELETE || p == PK_BACKSPACE
    || PK_UP <= p <= PK_RIGHT || p == PK_A + 8
    || (mouse && (p == PK_LBRACKET || p == PK_RBRACKET || p == PK_GRAVE || p == PK_SLASH))
  }

  lemma FnOnlyThere(p: nat, mouse: bool)
    ensures FnKeycode(p, mouse) != 0 <==> HasFn(p, mouse)
  {
  }

  /** Keys that act on the mouse in mouse mode. */
  predicate IsPointerKey(p: nat) { PK_UP <= p <= PK_RIGHT || p == PK_LBRACKET || p == PK_RBRACKET }

  /** An ordinary key goes down after any trace. With R-shift held it is an action, a keycode of its own, or the key
      itself together with R-shift, which Linux is told of here at the latest. Without R-shift it moves or clicks the
      mouse in mouse mode and is the key itself otherwise. */
  lemma FreshPress(es: seq<Event>, scan: nat)
    requires forall e <- es :: e.state != Idle
    requires IsOrdinary(ScanToPhys(scan)) && !Held(es, ScanToPhys(scan))
    ensures var p, e := ScanToPhys(scan), Event(scan, Pressed);
            (forall x <- es + [e] :: x.state != Idle) &&
            var c, c' := Run(Start(), es), Run(Start(), es + [e]);
            var shift, mouse := Held(es, PK_RSHIFT), MouseOn(es);
            && (shift && IsAction(p) ==> c'.down == c.down)
            && (shift && HasFn(p, mouse) ==> c'.down == c.down + {FnKeycode(p, mouse)})
            && (shift && !IsAction(p) && !HasFn(p, mouse) ==> c'.down == c.down + {KEY_RIGHTSHIFT, BaseKeycode(p)})
            && (!shift && !(mouse && IsPointerKey(p)) ==> c'.down == c.down + {BaseKeycode(p)})
            && (!shift && mouse && p == PK_LBRACKET ==> c'.down == c.down + {BTN_LEFT})
            && (!shift && mouse && p == PK_RBRACKET ==> c'.down == c.down + {BTN_RIGHT})
            && (!shift && mouse && IsArrow(p) ==> c'.down == c.down)
            && c'.mouseDir == c.mouseDir + (if !shift && mouse && IsArrow(p) then {p} else {})
            && (!shift ==> KEY_RIGHTSHIFT !in c'.down)
  {
    hide Run, Held, ScanToPhys, BaseKeycode, FnKeycode, Inv;
    var p, e := ScanToPhys(scan), Event(scan, Pressed);
    RunRemembers(es);
    RunKeeps(es);
    var c := Run(Start(), es);
    RunSnoc(es, e);
    TablesAreOrdinary(p, c.shr, c.mouseMode);
    FnOnlyThere(p, c.mouseMode);
    PressReports(c, p);
  }

  lemma RunSnoc(es: seq<Event>, e: Event)
    requires e.state != Idle && forall x <- es :: x.state != Idle
    ensures forall x <- es + [e] :: x.state != Idle
    ensures Run(Start(), es + [e]) == Dispatch(Run(Start(), es), ScanToPhys(e.scan), e.state)
  {
    assert (es + [e])[..|es|] == es;
  }

  lemma PressReports(c: Ctx, p: nat)
    requires Inv(c) && IsOrdinary(p) && c.keys[p].mode == None
    requires BaseKeycode(p) != 0 && !IsSpecial(BaseKeycode(p)) && !IsSpecial(FnKeycode(p, c.mouseMode))
    requires FnKeycode(p, c.mouseMode) != 0 <==> HasFn(p, c.mouseMode)
    ensures var c' := Press(c, p);
            && (c.shr && IsAction(p) ==> c'.down == c.down)
            && (c.shr && HasFn(p, c.mouseMode) ==> c'.down == c.down + {FnKeycode(p, c.mouseMode)})
            && (c.shr && !IsAction(p) && !HasFn(p, c.mouseMode) ==>
                  c'.down == c.down + {KEY_RIGHTSHIFT, BaseKeycode(p)})
            && (!c.shr && !(c.mouseMode && IsPointerKey(p)) ==> c'.down == c.down + {BaseKeycode(p)})
            && (!c.shr && c.mouseMode && p == PK_LBRACKET ==> c'.down == c.down + {BTN_LEFT})
            && (!c.shr && c.mouseMode && p == PK_RBRACKET ==> c'.down == c.down + {BTN_RIGHT})
            && (!c.shr && c.mouseMode && IsArrow(p) ==> c'.down == c.down)
            && c'.mouseDir == c.mouseDir + (if !c.shr && c.mouseMode && IsArrow(p) then {p} else {})
            && (!c.shr ==> KEY_RIGHTSHIFT !in c'.down)
  {
    hide BaseKeycode, FnKeycode, Accounted, Records, MouseAgrees;
  }

  /** A key that is held is not reported again, whatever changed since. */
  lemma HeldPress(es: seq<Event>, scan: nat, state: KeyState)
    requires forall e <- es :: e.state != Idle
    requires IsOrdinary(ScanToPhys(scan)) && Held(es, ScanToPhys(scan)) && (state == Pressed || state == Hold)
    ensures forall e <- es + [Event(scan, state)] :: e.state != Idle
    ensures Run(Start(), es + [Event(scan, state)]) == Run(Start(), es)
  {
    hide Run, Held, ScanToPhys;
    RunRemembers(es);
    RunSnoc(es, Event(scan, state));
  }

  /** The keycode or button such a press puts down, 0 for none. */
  function Emitted(p: nat, shift: bool, mouse: bool): nat {
    if shift && IsAction(p) then 0
    else if shift && HasFn(p, mouse) then FnKeycode(p, mouse)
    else if shift || !mouse || !IsPointerKey(p) then BaseKeycode(p)
    else if p == PK_LBRACKET then BTN_LEFT else if p == PK_RBRACKET then BTN_RIGHT else 0
  }

  lemma LockedToEmitted(p: nat, shift: bool, mouse: bool)
    requires IsOrdinary(p)
    ensures Lock(p, shift, mouse).keycode == Emitted(p, shift, mouse)
    ensures Lock(p, shift, mouse).mode == Mouse <==> !shift && mouse && IsPointerKey(p)
  {
    hide BaseKeycode, FnKeycode;
    TablesAreOrdinary(p, shift, mouse);
    FnOnlyThere(p, mouse);
  }

  /** However the shifts and modes change while a key is held, its release takes up exactly what its press put down, and
      ends exactly its own motion. */
  lemma ReleaseEnds(before: seq<Event>, scan: nat, between: seq<Event>)
    requires forall x <- before + between :: x.state != Idle
    requires IsOrdinary(ScanToPhys(scan)) && !Held(before, ScanToPhys(scan)) && !Concerns(between, ScanToPhys(scan))
    ensures var p, held := ScanToPhys(scan), before + [Event(scan, Pressed)] + between;
            (forall x <- held + [Event(scan, Released)] :: x.state != Idle) &&
            var c, c' := Run(Start(), held), Run(Start(), held + [Event(scan, Released)]);
            && c'.down == c.down - {Emitted(p, Held(before, PK_RSHIFT), MouseOn(before))}
            && c'.mouseDir == c.mouseDir -
                 (if IsArrow(p) && !Held(before, PK_RSHIFT) && MouseOn(before) then {p} else {})
  {
    hide Run, Held, ScanToPhys, Lock, Emitted;
    var p, press := ScanToPhys(scan), Event(scan, Pressed);
    var c := Run(Start(), before);
    assert forall x <- before :: x in before + between;
    assert forall x <- between :: x in before + between;
    RunRemembers(before);
    RunSnoc(before, press);
    RunAppend(before + [press], between);
    RunSnoc(before + [press] + between, Event(scan, Released));
    ReleaseUndoesPress(before, p, between);
    LockedToEmitted(p, c.shr, c.mouseMode);
    RunKeeps(before + [press] + between);
    PressLocks(c, p);
    RunKeeps(before + [press]);
    NotYetMoving(Run(Start(), before + [press] + between), p);
    RecordStays(Press(c, p), between, p);
  }

  lemma {:induction false} RunAppend(es: seq<Event>, more: seq<Event>)
    requires (forall x <- es :: x.state != Idle) && forall x <- more :: x.state != Idle
    ensures forall x <- es + more :: x.state != Idle
    ensures Run(Start(), es + more) == Run(Run(Start(), es), more)
  {
    hide Dispatch, ScanToPhys;
    if more == [] {
      assert es + more == es;
    } else {
      RunAppend(es, more[..|more| - 1]);
      assert (es + more)[..|es + more| - 1] == es + more[..|more| - 1];
    }
  }

  lemma PressLocks(c: Ctx, p: nat)
    requires p < |c.keys| && c.keys[p].mode == None
    ensures Press(c, p).keys[p] == Lock(p, c.shr, c.mouseMode)
  {
    hide Lock;
  }

  lemma NotYetMoving(c: Ctx, p: nat)
    requires Inv(c) && p < PK_MAX
    ensures p in c.mouseDir ==> IsArrow(p) && c.keys[p].mode == Mouse
  {
  }

  /** Linux has the modifiers down exactly while they are held, and R-shift only while it is. */
  lemma ModifiersFollow(es: seq<Event>)
    requires forall e <- es :: e.state != Idle
    ensures var down := Run(Start(), es).down;
            && (KEY_LEFTSHIFT in down <==> Held(es, PK_LSHIFT))
            && (KEY_LEFTALT in down <==> Held(es, PK_LALT))
            && (KEY_LEFTCTRL in down <==> Held(es, PK_LCTRL))
            && (KEY_RIGHTSHIFT in down ==> Held(es, PK_RSHIFT))
            && (KEY_CAPSLOCK in down ==> Held(es, PK_CAPSLOCK))
  {
    hide Run, Held;
    RunBelieves(es);
    RunKeeps(es);
  }

  /** Caps Lock goes down in Linux unless R-shift is held; then all pointer motion ends instead. */
  lemma CapsPress(es: seq<Event>, scan: nat)
    requires (forall e <- es :: e.state != Idle) && ScanToPhys(scan) == PK_CAPSLOCK
    ensures (forall x <- es + [Event(scan, Pressed)] :: x.state != Idle)
    ensures var c, c' := Run(Start(), es), Run(Start(), es + [Event(scan, Pressed)]);
            if Held(es, PK_RSHIFT) then c'.down == c.down - {KEY_RIGHTSHIFT} && c'.mouseDir == {} && !c'.tickPending
            else c'.down == c.down + {KEY_CAPSLOCK} && c'.mouseDir == c.mouseDir
  {
    hide Run, Held, ScanToPhys;
    RunRemembers(es);
    RunKeeps(es);
    RunSnoc(es, Event(scan, Pressed));
  }

  // --- Tables ---------------------------------------------------------------------------------

  /** The keycode of the key that the firmware reports with a character's code. */
  function Code(ch: char): nat { BaseKeycode(ScanToPhys(ch as nat)) }

  /** Linux numbers the keys of a keyboard row by row, and every character key has the number of its place. */
  lemma RowOfDigits(i: nat)
    requires i < 12
    ensures Code("1234567890-="[i]) == 2 + i
  {
  }

  lemma RowOfQ(i: nat)
    requires i < 12
    ensures Code("QWERTYUIOP[]"[i]) == 16 + i
  {
  }

  lemma RowOfA(i: nat)
    requires i < 12
    ensures Code("ASDFGHJKL;'`"[i]) == 30 + i
  {
  }

  lemma RowOfZ(i: nat)
    requires i < 11
    ensures Code("\\ZXCVBNM,./"[i]) == 43 + i
  {
  }

  /** F1 to F9 and F10 follow Caps Lock; R-shift makes F6 to F10 of the first five. */
  lemma FunctionKeys(i: nat, mouse: bool)
    requires i < 10
    ensures BaseKeycode(ScanToPhys(if i < 9 then 0x81 + i else 0x90)) == KEY_CAPSLOCK + 1 + i
    ensures i < 5 ==> FnKeycode(ScanToPhys(0x81 + i), mouse) == KEY_CAPSLOCK + 6 + i
  {
  }

  const KEY_HOME := 102
  const KEY_UP := 103
  const KEY_PAGEUP := 104
  const KEY_LEFT := 105
  const KEY_RIGHT := 106
  const KEY_END := 107
  const KEY_DOWN := 108
  const KEY_PAGEDOWN := 109
  const KEY_INSERT := 110
  const KEY_DELETE := 111
  const KEY_PAUSE := 119
  const KEY_F11 := 87

  lemma OtherKeys()
    ensures BaseKeycode(ScanToPhys(0xB1)) == 1 && BaseKeycode(ScanToPhys(0x08)) == 14
    ensures BaseKeycode(ScanToPhys(0x09)) == 15 && BaseKeycode(ScanToPhys(0x0A)) == 28
    ensures BaseKeycode(ScanToPhys(0x20)) == 57 && BaseKeycode(ScanToPhys(0xC1)) == KEY_CAPSLOCK
  {
  }

  lemma CursorKeys()
    ensures BaseKeycode(ScanToPhys(0xB5)) == KEY_UP && BaseKeycode(ScanToPhys(0xB6)) == KEY_DOWN
    ensures BaseKeycode(ScanToPhys(0xB4)) == KEY_LEFT && BaseKeycode(ScanToPhys(0xB7)) == KEY_RIGHT
    ensures BaseKeycode(ScanToPhys(0xD1)) == KEY_INSERT && BaseKeycode(ScanToPhys(0xD4)) == KEY_DELETE
    ensures BaseKeycode(ScanToPhys(0xD2)) == KEY_HOME && BaseKeycode(ScanToPhys(0xD5)) == KEY_END
    ensures BaseKeycode(ScanToPhys(0xD0)) == KEY_PAUSE
  {
  }

  /** R-shift with the other keys, out of mouse mode and in it. */
  lemma FnKeys(mouse: bool)
    ensures FnKeycode(PK_ESC, mouse) == KEY_PAUSE && FnKeycode(PK_TAB, mouse) == KEY_HOME
    ensures FnKeycode(PK_DELETE, mouse) == KEY_END && FnKeycode(PK_BACKSPACE, mouse) == KEY_F11
    ensures FnKeycode(ScanToPhys('I' as nat), mouse) == KEY_INSERT
    ensures FnKeycode(PK_UP, mouse) == if mouse then KEY_UP else KEY_PAGEUP
    ensures FnKeycode(PK_DOWN, mouse) == if mouse then KEY_DOWN else KEY_PAGEDOWN
    ensures FnKeycode(PK_LEFT, mouse) == if mouse then KEY_LEFT else KEY_HOME
    ensures FnKeycode(PK_RIGHT, mouse) == if mouse then KEY_RIGHT else KEY_END
    ensures FnKeycode(PK_LBRACKET, true) == Code('[') && FnKeycode(PK_RBRACKET, true) == Code(']')
    ensures FnKeycode(PK_GRAVE, true) == KEY_PAGEUP && FnKeycode(PK_SLASH, true) == KEY_PAGEDOWN
  {
  }
}
