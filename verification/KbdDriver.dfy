/** The Linux keyboard driver: `struct kbd_ctx` and the handlers that change it. */
module KbdDriver {
  import opened Keys
  import opened DriverSpec
  import MouseMotion

  class Driver {
    var shl: bool
    var shr: bool
    var alt: bool
    var ctrl: bool
    var caps: bool
    var rshiftReported: bool
    const keyState: array<Rec>
    var mouseMode: bool
    const mover: MouseMotion.Mover   // mouse_dir, mouse_dw and the motion
    var down: set<nat>           // key and button bits of input_dev
    var boottime: nat            // the clock when it was last read

    constructor ()
      ensures Valid() && fresh(keyState) && fresh(mover) && State() == Start()
    {
      shl, shr, alt, ctrl, caps, rshiftReported := false, false, false, false, false, false;
      keyState := new Rec[PK_MAX](_ => FREE);
      mouseMode, down, boottime := false, {}, 0;
      mover := new MouseMotion.Mover(MouseMotion.DEFAULTS);
    }

    ghost predicate Valid() reads this, keyState, mover {
      keyState.Length == PK_MAX && mover.Valid() && mover.startNs <= boottime
    }

    ghost function State(): (c: Ctx)
      requires Valid()
      reads this, keyState, mover
      ensures |c.keys| == PK_MAX
    {
      Ctx(shl, shr, alt, ctrl, caps, rshiftReported, keyState[..], mouseMode, mover.dirs, mover.pending, down)
    }

    method ReportKey(keycode: nat, value: bool)
      requires Valid()
      modifies `down
      ensures Valid() && down == Report(old(down), keycode, value)
    {
      down := if value then down + {keycode} else down - {keycode};
    }

    method RshiftSupplementDown()
      requires Valid()
      modifies `down, `rshiftReported
      ensures Valid()
      ensures if shr && !old(rshiftReported) then rshiftReported && down == old(down) + {KEY_RIGHTSHIFT}
              else rshiftReported == old(rshiftReported) && down == old(down)
    {
      if shr && !rshiftReported {
        ReportKey(KEY_RIGHTSHIFT, true);
        rshiftReported := true;
      }
    }

    method RshiftSupplementUp()
      requires Valid()
      modifies `down, `rshiftReported
      ensures Valid() && !rshiftReported
      ensures down == if old(rshiftReported) then old(down) - {KEY_RIGHTSHIFT} else old(down)
    {
      if rshiftReported {
        ReportKey(KEY_RIGHTSHIFT, false);
        rshiftReported := false;
      }
    }

    /** `ktime_get_boottime_ns` never goes back. */
    method Ktime() returns (now: nat)
      requires Valid()
      modifies `boottime
      ensures Valid() && now == boottime >= old(boottime)
    {
      now :| now >= boottime;
      boottime := now;
    }

    /** The release branch of `key_dispatch`. */
    method KeyRelease(p: nat)
      requires Valid() && IsOrdinary(p)
      modifies this, keyState, mover
      ensures Valid() && State() == Release(old(State()), p)
    {
      var r := keyState[p];
      match r.mode {
        case Normal => ReportKey(r.keycode, false);
        case Shifted => ReportKey(r.keycode, false);
        case Fn => ReportKey(r.keycode, false);
        case Mouse =>
          if IsArrow(p) {
            mover.StopMove(p);
          }
          if p == PK_LBRACKET {
            ReportKey(BTN_LEFT, false);
          }
          if p == PK_RBRACKET {
            ReportKey(BTN_RIGHT, false);
          }
        case None =>
      }
      keyState[p] := FREE;
    }

    /** Mouse mode without R-shift: arrows move, brackets click. */
    method PressMouseKey(p: nat)
      requires Valid() && IsMouseKey(p) && mouseMode && !shr && keyState[p].mode == None
      modifies this, keyState, mover
      ensures Valid() && State() == PressAs(old(State()), p, Lock(p, false, true))
    {
      if IsArrow(p) {
        keyState[p] := Rec(Mouse, 0);
        var now := Ktime();
        var _, _ := mover.StartMove(p, now);
      } else if p == PK_LBRACKET {
        keyState[p] := Rec(Mouse, BTN_LEFT);
        ReportKey(BTN_LEFT, true);
      } else {
        keyState[p] := Rec(Mouse, BTN_RIGHT);
        ReportKey(BTN_RIGHT, true);
      }
    }

    /** R-shift as Fn: an action, or a keycode of its own. */
    method PressFnKey(p: nat) returns (handled: bool)
      requires Valid() && IsOrdinary(p) && shr && keyState[p].mode == None
      modifies this, keyState, mover
      ensures Valid() && handled == (IsFnAction(p) || FnKeycode(p, mouseMode) != 0)
      ensures State() == if handled then PressAs(old(State()), p, Lock(p, true, old(mouseMode))) else old(State())
    {
      hide BaseKeycode, FnKeycode;
      if IsFnAction(p) {
        keyState[p] := Rec(Fn, 0);
        return true;
      }
      var fn := FnKeycode(p, mouseMode);
      if fn != 0 {
        keyState[p] := Rec(Fn, fn);
        ReportKey(fn, true);
        return true;
      }
      handled := false;
    }

    /** The press branch of `key_dispatch`: decides how the key is reported and locks that. */
    method KeyPress(p: nat)
      requires Valid() && IsOrdinary(p)
      modifies this, keyState, mover
      ensures Valid() && State() == Press(old(State()), p)
    {
      hide BaseKeycode, FnKeycode;
      if keyState[p].mode != None {
        return;
      }
      if mouseMode && !shr && IsMouseKey(p) {
        PressMouseKey(p);
        return;
      }
      if shr {
        var handled := PressFnKey(p);
        if handled {
          return;
        }
      }
      TablesAreOrdinary(p, shr, mouseMode);
      var base := BaseKeycode(p);
      if shr {
        RshiftSupplementDown();
        keyState[p] := Rec(Shifted, base);
      } else {
        keyState[p] := Rec(Normal, base);
      }
      ReportKey(base, true);
    }

    /** The modifier branches of `key_dispatch`. */
    method ModifierEvent(p: nat, press: bool)
      requires Valid() && IsModifier(p)
      modifies this
      ensures Valid() && State() == Modify(old(State()), p, press)
    {
      if p == PK_LSHIFT {
        shl := press;
        ReportKey(KEY_LEFTSHIFT, press);
      } else if p == PK_RSHIFT {
        shr := press;
        if !press {
          RshiftSupplementUp();
        }
      } else if p == PK_LALT {
        alt := press;
        ReportKey(KEY_LEFTALT, press);
      } else {
        ctrl := press;
        ReportKey(KEY_LEFTCTRL, press);
      }
      assert keyState[..] == old(keyState[..]);
    }

    /** The Caps Lock branch: with R-shift it switches mouse mode. */
    method CapsEvent(press: bool)
      requires Valid()
      modifies this, mover
      ensures Valid() && State() == Caps(old(State()), press)
    {
      if press && shr {
        mouseMode := !mouseMode;
        mover.Halt();
        RshiftSupplementUp();
      } else {
        ReportKey(KEY_CAPSLOCK, press);
        if press {
          caps := !caps;
        }
      }
      assert keyState[..] == old(keyState[..]);
    }

    /** `key_dispatch` */
    method KeyDispatch(p: nat, state: KeyState)
      requires Valid() && p < PK_MAX && state != Idle
      modifies this, keyState, mover
      ensures Valid() && State() == Dispatch(old(State()), p, state)
    {
      hide Press, Release, Modify, Caps;
      if p == PK_NONE || p == PK_POWER || state == Hold {
        return;
      }
      if IsModifier(p) {
        ModifierEvent(p, state == Pressed);
      } else if p == PK_CAPSLOCK {
        CapsEvent(state == Pressed);
      } else if state == Released {
        KeyRelease(p);
      } else {
        KeyPress(p);
      }
    }

    /** The timer's work. It runs only when scheduled. */
    method MouseTick() returns (relX: int, relY: int)
      requires Valid() && mover.pending
      modifies `boottime, mover
      ensures Valid() && State() == old(State()).(tickPending := mover.dirs != {})
      ensures var units := MouseMotion.Units(mover.p, mover.startNs, boottime);
              && MouseMotion.UNIT * MouseMotion.Abs(relX) + mover.subX ==
                 old(mover.subX) + (if MouseMotion.Across(mover.dirs) then units else 0)
              && MouseMotion.UNIT * MouseMotion.Abs(relY) + mover.subY ==
                 old(mover.subY) + (if MouseMotion.Along(mover.dirs) then units else 0)
      ensures if PK_RIGHT in mover.dirs then 0 <= relX else relX <= 0
      ensures if PK_DOWN in mover.dirs then 0 <= relY else relY <= 0
    {
      hide MouseMotion.Units;
      var now := Ktime();
      relX, relY := mover.Tick(now);
    }
  }
}
