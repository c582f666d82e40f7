/** The keyboard controller's scanner, `keyboard.ino`, reporting modifiers as keys of their own
    and leaving the other keys' characters alone. */
module Firmware {
  import opened Keys
  import opened SlotTable
  import opened Scanning
  import Fifo

  const KEY_POWER := 0x91

  /** A modifier's flag is set exactly while its key has a slot. */
  ghost predicate ModsAgree(mods: seq<bool>, t: Table) {
    && |mods| == MOD_LAST && !mods[0] && !mods[1]
    && (mods[MOD_ALT] <==> Present(t, 56)) && (mods[MOD_CTRL] <==> Present(t, 57))
    && (mods[MOD_SHL] <==> Present(t, 58)) && (mods[MOD_SHR] <==> Present(t, 59))
  }

  /** Entering a state keeps stream and table in agreement. */
  lemma TransitionAgrees(es: seq<Event>, t: Table, t': Table, k: nat, next: KeyState)
    requires Agrees(es, t) && k < KEYS && next != Idle
    requires forall q :: 0 <= q != k ==> (Active(t', q) <==> Active(t, q))
    requires Active(t', k) <==> IsDown(next)
    requires !Active(t, k) ==> next == Pressed
    ensures Agrees(es + Report(k, next), t')
  {
    hide ScanToPhys, KeyOf, PhaseOf, Active;
    ScanOfBlank(k);
    if k == BLANK_KEY {
      SilenceAgrees(es, t, t', k);
      assert es + [] == es;
    } else {
      ReportAgrees(es, t, t', k, Event(ScanOf(k), Reported(k, next)));
    }
  }

  /** Only the blank matrix position is never reported. */
  lemma ScanOfBlank(k: nat)
    requires k < KEYS
    ensures ScanOf(k) == 0 <==> k == BLANK_KEY
  {
    if k != BLANK_KEY {
      KeyOfPhysOf(k);
    }
  }

  class Keyboard {
    const list: array<Slot>
    const mods: array<bool>
    var lastProcess: nat
    const fifo: Fifo.EventFifo
    const overflowOn: bool            // CFG_OVERFLOW_ON
    const started: bool               // keycb_start
    ghost var emitted: seq<Event>     // everything the key callback was called with
    ghost var lost: bool              // some of it found the FIFO full or came before the start

    constructor (fifo: Fifo.EventFifo, overflowOn: bool, started: bool)
      requires fifo.Valid() && fifo.accepted == []
      ensures Valid() && fresh(list) && fresh(mods) && this.fifo == fifo
      ensures this.overflowOn == overflowOn && this.started == started
      ensures emitted == [] && !lost && forall i :: 0 <= i < list.Length ==> list[i] == EMPTY
    {
      list := new Slot[KEY_LIST_SIZE](_ => EMPTY);
      mods := new bool[MOD_LAST](_ => false);
      lastProcess := 0;
      this.fifo, this.overflowOn, this.started, emitted, lost := fifo, overflowOn, started, [], false;
    }

    ghost predicate Memory() reads this, fifo, fifo.items {
      && fifo.Valid()
      && list.Length == KEY_LIST_SIZE && mods.Length == MOD_LAST
      && list as object != mods && list as object != fifo.items && mods as object != fifo.items
      && (!lost ==> emitted == fifo.accepted)
    }

    ghost predicate Valid() reads this, list, mods, fifo, fifo.items {
      && Memory()
      && WellFormed(list[..])
      && ModsAgree(mods[..], list[..])
      && Agrees(emitted, list[..])
    }

    /** `key_cb`: until the start everything queued is thrown away; afterwards a full FIFO drops the event, or its own
        oldest one if told to. */
    method KeyCb(sc: nat, state: KeyState)
      requires Memory()
      modifies `emitted, `lost, fifo, fifo.items
      ensures Memory() && emitted == old(emitted) + [Event(sc, state)] && fifo.taken == old(fifo.taken)
      ensures lost == (old(lost) || !started || |old(fifo.Contents())| == Fifo.FIFO_SIZE)
      ensures started ==> (lost <==> old(lost) || |emitted| > |fifo.taken| + Fifo.FIFO_SIZE)
      ensures var queued := old(fifo.Contents());
              fifo.Contents() == if !started then [] else if |queued| < Fifo.FIFO_SIZE then queued + [Event(sc, state)]
                                 else if overflowOn then queued[1..] + [Event(sc, state)] else queued
    {
      var item := Event(sc, state);
      emitted := emitted + [item];
      if !started {
        fifo.Flush();
        lost := true;
        return;
      }
      var ok := fifo.Enqueue(item);
      if !ok {
        lost := true;
        if overflowOn {
          fifo.EnqueueForce(item);
        }
      }
    }

    /** `transition_to` */
    method TransitionTo(i: nat, next: KeyState)
      requires Memory() && i < list.Length && NO_ENTRY <= list[i].entry < KEYS
      modifies list, `emitted, `lost, fifo, fifo.items
      ensures Memory() && (old(lost) ==> lost) && fifo.taken == old(fifo.taken)
      ensures started ==> (lost <==> old(lost) || |emitted| > |fifo.taken| + Fifo.FIFO_SIZE)
      ensures list[..] == old(list[..])[i := old(list[i]).(state := next)]
      ensures var k := old(list[i]).entry;
              emitted == old(emitted) +
                (if k != NO_ENTRY && ScanOf(k) != 0 then [Event(ScanOf(k), Reported(k, next))] else [])
    {
      list[i] := list[i].(state := next);
      if list[i].entry == NO_ENTRY {
        return;
      }
      var sc := ScanOf(list[i].entry);
      if sc != 0 {
        KeyCb(sc, if next == Hold && Repeats(sc) then Pressed else next);
      }
    }

    method Uptime() returns (now: nat)
      ensures now < CLOCK
    {
      now :| 0 <= now < CLOCK;
    }

    /** A free slot taken by a key that was just found pressed, and `next_item_state` on it. */
    method StartItem(i: nat, k: nat)
      requires Valid() && i < list.Length && list[i].entry == NO_ENTRY && k < KEYS && !Present(list[..], k)
      modifies list, mods, `emitted, `lost, fifo, fifo.items
      ensures Valid() && (old(lost) ==> lost) && fifo.taken == old(fifo.taken)
      ensures started ==> (lost <==> old(lost) || |emitted| > |fifo.taken| + Fifo.FIFO_SIZE)
      ensures list[i].entry == k && list[i].state == Pressed && list[i].lastRepeat == 0
      ensures list[..] == old(list[..])[i := list[i]] && emitted == old(emitted) + Report(k, Pressed)
    {
      hide ScanOf, Active, Present, WellFormed, Agrees;
      ghost var t := list[..];
      list[i] := list[i].(entry := k, state := Idle);
      if ModOf(k) != MOD_NONE {
        mods[ModOf(k)] := true;
      }
      TransitionTo(i, Pressed);
      var now := Uptime();
      list[i] := list[i].(holdStart := now, lastRepeat := 0);
      ghost var s := list[i];
      assert list[..] == t[i := s];
      Admit(t, i, s, k);
      TransitionAgrees(old(emitted), t, list[..], k, Pressed);
    }

    /** `next_item_state` on a slot in use. */
    method NextItemState(i: nat, pressed: bool) returns (ghost now: nat, ghost later: nat)
      requires Valid() && i < list.Length && list[i].entry != NO_ENTRY
      modifies list, mods, `emitted, `lost, fifo, fifo.items
      ensures Valid() && (old(lost) ==> lost) && fifo.taken == old(fifo.taken)
      ensures started ==> (lost <==> old(lost) || |emitted| > |fifo.taken| + Fifo.FIFO_SIZE)
      ensures forall j :: 0 <= j < list.Length && j != i ==> list[j] == old(list[j])
      ensures list[i].state == NextState(old(list[i]), pressed, now)
      ensures list[i].entry == if old(list[i]).state == Released then NO_ENTRY else old(list[i]).entry
      ensures list[i].holdStart == old(list[i]).holdStart
      ensures Repeated(old(list[i]), pressed, now, later) || list[i].lastRepeat == old(list[i]).lastRepeat
      ensures emitted == old(emitted) +
              (if Reports(old(list[i]), pressed, now, later) then Report(old(list[i]).entry, list[i].state) else [])
      ensures !pressed ==> Rank(list[i]) < old(Rank(list[i]))
    {
      hide Agrees, ModsAgree, Report, Since;
      now, later := 0, 0;
      assert list[..][i] == list[i];
      match list[i].state {
        case Pressed =>
          var clock := Uptime();
          now := clock;
          if Since(clock, list[i].holdStart) > KEY_HOLD_TIME {
            MoveOn(i, Hold, list[i].lastRepeat);
          } else if !pressed {
            MoveOn(i, Released, list[i].lastRepeat);
          }
        case Hold =>
          if !pressed {
            MoveOn(i, Released, list[i].lastRepeat);
          } else {
            var clock := Uptime();
            now := clock;
            if Since(clock, list[i].holdStart) > KEY_HOLD_TIME {
              var clock' := Uptime();
              later := clock';
              if Since(clock', list[i].lastRepeat) > KEY_REPEAT_TIME {
                var stamp := Uptime();
                MoveOn(i, Hold, stamp);
              }
            }
          }
        case Released =>
          Vacate(i);
        case Idle =>
      }
    }

    /** A reported change of a slot in use. */
    method MoveOn(i: nat, next: KeyState, stamp: nat)
      requires Valid() && i < list.Length && IsDown(list[i].state) && (next == Hold || next == Released)
      modifies list, `emitted, `lost, fifo, fifo.items
      ensures Valid() && (old(lost) ==> lost) && fifo.taken == old(fifo.taken)
      ensures started ==> (lost <==> old(lost) || |emitted| > |fifo.taken| + Fifo.FIFO_SIZE)
      ensures list[..] == old(list[..])[i := old(list[i]).(state := next, lastRepeat := stamp)]
      ensures emitted == old(emitted) + Report(old(list[i]).entry, next)
    {
      hide ScanOf, Active, Present, Agrees;
      ghost var t, k := list[..], list[i].entry;
      TransitionTo(i, next);
      list[i] := list[i].(lastRepeat := stamp);
      ghost var s := list[i];
      assert list[..] == t[i := s];
      Rewrite(t, i, s, k);
      TransitionAgrees(old(emitted), t, list[..], k, next);
    }

    /** One scan after its release has been reported, a key gives its slot back. */
    method Vacate(i: nat)
      requires Valid() && i < list.Length && list[i].state == Released
      modifies list, mods, `emitted, `lost, fifo, fifo.items
      ensures Valid() && (old(lost) ==> lost) && fifo.taken == old(fifo.taken)
      ensures started ==> (lost <==> old(lost) || |emitted| > |fifo.taken| + Fifo.FIFO_SIZE)
      ensures list[..] == old(list[..])[i := old(list[i]).(entry := NO_ENTRY, state := Idle)]
      ensures emitted == old(emitted)
    {
      hide ScanOf, Active, Present, Agrees;
      ghost var t := list[..];
      var k := list[i].entry;
      if ModOf(k) != MOD_NONE {
        mods[ModOf(k)] := false;
      }
      list[i] := list[i].(entry := NO_ENTRY);
      TransitionTo(i, Idle);
      ghost var s := list[i];
      assert list[..] == t[i := s];
      Rewrite(t, i, s, k);
      SilenceAgrees(old(emitted), t, list[..], k);
      assert emitted == old(emitted);
    }

    /** The first slot whose entry is `entry`, or -1. */
    method FindSlot(entry: int) returns (at: int)
      requires Valid()
      ensures -1 <= at < list.Length
      ensures at >= 0 ==> list[at].entry == entry && forall j :: 0 <= j < at ==> list[j].entry != entry
      ensures at < 0 <==> !Present(list[..], entry)
    {
      var i := 0;
      while i < list.Length
        invariant 0 <= i <= list.Length
        invariant forall j :: 0 <= j < i ==> list[j].entry != entry
      {
        if list[i].entry == entry {
          assert list[..][i].entry == entry;
          return i;
        }
        i := i + 1;
      }
      at := -1;
    }

    /** One switch of a scan: its slot moves on, or a press takes a free slot and is reported. With every slot
        taken a further key stays unnoticed; other keys' slots are left alone. */
    method ProcessKey(k: nat, pressed: bool) returns (ghost out: seq<Event>)
      requires Valid() && k < KEYS
      modifies list, mods, `emitted, `lost, fifo, fifo.items
      ensures Valid() && (old(lost) ==> lost) && fifo.taken == old(fifo.taken)
      ensures started ==> (lost <==> old(lost) || |emitted| > |fifo.taken| + Fifo.FIFO_SIZE)
      ensures emitted == old(emitted) + out && KeyStep(old(list[..]), list[..], k, pressed, out)
    {
      hide Agrees, ModsAgree, Rank, WellFormed, Report, NextState, Reports, SlotMoves, SlotTaken, Present;
      ghost var t := list[..];
      out := [];
      var at := FindSlot(k);
      if at >= 0 {
        IsPresent(t, at);
        ghost var now, later := NextItemState(at, pressed);
        out := if Reports(t[at], pressed, now, later) then Report(k, list[at].state) else [];
        assert SlotMoves(t, list[..], at, k, pressed, now, later, out) by {
          Moved(t, list[..], at, k, pressed, now, later, out);
        }
        return;
      }
      if !pressed {
        return;
      }
      at := FindSlot(NO_ENTRY);
      if at >= 0 {
        IsPresent(t, at);
        StartItem(at, k);
        out := Report(k, Pressed);
        assert SlotTaken(t, list[..], at, k, out) by { Taken(t, list[..], at, k); }
      }
    }

    lemma IsPresent(t: Table, i: nat)
      requires i < |t|
      ensures Present(t, t[i].entry)
    {
    }

    lemma Moved(t: Table, t': Table, i: nat, k: nat, pressed: bool, now: nat, later: nat, out: seq<Event>)
      requires |t'| == |t| && i < |t| && k < KEYS && t[i].entry == k
      requires forall j :: 0 <= j < |t| && j != i ==> t'[j] == t[j]
      requires t'[i].state == NextState(t[i], pressed, now) && t'[i].holdStart == t[i].holdStart
      requires Repeated(t[i], pressed, now, later) || t'[i].lastRepeat == t[i].lastRepeat
      requires t'[i].entry == if t[i].state == Released then NO_ENTRY else k
      requires out == if Reports(t[i], pressed, now, later) then Report(k, t'[i].state) else []
      ensures SlotMoves(t, t', i, k, pressed, now, later, out)
    {
      hide NextState, Reports, Report;
      assert t' == t[i := t'[i]];
    }

    lemma Taken(t: Table, t': Table, i: nat, k: nat)
      requires |t'| == |t| && i < |t| && k < KEYS && t[i].entry == NO_ENTRY && t' == t[i := t'[i]]
      requires forall j :: 0 <= j < i ==> t[j].entry != NO_ENTRY
      requires t'[i].entry == k && t'[i].state == Pressed
      ensures SlotTaken(t, t', i, k, Report(k, Pressed))
    {
    }

    /** The power button reports through the same callback, past the slot table. */
    method PowerEvent(state: KeyState)
      requires Valid() && state != Idle
      modifies `emitted, `lost, fifo, fifo.items
      ensures Valid() && (old(lost) ==> lost) && fifo.taken == old(fifo.taken)
      ensures started ==> (lost <==> old(lost) || |emitted| > |fifo.taken| + Fifo.FIFO_SIZE)
    {
      hide Agrees, WellFormed, ModsAgree;
      KeyCb(KEY_POWER, state);
      PowerAgrees(old(emitted), list[..], Event(KEY_POWER, state));
    }

    /** The next switch of a scan that has looked at those in vs0. */
    method ScanKey(k: nat, readings: seq<bool>, ghost t: Table, ghost was: seq<Event>, ghost vs0: seq<Visit>)
      returns (ghost vs: seq<Visit>)
      requires Valid() && |vs0| < KEYS && k == Order(|vs0|) && k < KEYS
      requires |readings| == KEYS && Scanned(vs0, t, list[..], readings) && emitted == was + AllOut(vs0)
      modifies list, mods, `emitted, `lost, fifo, fifo.items
      ensures Valid() && (old(lost) ==> lost) && fifo.taken == old(fifo.taken)
      ensures started ==> (lost <==> old(lost) || |emitted| > |fifo.taken| + Fifo.FIFO_SIZE)
      ensures |vs| == |vs0| + 1 && Scanned(vs, t, list[..], readings) && emitted == was + AllOut(vs)
      ensures |old(emitted)| <= |emitted|
    {
      hide Agrees, ModsAgree, WellFormed, KeyStep, Scanned, AllOut, Order;
      ghost var b := list[..];
      ghost var out := ProcessKey(k, readings[k]);
      LookOnce(vs0, t, b, list[..], readings, out);
      vs := vs0 + [Visit(b, list[..], out)];
    }

    /** One column of the matrix. */
    method ScanColumn(c: nat, readings: seq<bool>, ghost t: Table, ghost was: seq<Event>, ghost vs0: seq<Visit>)
      returns (ghost vs: seq<Visit>)
      requires Valid() && c < 8 && |vs0| == c * 7
      requires |readings| == KEYS && Scanned(vs0, t, list[..], readings) && emitted == was + AllOut(vs0)
      modifies list, mods, `emitted, `lost, fifo, fifo.items
      ensures Valid() && (old(lost) ==> lost) && fifo.taken == old(fifo.taken)
      ensures started ==> (lost <==> old(lost) || |emitted| > |fifo.taken| + Fifo.FIFO_SIZE)
      ensures |vs| == c * 7 + 7 && Scanned(vs, t, list[..], readings) && emitted == was + AllOut(vs)
      ensures |old(emitted)| <= |emitted|
    {
      hide Agrees, ModsAgree, WellFormed, Scanned, AllOut, Order;
      vs := vs0;
      for r := 0 to 7
        invariant Valid() && (old(lost) ==> lost) && fifo.taken == old(fifo.taken)
        invariant started ==> (lost <==> old(lost) || |emitted| > |fifo.taken| + Fifo.FIFO_SIZE)
        invariant |old(emitted)| <= |emitted|
        invariant |vs| == c * 7 + r && Scanned(vs, t, list[..], readings) && emitted == was + AllOut(vs)
      {
        OrderAt(c, r);
        vs := ScanKey(r * 8 + c, readings, t, was, vs);
      }
    }

    method ScanMatrix(readings: seq<bool>, ghost t: Table, ghost was: seq<Event>, ghost vs0: seq<Visit>)
      returns (ghost vs: seq<Visit>)
      requires Valid() && vs0 == []
      requires |readings| == KEYS && Scanned(vs0, t, list[..], readings) && emitted == was + AllOut(vs0)
      modifies list, mods, `emitted, `lost, fifo, fifo.items
      ensures Valid() && (old(lost) ==> lost) && fifo.taken == old(fifo.taken)
      ensures started ==> (lost <==> old(lost) || |emitted| > |fifo.taken| + Fifo.FIFO_SIZE)
      ensures |vs| == 56 && Scanned(vs, t, list[..], readings) && emitted == was + AllOut(vs)
      ensures |old(emitted)| <= |emitted|
    {
      hide Agrees, ModsAgree, WellFormed, Scanned, AllOut;
      vs := vs0;
      for c := 0 to 8
        invariant Valid() && (old(lost) ==> lost) && fifo.taken == old(fifo.taken)
        invariant started ==> (lost <==> old(lost) || |emitted| > |fifo.taken| + Fifo.FIFO_SIZE)
        invariant |old(emitted)| <= |emitted|
        invariant |vs| == c * 7 && Scanned(vs, t, list[..], readings) && emitted == was + AllOut(vs)
      {
        vs := ScanColumn(c, readings, t, was, vs);
      }
    }

    method ScanButtons(readings: seq<bool>, ghost t: Table, ghost was: seq<Event>, ghost vs0: seq<Visit>)
      returns (ghost vs: seq<Visit>)
      requires Valid() && |vs0| == 56
      requires |readings| == KEYS && Scanned(vs0, t, list[..], readings) && emitted == was + AllOut(vs0)
      modifies list, mods, `emitted, `lost, fifo, fifo.items
      ensures Valid() && (old(lost) ==> lost) && fifo.taken == old(fifo.taken)
      ensures started ==> (lost <==> old(lost) || |emitted| > |fifo.taken| + Fifo.FIFO_SIZE)
      ensures |vs| == KEYS && Scanned(vs, t, list[..], readings) && emitted == was + AllOut(vs)
      ensures |old(emitted)| <= |emitted|
    {
      hide Agrees, ModsAgree, WellFormed, Scanned, AllOut;
      vs := vs0;
      for b := 0 to 12
        invariant Valid() && (old(lost) ==> lost) && fifo.taken == old(fifo.taken)
        invariant started ==> (lost <==> old(lost) || |emitted| > |fifo.taken| + Fifo.FIFO_SIZE)
        invariant |old(emitted)| <= |emitted|
        invariant |vs| == 56 + b && Scanned(vs, t, list[..], readings) && emitted == was + AllOut(vs)
      {
        vs := ScanKey(56 + b, readings, t, was, vs);
      }
    }

    /** `keyboard_process`: the matrix column by column, then the buttons. `readings` says which
        switches the pins show as closed. A call too soon after the last one does nothing. */
    method KeyboardProcess(now: nat, readings: seq<bool>) returns (scanned: bool, ghost vs: seq<Visit>)
      requires Valid() && now < CLOCK && |readings| == KEYS
      modifies this, list, mods, fifo, fifo.items
      ensures Valid() && (old(lost) ==> lost) && fifo.taken == old(fifo.taken)
      ensures started ==> (lost <==> old(lost) || |emitted| > |fifo.taken| + Fifo.FIFO_SIZE)
      ensures scanned == (Since(now, old(lastProcess)) > KEY_POLL_TIME)
      ensures !scanned ==> emitted == old(emitted) && list[..] == old(list[..]) && lost == old(lost)
      ensures scanned ==> |vs| == KEYS && Scanned(vs, old(list[..]), list[..], readings)
      ensures scanned ==> emitted == old(emitted) + AllOut(vs)
      ensures scanned ==> forall k: nat :: k < KEYS ==>
                Fate(old(list[..]), list[..], k, readings[k], !Present(vs[Turn(k)].before, NO_ENTRY), vs[Turn(k)].out)
      ensures scanned && AllOpen(readings) ==> Quieter(old(list[..]), list[..])
    {
      hide Agrees, ModsAgree, WellFormed, Scanned, AllOut, Quieter, Fate, Turn, Present;
      vs := [];
      if Since(now, lastProcess) <= KEY_POLL_TIME {
        return false, [];
      }
      ghost var t, was := list[..], emitted;
      NoLooks(t, readings);
      vs := ScanMatrix(readings, t, was, vs);
      vs := ScanButtons(readings, t, was, vs);
      if AllOpen(readings) {
        OpenScanQuiets(vs, t, list[..], readings);
      }
      forall k: nat | k < KEYS
        ensures Fate(t, list[..], k, readings[k], !Present(vs[Turn(k)].before, NO_ENTRY), vs[Turn(k)].out)
      {
        KeyFate(vs, t, list[..], readings, k);
      }
      lastProcess := Uptime();
      scanned := true;
    }
  }
}
