/** Switches, firmware scanner, event FIFO and Linux driver together. */
module Pipeline {
  import opened Keys
  import opened SlotTable
  import opened DriverSpec
  import Fifo
  import Firmware
  import Scanning
  import KbdDriver

  /** One thing that can happen next. A poll of the driver is some fetches, then a dispatch of
      everything fetched; scans may fall between any two of them. */
  datatype Step =
    | Scan(now: nat, readings: seq<bool>)
    | PowerButton(state: KeyState)
    | Fetch
    | DispatchNext
    | MouseTick

  predicate Possible(step: Step) {
    match step
    case Scan(now, readings) => now < Scanning.CLOCK && |readings| == KEYS
    case PowerButton(state) => state == Pressed || state == Released
    case _ => true
  }

  class System {
    const kb: Firmware.Keyboard
    const fifo: Fifo.EventFifo
    const drv: KbdDriver.Driver
    var batch: seq<Event>            // key_fifo_data: fetched and not yet dispatched
    ghost var seen: seq<Event>       // dispatched

    constructor ()
      ensures Inv() && !kb.lost && seen == [] && batch == [] && fifo.Contents() == []
      ensures forall i :: 0 <= i < kb.list.Length ==> kb.list[i].entry == NO_ENTRY
      ensures fresh(kb) && fresh(kb.list) && fresh(kb.mods) && fresh(fifo) && fresh(fifo.items)
      ensures fresh(drv) && fresh(drv.keyState) && fresh(drv.mover)
    {
      var f := new Fifo.EventFifo();
      fifo := f;
      kb := new Firmware.Keyboard(f, false, true);
      drv := new KbdDriver.Driver();
      batch, seen := [], [];
    }

    ghost predicate Valid()
      reads this, kb, kb.list, kb.mods, fifo, fifo.items, drv, drv.keyState, drv.mover
    {
      && kb.fifo == fifo && kb.started && kb.Valid() && drv.Valid()
      && kb.list as object != drv.keyState && kb.mods as object != drv.keyState && fifo.items as object != drv.keyState
    }

    /** Unless an event found the FIFO full, the driver has seen what the firmware reported,
        in order, up to what is still on its way. */
    ghost predicate Inv()
      reads this, kb, kb.list, kb.mods, fifo, fifo.items, drv, drv.keyState, drv.mover
    {
      && Valid()
      && (forall e <- batch :: e.state != Idle)
      && (!kb.lost ==>
            && fifo.taken == seen + batch
            && kb.emitted == seen + batch + fifo.Contents()
            && (forall e <- seen :: e.state != Idle)
            && drv.State() == DriverSpec.Run(Start(), seen))
    }

    /** `keyboard_process` with the switches as they are: what becomes of each key, what was reported, and whether the
        queue had room for it. */
    method ScanOnce(now: nat, readings: seq<bool>) returns (scanned: bool, ghost vs: seq<Scanning.Visit>)
      requires Inv() && now < Scanning.CLOCK && |readings| == KEYS
      modifies kb, kb.list, kb.mods, fifo, fifo.items
      ensures Inv() && (old(kb.lost) ==> kb.lost)
      ensures fifo.taken == old(fifo.taken)
      ensures kb.lost <==> old(kb.lost) || |kb.emitted| > |fifo.taken| + Fifo.FIFO_SIZE
      ensures scanned == (Scanning.Since(now, old(kb.lastProcess)) > Scanning.KEY_POLL_TIME)
      ensures scanned ==> |vs| == KEYS && Scanning.Scanned(vs, old(kb.list[..]), kb.list[..], readings)
      ensures scanned ==> kb.emitted == old(kb.emitted) + Scanning.AllOut(vs)
      ensures scanned ==> forall k: nat :: k < KEYS ==>
                Scanning.Fate(old(kb.list[..]), kb.list[..], k, readings[k],
                              !Present(vs[Scanning.Turn(k)].before, NO_ENTRY), vs[Scanning.Turn(k)].out)
      ensures scanned && Scanning.AllOpen(readings) ==> Scanning.Quieter(old(kb.list[..]), kb.list[..])
    {
      hide DriverSpec.Run, Agrees, WellFormed, Firmware.ModsAgree, Scanning.Scanned, Scanning.AllOut, Scanning.Fate,
        Scanning.Turn, Scanning.Quieter;
      scanned, vs := kb.KeyboardProcess(now, readings);
    }

    method PowerButtonOnce(state: KeyState)
      requires Inv() && state != Idle
      modifies kb, fifo, fifo.items
      ensures Inv() && (old(kb.lost) ==> kb.lost)
    {
      hide DriverSpec.Run, Agrees, WellFormed, Firmware.ModsAgree;
      kb.PowerEvent(state);
    }

    /** One read of the FIFO register in `input_fw_read_fifo`. */
    method FetchOne() returns (more: bool)
      requires Inv()
      modifies `batch, fifo
      ensures Inv()
      ensures old(fifo.Contents()) == [] ==> !more && batch == old(batch) && fifo.Contents() == []
      ensures !kb.lost && old(fifo.Contents()) != [] ==> more && fifo.Contents() == old(fifo.Contents())[1..]
    {
      hide DriverSpec.Run, Agrees, WellFormed, Firmware.ModsAgree;
      ghost var queued, es := fifo.Contents(), kb.emitted;
      if !kb.lost && queued != [] {
        assert es[|seen + batch|] == queued[0];
        NeverIdle(es, kb.list[..], queued[0]);
      }
      var item := fifo.Dequeue();
      if item.state != Idle {
        batch := batch + [item];
        more := true;
      } else {
        more := false;
      }
    }

    /** One round of the dispatch loop in `input_workqueue_handler`. */
    method DispatchOne()
      requires Inv() && batch != []
      modifies `batch, `seen, drv, drv.keyState, drv.mover
      ensures Inv() && batch == old(batch)[1..]
    {
      hide Dispatch, DriverSpec.Run, Agrees, WellFormed, Firmware.ModsAgree;
      ghost var was, es := seen, kb.emitted;
      var e := batch[0];
      drv.KeyDispatch(ScanToPhys(e.scan), e.state);
      seen := seen + [e];
      batch := batch[1..];
      if !kb.lost {
        RunNext(was, e);
      }
    }

    method TickOnce()
      requires Inv()
      modifies drv, drv.mover
      ensures Inv()
    {
      hide DriverSpec.Run;
      if drv.mover.pending {
        if !kb.lost {
          RunKeeps(seen);
        }
        var _, _ := drv.MouseTick();
      }
    }

    /** `input_fw_read_fifo` and `input_workqueue_handler` undisturbed: at most 31 reads, which
        is as much as the FIFO holds, then everything read is dispatched. */
    method Poll()
      requires Inv()
      modifies `batch, `seen, fifo, drv, drv.keyState, drv.mover
      ensures Inv() && batch == [] && (!kb.lost ==> fifo.Contents() == [])
    {
      var i := 0;
      while i < Fifo.FIFO_SIZE
        invariant 0 <= i <= Fifo.FIFO_SIZE
        invariant Inv()
        invariant !kb.lost ==> |fifo.Contents()| <= Fifo.FIFO_SIZE - i
      {
        var more := FetchOne();
        if !more {
          break;
        }
        i := i + 1;
      }
      while batch != []
        invariant Inv()
        invariant !kb.lost ==> fifo.Contents() == []
        decreases |batch|
      {
        DispatchOne();
      }
    }

    method Do(step: Step)
      requires Inv() && Possible(step)
      modifies this, kb, kb.list, kb.mods, fifo, fifo.items, drv, drv.keyState, drv.mover
      ensures Inv() && (old(kb.lost) ==> kb.lost)
    {
      hide Agrees, WellFormed, Firmware.ModsAgree, DriverSpec.Run;
      match step {
        case Scan(now, readings) =>
          var scanned, _ := ScanOnce(now, readings);
        case PowerButton(state) =>
          PowerButtonOnce(state);
        case Fetch =>
          var more := FetchOne();
        case DispatchNext =>
          if batch != [] {
            DispatchOne();
          }
        case MouseTick =>
          TickOnce();
      }
    }

    /** Any run of the whole keyboard. */
    method Run(steps: seq<Step>)
      requires Inv() && forall s <- steps :: Possible(s)
      modifies this, kb, kb.list, kb.mods, fifo, fifo.items, drv, drv.keyState, drv.mover
      ensures Inv() && (old(kb.lost) ==> kb.lost)
    {
      hide Agrees, WellFormed, Firmware.ModsAgree;
      var i := 0;
      while i < |steps|
        invariant 0 <= i <= |steps|
        invariant Inv() && (old(kb.lost) ==> kb.lost)
      {
        Do(steps[i]);
        i := i + 1;
      }
    }

    /** A scan that finds every switch open, as soon as the firmware is willing to scan again. */
    method OpenScan()
      requires Inv()
      modifies kb, kb.list, kb.mods, fifo, fifo.items
      ensures Inv() && (old(kb.lost) ==> kb.lost)
      ensures fifo.taken == old(fifo.taken) && |kb.emitted| <= |old(kb.emitted)| + KEY_LIST_SIZE
      ensures kb.lost <==> old(kb.lost) || |kb.emitted| > |fifo.taken| + Fifo.FIFO_SIZE
      ensures Scanning.Quieter(old(kb.list[..]), kb.list[..])
    {
      hide Agrees, WellFormed, Firmware.ModsAgree, DriverSpec.Run, Scanning.Quieter, Scanning.Fate, Scanning.Turn,
        Scanning.Scanned, Scanning.Since, Scanning.AllOut, Scanning.Wanting;
      var now := (kb.lastProcess + Scanning.KEY_POLL_TIME + 1) % Scanning.CLOCK;
      SoonEnough(kb.lastProcess);
      var open := seq(KEYS, _ => false);
      ghost var t := kb.list[..];
      ghost var vs;
      var scanned;
      scanned, vs := ScanOnce(now, open);
      Scanning.OpenWants(t, open);
      Scanning.FewReports(vs, t, kb.list[..], open);
    }

    /** Everything is up in Linux once every key's slot is free or released and nothing is on
        its way. */
    lemma NothingStuck()
      requires Inv() && !kb.lost && batch == [] && fifo.Contents() == []
      requires forall i :: 0 <= i < kb.list.Length ==> !IsDown(kb.list[i].state)
      ensures drv.State().down == {} && drv.mover.dirs == {} && !drv.mover.pending && !drv.rshiftReported
      ensures forall q :: 0 <= q < PK_MAX ==> drv.keyState[q] == FREE
    {
      hide DriverSpec.Run;
      assert kb.emitted == seen;
      NoneHeld(seen, kb.list[..]);
      AllUp(seen);
      assert drv.keyState[..] == drv.State().keys;
    }

    /** End to end: after any run at all, two scans with every switch open and one poll leave
        no key, button, shift or mouse motion behind, provided the FIFO never overflowed. */
    method AllReleased(steps: seq<Step>)
      requires Inv() && forall s <- steps :: Possible(s)
      modifies this, kb, kb.list, kb.mods, fifo, fifo.items, drv, drv.keyState, drv.mover
      ensures Inv()
      ensures !kb.lost ==>
                && drv.down == {} && drv.mover.dirs == {} && !drv.mover.pending && !drv.rshiftReported
                && forall q :: 0 <= q < PK_MAX ==> drv.keyState[q] == FREE
    {
      hide Agrees, WellFormed, Firmware.ModsAgree, DriverSpec.Run, Scanning.Quieter;
      Run(steps);
      ghost var t := kb.list[..];
      OpenScan();
      ghost var t' := kb.list[..];
      OpenScan();
      Poll();
      QuietAfterTwo(t, t', kb.list[..]);
      if !kb.lost {
        NothingStuck();
      }
    }
  }

  lemma SoonEnough(last: nat)
    ensures Scanning.Since((last + Scanning.KEY_POLL_TIME + 1) % Scanning.CLOCK, last) > Scanning.KEY_POLL_TIME
  {
  }

  lemma QuietAfterTwo(t: Table, t': Table, t'': Table)
    requires WellFormed(t) && WellFormed(t') && Scanning.Quieter(t, t') && Scanning.Quieter(t', t'')
    ensures forall i :: 0 <= i < |t''| ==> !IsDown(t''[i].state)
  {
  }

  lemma {:induction false} PhaseIsHeld(es: seq<Event>, p: nat)
    requires forall e <- es :: e.state != Idle
    ensures PhaseOf(es, p) != Broken ==> (Held(es, p) <==> PhaseOf(es, p) == Down)
  {
    hide ScanToPhys;
    if es != [] {
      PhaseIsHeld(es[..|es| - 1], p);
    }
  }

  lemma {:induction false} SilentKey(es: seq<Event>, p: nat)
    requires !Concerns(es, p)
    ensures PhaseOf(es, p) == Up
  {
    hide ScanToPhys;
    if es != [] {
      var e := es[|es| - 1];
      assert e in es;
      SilentKey(es[..|es| - 1], p);
    }
  }

  /** When no slot is down, the stream leaves no key held. */
  lemma NoneHeld(es: seq<Event>, t: Table)
    requires Agrees(es, t) && forall i :: 0 <= i < |t| ==> !IsDown(t[i].state)
    ensures forall p :: 0 < p < PK_POWER ==> !Held(es, p)
  {
    hide ScanToPhys, PhysOf;
    forall p | 0 < p < PK_POWER ensures !Held(es, p) {
      PhaseIsHeld(es, p);
      if Concerns(es, p) {
        var e :| e in es && ScanToPhys(e.scan) == p;
      } else {
        SilentKey(es, p);
      }
    }
  }

  lemma NeverIdle(es: seq<Event>, t: Table, e: Event)
    requires Agrees(es, t) && e in es
    ensures e.state != Idle
  {
  }

  lemma RunNext(es: seq<Event>, e: Event)
    requires e.state != Idle && forall x <- es :: x.state != Idle
    ensures forall x <- es + [e] :: x.state != Idle
    ensures Run(Start(), es + [e]) == Dispatch(Run(Start(), es), ScanToPhys(e.scan), e.state)
  {
    assert (es + [e])[..|es|] == es;
  }
}
