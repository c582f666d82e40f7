/** One scan of the keyboard as a change of the slot table: what becomes of each key, from its own switch alone. */
module Scanning {
  import opened Keys
  import opened SlotTable
  import opened RowArithmetic

  const KEY_HOLD_TIME := 300
  const KEY_REPEAT_TIME := 100
  const KEY_POLL_TIME := 16
  const CLOCK := 0x1_0000_0000

  /** Milliseconds between two readings of the 32-bit clock. */
  function Since(now: nat, start: nat): nat { (now - start) % CLOCK }

  /** Keys whose hold is reported as another press. */
  predicate Repeats(sc: nat) {
    32 <= sc <= 127 || sc == 0x0A || sc == 0x09 || sc == 0xD4 || sc == 0x08 || 0xB4 <= sc <= 0xB7
  }

  /** The state reported for key k entering `next`. */
  function Reported(k: nat, next: KeyState): KeyState
    requires k < KEYS
  {
    if next == Hold && Repeats(ScanOf(k)) then Pressed else next
  }

  function Report(k: nat, next: KeyState): seq<Event>
    requires k < KEYS
  {
    if ScanOf(k) != 0 then [Event(ScanOf(k), Reported(k, next))] else []
  }

  /** What one scan makes of a slot in use, given two readings of the clock. */
  function NextState(s: Slot, pressed: bool, now: nat): KeyState {
    match s.state
    case Pressed => if Since(now, s.holdStart) > KEY_HOLD_TIME then Hold else if pressed then Pressed else Released
    case Hold => if pressed then Hold else Released
    case _ => Idle
  }

  predicate Reports(s: Slot, pressed: bool, now: nat, later: nat) {
    match s.state
    case Pressed => NextState(s, pressed, now) != Pressed
    case Hold => !pressed || (Since(now, s.holdStart) > KEY_HOLD_TIME && Since(later, s.lastRepeat) > KEY_REPEAT_TIME)
    case _ => false
  }

  /** A report that a key is still held. */
  predicate Repeated(s: Slot, pressed: bool, now: nat, later: nat) {
    s.state == Hold && pressed && Reports(s, pressed, now, later)
  }

  predicate AllOpen(readings: seq<bool>) { forall k :: 0 <= k < |readings| ==> !readings[k] }

  // --- One key ----------------------------------------------------------------------------------

  /** Slot i, in use by key k, moves on. */
  ghost predicate SlotMoves(t: Table, t': Table, i: int, k: nat, pressed: bool, now: nat, later: nat, out: seq<Event>)
    requires k < KEYS
  {
    && |t'| == |t| && 0 <= i < |t| && t[i].entry == k
    && t' == t[i := t'[i]]
    && t'[i].state == NextState(t[i], pressed, now) && t'[i].holdStart == t[i].holdStart
    && (Repeated(t[i], pressed, now, later) || t'[i].lastRepeat == t[i].lastRepeat)
    && t'[i].entry == (if t[i].state == Released then NO_ENTRY else k)
    && out == if Reports(t[i], pressed, now, later) then Report(k, t'[i].state) else []
  }

  /** The first free slot is taken by key k. */
  ghost predicate SlotTaken(t: Table, t': Table, i: int, k: nat, out: seq<Event>)
    requires k < KEYS
  {
    && |t'| == |t| && 0 <= i < |t| && t[i].entry == NO_ENTRY && (forall j :: 0 <= j < i ==> t[j].entry != NO_ENTRY)
    && t' == t[i := t'[i]]
    && t'[i].entry == k && t'[i].state == Pressed
    && out == Report(k, Pressed)
  }

  /** Looking at one switch. */
  ghost predicate KeyStep(t: Table, t': Table, k: nat, pressed: bool, out: seq<Event>)
    requires k < KEYS
  {
    if Present(t, k) then exists i, now: nat, later: nat :: SlotMoves(t, t', i, k, pressed, now, later, out)
    else if pressed && Present(t, NO_ENTRY) then exists i :: SlotTaken(t, t', i, k, out)
    else t' == t && out == []
  }

  // --- Holding a key ------------------------------------------------------------------------------

  /** The clock counts 49 days before it starts over; up to then differences are right across the wrap. */
  lemma SinceIs(start: nat, now: nat)
    requires start <= now < start + CLOCK
    ensures Since(now % CLOCK, start % CLOCK) == now - start
  {
  }

  /** A key that went down `start` milliseconds after power-up, looked at by `now`: in its first 300 ms it is reported
      released as soon as it is found open and otherwise left alone; after that it is reported once more whatever its
      switch; and from then on again and again while it is closed, at least 100 ms apart, until it is found open. Its
      holds are reported as presses if it repeats. */
  lemma HeldKey(s: Slot, k: nat, pressed: bool, start: nat, now: nat, last: nat, later: nat)
    requires k < KEYS && start <= now < start + CLOCK && last <= later < last + CLOCK
    requires s.entry == k && s.holdStart == start % CLOCK && s.lastRepeat == last % CLOCK
    ensures var next, reports := NextState(s, pressed, now % CLOCK), Reports(s, pressed, now % CLOCK, later % CLOCK);
            && (s.state == Pressed && now - start > 300 ==> next == Hold && reports)
            && (s.state == Pressed && now - start <= 300 ==>
                  next == (if pressed then Pressed else Released) && reports == !pressed)
            && (s.state == Hold && pressed ==> next == Hold && reports == (now - start > 300 && later - last > 100))
            && (s.state == Hold && !pressed ==> next == Released && reports)
            && (s.state == Released ==> next == Idle && !reports)
    ensures ScanOf(k) != 0 ==>
              Report(k, Hold) == [Event(ScanOf(k), if Repeats(ScanOf(k)) then Pressed else Hold)]
              && Report(k, Released) == [Event(ScanOf(k), Released)]
              && Report(k, Pressed) == [Event(ScanOf(k), Pressed)]
  {
    hide Since, ScanOf;
    SinceIs(start, now);
    SinceIs(last, later);
  }

  /** All keys repeat but F1 to F5, Caps Lock, Esc and the four modifiers. */
  lemma RepeatingKeys(k: nat)
    requires k < KEYS
    ensures Repeats(ScanOf(k)) <==> !(k < 5 || k == 10 || k == 12 || 55 <= k < 60)
  {
    hide ScanOf, ScanToPhys, KeyOf;
    if k < 8 { Row0(); } else if k < 16 { Row1(); } else if k < 24 { Row2(); }
    else if k < 32 { Row3(); } else if k < 40 { Row4(); } else if k < 48 { Row5(); }
    else if k < 55 { Row6(); } else if k == 55 { BlankScan(); } else if k < 62 { ModifierButtons(); }
    else { ArrowButtons(); }
  }

  lemma BlankScan()
    ensures ScanOf(BLANK_KEY) == 0
  {
  }

  // --- The whole scan ---------------------------------------------------------------------------

  /** The n-th key a scan looks at: the matrix column by column, then the buttons. */
  function Order(n: nat): nat { if n < 56 then n % 7 * 8 + n / 7 else n }

  function Turn(k: nat): (n: nat)
    ensures k < KEYS ==> n < KEYS
  {
    if k < 56 then k % 8 * 7 + k / 8 else k
  }

  lemma TurnOf(k: nat)
    requires k < KEYS
    ensures Turn(k) < KEYS && Order(Turn(k)) == k
  {
    if k < 56 {
      DivRow(k % 8, 7, k / 8);
    }
  }

  lemma TurnOnce(n: nat)
    requires n < KEYS
    ensures Order(n) < KEYS && Turn(Order(n)) == n
  {
    if n < 56 {
      DivRow(n % 7, 8, n / 7);
    }
  }

  /** The key in row r of column c has its turn. */
  lemma OrderAt(c: nat, r: nat)
    requires c < 8 && r < 7
    ensures Order(c * 7 + r) == r * 8 + c
  {
    DivRow(c, 7, r);
  }

  /** A look at one switch: the table before and after it, and what was reported. */
  datatype Visit = Visit(before: Table, after: Table, out: seq<Event>)

  /** The first |vs| looks of a scan, which take the table from t to t'. */
  ghost predicate Scanned(vs: seq<Visit>, t: Table, t': Table, readings: seq<bool>) {
    && |vs| <= KEYS == |readings|
    && t' == TableAt(vs, t, |vs|)
    && forall n :: 0 <= n < |vs| ==> vs[n].before == TableAt(vs, t, n) && Looked(vs[n], Order(n), readings)
  }

  /** The table after n looks. */
  ghost function TableAt(vs: seq<Visit>, t: Table, n: nat): Table
    requires n <= |vs|
  {
    if n == 0 then t else vs[n - 1].after
  }

  ghost predicate Looked(v: Visit, k: nat, readings: seq<bool>) requires |readings| == KEYS {
    k < KEYS && WellFormed(v.before) && |v.before| == KEY_LIST_SIZE && KeyStep(v.before, v.after, k, readings[k], v.out)
  }

  /** Everything reported, in order. */
  ghost function AllOut(vs: seq<Visit>): seq<Event> {
    if vs == [] then [] else AllOut(vs[..|vs| - 1]) + vs[|vs| - 1].out
  }

  lemma NoLooks(t: Table, readings: seq<bool>)
    requires |readings| == KEYS
    ensures Scanned([], t, t, readings) && AllOut([]) == []
  {
  }

  lemma LookOnce(vs: seq<Visit>, t: Table, b: Table, a: Table, readings: seq<bool>, out: seq<Event>)
    requires |vs| < KEYS && Scanned(vs, t, b, readings) && Order(|vs|) < KEYS
    requires WellFormed(b) && |b| == KEY_LIST_SIZE && KeyStep(b, a, Order(|vs|), readings[Order(|vs|)], out)
    ensures Scanned(vs + [Visit(b, a, out)], t, a, readings) && AllOut(vs + [Visit(b, a, out)]) == AllOut(vs) + out
  {
    hide KeyStep, Order, WellFormed, AllOut, Looked;
    var v, vs' := Visit(b, a, out), vs + [Visit(b, a, out)];
    AllOutSnoc(vs, v);
    assert Looked(v, Order(|vs|), readings) by { LookedIs(v, Order(|vs|), readings); }
    forall n | 0 <= n < |vs'| ensures vs'[n].before == TableAt(vs', t, n) && Looked(vs'[n], Order(n), readings) {
      if n < |vs| {
        assert vs[n].before == TableAt(vs, t, n) && Looked(vs[n], Order(n), readings);
        assert vs'[n] == vs[n] && TableAt(vs', t, n) == TableAt(vs, t, n);
      }
    }
  }

  lemma LookedIs(v: Visit, k: nat, readings: seq<bool>)
    requires |readings| == KEYS && k < KEYS && WellFormed(v.before) && |v.before| == KEY_LIST_SIZE
    requires KeyStep(v.before, v.after, k, readings[k], v.out)
    ensures Looked(v, k, readings)
  {
  }

  lemma AllOutSnoc(vs: seq<Visit>, v: Visit)
    ensures AllOut(vs + [v]) == AllOut(vs) + v.out
  {
    assert (vs + [v])[..|vs|] == vs;
  }

  /** What the tables say of key k is the same. */
  ghost predicate SameFor(t: Table, t': Table, k: int) {
    |t'| == |t| && forall i :: 0 <= i < |t| && (t[i].entry == k || t'[i].entry == k) ==> t'[i] == t[i]
  }

  lemma SameSelf(t: Table, k: int)
    ensures SameFor(t, t, k)
  {
  }

  lemma SameTwice(t: Table, t': Table, t'': Table, k: int)
    requires SameFor(t, t', k) && SameFor(t', t'', k)
    ensures SameFor(t, t'', k)
  {
  }

  lemma OthersKept(t: Table, t': Table, q: nat, pressed: bool, out: seq<Event>, k: nat)
    requires q < KEYS && k != q && KeyStep(t, t', q, pressed, out)
    ensures SameFor(t, t', k)
  {
  }

  lemma LookAt(vs: seq<Visit>, t: Table, t': Table, readings: seq<bool>, n: nat)
    requires Scanned(vs, t, t', readings) && n < |vs|
    ensures |vs| <= KEYS == |readings| && vs[n].before == (if n == 0 then t else vs[n - 1].after)
    ensures Order(n) < KEYS && KeyStep(vs[n].before, vs[n].after, Order(n), readings[Order(n)], vs[n].out)
  {
    hide KeyStep, Order;
    assert Looked(vs[n], Order(n), readings) && vs[n].before == TableAt(vs, t, n);
  }

  lemma {:induction false} BeforeTurn(vs: seq<Visit>, t: Table, t': Table, readings: seq<bool>, k: nat, n: nat)
    requires Scanned(vs, t, t', readings) && k < KEYS && n < |vs| && n <= Turn(k)
    ensures SameFor(t, vs[n].before, k)
  {
    hide KeyStep, Order, Turn, Scanned, SameFor;
    LookAt(vs, t, t', readings, n);
    SameSelf(t, k);
    if n > 0 {
      BeforeTurn(vs, t, t', readings, k, n - 1);
      LookAt(vs, t, t', readings, n - 1);
      TurnOnce(n - 1);
      var v := vs[n - 1];
      OthersKept(v.before, v.after, Order(n - 1), readings[Order(n - 1)], v.out, k);
      SameTwice(t, v.before, v.after, k);
    }
  }

  lemma {:induction false} AfterTurn(vs: seq<Visit>, t: Table, t': Table, readings: seq<bool>, k: nat, n: nat)
    requires Scanned(vs, t, t', readings) && k < KEYS && Turn(k) <= n < |vs|
    ensures SameFor(vs[Turn(k)].after, vs[n].after, k)
  {
    hide KeyStep, Order, Turn, Scanned, SameFor;
    SameSelf(vs[n].after, k);
    if n > Turn(k) {
      AfterTurn(vs, t, t', readings, k, n - 1);
      LookAt(vs, t, t', readings, n);
      TurnOnce(n);
      var v := vs[n];
      OthersKept(v.before, v.after, Order(n), readings[Order(n)], v.out, k);
      SameTwice(vs[Turn(k)].after, v.before, v.after, k);
    }
  }

  /** A key that had slot i at the start of the scan. */
  ghost predicate Continues(t: Table, t': Table, i: int, k: nat, pressed: bool, now: nat, later: nat, out: seq<Event>)
    requires k < KEYS
  {
    && |t'| == |t| && 0 <= i < |t| && t[i].entry == k
    && (if t[i].state == Released then !Present(t', k)
        else && t'[i].entry == k && t'[i].holdStart == t[i].holdStart
             && t'[i].state == NextState(t[i], pressed, now)
             && (Repeated(t[i], pressed, now, later) || t'[i].lastRepeat == t[i].lastRepeat))
    && out == if Reports(t[i], pressed, now, later) then Report(k, NextState(t[i], pressed, now)) else []
  }

  /** What a scan makes of a key by its own switch: a slot it had moves on by the time its press has lasted and by the
      switch; without one, closed, it gets one and is reported pressed unless all are taken; otherwise nothing. */
  ghost predicate Fate(t: Table, t': Table, k: nat, pressed: bool, full: bool, out: seq<Event>)
    requires k < KEYS
  {
    if Present(t, k) then exists i, now: nat, later: nat :: Continues(t, t', i, k, pressed, now, later, out)
    else if pressed && !full then
      (exists i :: 0 <= i < |t'| && t'[i].entry == k && t'[i].state == Pressed) && out == Report(k, Pressed)
    else !Present(t', k) && out == []
  }

  lemma KeyFate(vs: seq<Visit>, t: Table, t': Table, readings: seq<bool>, k: nat)
    requires |vs| == KEYS && Scanned(vs, t, t', readings) && k < KEYS
    ensures Fate(t, t', k, readings[k], !Present(vs[Turn(k)].before, NO_ENTRY), vs[Turn(k)].out)
  {
    hide KeyStep, Order, Turn, Fate;
    TurnOf(k);
    var v := vs[Turn(k)];
    BeforeTurn(vs, t, t', readings, k, Turn(k));
    AfterTurn(vs, t, t', readings, k, KEYS - 1);
    assert Looked(v, k, readings);
    FateOf(t, v.before, v.after, t', k, readings[k], v.out);
  }

  lemma FateOf(t: Table, b: Table, a: Table, t': Table, k: nat, pressed: bool, out: seq<Event>)
    requires k < KEYS && SameFor(t, b, k) && SameFor(a, t', k) && KeyStep(b, a, k, pressed, out) && WellFormed(b)
    ensures Fate(t, t', k, pressed, !Present(b, NO_ENTRY), out)
  {
    hide NextState, Reports, Report;
    PresentSame(t, b, k);
    PresentSame(a, t', k);
    if Present(t, k) {
      var i, now: nat, later: nat :| SlotMoves(b, a, i, k, pressed, now, later, out);
      assert Continues(t, t', i, k, pressed, now, later, out);
    } else if pressed && Present(b, NO_ENTRY) {
      var i :| SlotTaken(b, a, i, k, out);
      assert t'[i].entry == k && t'[i].state == Pressed;
    }
  }

  lemma PresentSame(t: Table, t': Table, k: int)
    requires SameFor(t, t', k)
    ensures Present(t, k) <==> Present(t', k)
  {
    if Present(t, k) {
      var i :| 0 <= i < |t| && t[i].entry == k;
      assert t'[i].entry == k;
    }
    if Present(t', k) {
      var i :| 0 <= i < |t'| && t'[i].entry == k;
      assert t[i].entry == k;
    }
  }

  // --- Room for ten keys --------------------------------------------------------------------------

  /** The keys that have a slot or ask for one. */
  ghost function Wanting(t: Table, readings: seq<bool>): (ks: set<nat>)
    requires |readings| == KEYS
    ensures forall k: nat :: k in ks <==> k < KEYS && (Present(t, k) || readings[k])
  {
    set k: nat | k < KEYS && (Present(t, k) || readings[k])
  }

  lemma OneReadingEach(vs: seq<Visit>, t: Table, t': Table, readings: seq<bool>)
    requires Scanned(vs, t, t', readings)
    ensures |readings| == KEYS && t' == TableAt(vs, t, |vs|)
  {
  }

  lemma RoomForOne(t: Table, b: Table, readings: seq<bool>, k: nat)
    requires |readings| == KEYS && k < KEYS && |Wanting(t, readings)| <= KEY_LIST_SIZE && readings[k]
    requires WellFormed(b) && |b| == KEY_LIST_SIZE && !Present(b, k)
    requires forall q: nat :: q < KEYS && Present(b, q) ==> Present(t, q) || readings[q]
    ensures Present(b, NO_ENTRY)
  {
    if !Present(b, NO_ENTRY) {
      FullTable(b);
      EntriesAreKeys(b);
      var ks, all := Entries(b, |b|), Wanting(t, readings);
      assert ks <= all - {k};
      SubsetSize(ks, all - {k});
      assert false;
    }
  }

  lemma EntriesAreKeys(t: Table)
    requires WellFormed(t)
    ensures forall k :: Present(t, k) ==> k < KEYS
  {
  }

  /** With at most ten such keys none is missed: a closed key that had no slot has one after the scan and has been
      reported pressed. */
  lemma TenKeys(vs: seq<Visit>, t: Table, t': Table, readings: seq<bool>, k: nat)
    requires |vs| == KEYS && Scanned(vs, t, t', readings) && k < KEYS
    requires |Wanting(t, readings)| <= KEY_LIST_SIZE && readings[k] && !Present(t, k)
    ensures Present(t', k) && vs[Turn(k)].out == Report(k, Pressed)
  {
    hide KeyStep, Order, Turn, Scanned, Present;
    assert |readings| == KEYS by { OneReadingEach(vs, t, t', readings); }
    KeyFate(vs, t, t', readings, k);
    BeforeIsWanting(vs, t, t', readings, k);
    RoomForOne(t, vs[Turn(k)].before, readings, k);
    GotSlot(t, t', k, vs[Turn(k)].out);
  }

  lemma GotSlot(t: Table, t': Table, k: nat, out: seq<Event>)
    requires k < KEYS && !Present(t, k) && Fate(t, t', k, true, false, out)
    ensures Present(t', k) && out == Report(k, Pressed)
  {
  }

  /** The keys of the first n slots. */
  ghost function Entries(t: Table, n: nat): set<nat>
    requires n <= |t| && forall i :: 0 <= i < |t| ==> 0 <= t[i].entry
  {
    if n == 0 then {} else Entries(t, n - 1) + {t[n - 1].entry}
  }

  lemma {:induction false} EntriesAre(t: Table, n: nat)
    requires n <= |t| && forall i :: 0 <= i < |t| ==> 0 <= t[i].entry
    ensures forall k :: k in Entries(t, n) <==> exists i :: 0 <= i < n && t[i].entry == k
  {
    if n > 0 {
      EntriesAre(t, n - 1);
    }
  }

  lemma {:induction false} EntriesCount(t: Table, n: nat)
    requires n <= |t| && forall i :: 0 <= i < |t| ==> 0 <= t[i].entry
    requires forall i, j :: 0 <= i < j < |t| ==> t[i].entry != t[j].entry
    ensures |Entries(t, n)| == n
  {
    if n > 0 {
      EntriesCount(t, n - 1);
      EntriesAre(t, n - 1);
      assert t[n - 1].entry !in Entries(t, n - 1);
    }
  }

  lemma FullTable(t: Table)
    requires WellFormed(t) && !Present(t, NO_ENTRY)
    ensures forall i :: 0 <= i < |t| ==> 0 <= t[i].entry
    ensures |Entries(t, |t|)| == |t| && forall k :: k in Entries(t, |t|) <==> Present(t, k)
  {
    EntriesAre(t, |t|);
    EntriesCount(t, |t|);
  }

  lemma SubsetSize(a: set<nat>, b: set<nat>)
    requires a <= b
    ensures |a| <= |b|
  {
    assert b == a + (b - a);
  }

  /** Whoever has a slot when it is key k's turn had one before or was found closed. */
  lemma BeforeIsWanting(vs: seq<Visit>, t: Table, t': Table, readings: seq<bool>, k: nat)
    requires |vs| == KEYS && Scanned(vs, t, t', readings) && k < KEYS && !Present(t, k)
    ensures WellFormed(vs[Turn(k)].before) && |vs[Turn(k)].before| == KEY_LIST_SIZE
    ensures !Present(vs[Turn(k)].before, k)
    ensures forall q: nat :: q < KEYS && Present(vs[Turn(k)].before, q) ==> Present(t, q) || readings[q]
  {
    hide KeyStep, Order, Turn;
    TurnOf(k);
    assert Looked(vs[Turn(k)], Order(Turn(k)), readings);
    var b := vs[Turn(k)].before;
    BeforeTurn(vs, t, t', readings, k, Turn(k));
    PresentSame(t, b, k);
    forall q: nat | q < KEYS && Present(b, q) ensures Present(t, q) || readings[q] {
      AllAlong(vs, t, t', readings, q, Turn(k));
    }
  }

  /** During the scan, too, a key has a slot only if it had one before or is closed. */
  lemma {:induction false} AllAlong(vs: seq<Visit>, t: Table, t': Table, readings: seq<bool>, q: nat, n: nat)
    requires Scanned(vs, t, t', readings) && q < KEYS && n < |vs|
    ensures Present(vs[n].before, q) ==> Present(t, q) || readings[q]
  {
    hide Order, WellFormed, NextState, Reports, Report;
    assert Looked(vs[n], Order(n), readings);
    if n > 0 {
      AllAlong(vs, t, t', readings, q, n - 1);
      assert Looked(vs[n - 1], Order(n - 1), readings);
      NotFromNowhere(vs[n - 1].before, vs[n - 1].after, Order(n - 1), readings[Order(n - 1)], vs[n - 1].out, q);
    }
  }

  lemma NotFromNowhere(t: Table, t': Table, k: nat, pressed: bool, out: seq<Event>, q: nat)
    requires k < KEYS && KeyStep(t, t', k, pressed, out)
    ensures Present(t', q) ==> Present(t, q) || (q == k && pressed)
  {
    hide NextState, Reports, Report;
    if q != k {
      OthersKept(t, t', k, pressed, out, q);
      PresentSame(t, t', q);
    }
  }

  /** The wanting keys whose turn is among the first n. */
  ghost function Heard(t: Table, readings: seq<bool>, n: nat): set<nat>
    requires |readings| == KEYS
  {
    set k | k in Wanting(t, readings) && Turn(k) < n
  }

  /** A scan reports each such key at most once and no other. */
  lemma FewReports(vs: seq<Visit>, t: Table, t': Table, readings: seq<bool>)
    requires |vs| == KEYS && Scanned(vs, t, t', readings)
    ensures |readings| == KEYS && |AllOut(vs)| <= |Wanting(t, readings)|
  {
    hide Turn, Scanned, Wanting, AllOut;
    OneReadingEach(vs, t, t', readings);
    FewSoFar(vs, t, t', readings, KEYS);
    assert vs[..KEYS] == vs;
    SubsetSize(Heard(t, readings, KEYS), Wanting(t, readings));
  }

  lemma {:induction false} FewSoFar(vs: seq<Visit>, t: Table, t': Table, readings: seq<bool>, n: nat)
    requires |vs| == KEYS == |readings| && Scanned(vs, t, t', readings) && n <= KEYS
    ensures |AllOut(vs[..n])| <= |Heard(t, readings, n)|
  {
    hide Turn, Order, Scanned, Fate;
    if n > 0 {
      FewSoFar(vs, t, t', readings, n - 1);
      assert vs[..n][..n - 1] == vs[..n - 1];
      TurnOnce(n - 1);
      var k, before, after := Order(n - 1), Heard(t, readings, n - 1), Heard(t, readings, n);
      KeyFate(vs, t, t', readings, k);
      AtMostOne(t, t', k, readings[k], !Present(vs[Turn(k)].before, NO_ENTRY), vs[Turn(k)].out);
      if vs[n - 1].out != [] {
        assert k in after && k !in before;
        assert before + {k} <= after;
        SubsetSize(before + {k}, after);
      } else {
        SubsetSize(before, after);
      }
    }
  }

  lemma AtMostOne(t: Table, t': Table, k: nat, pressed: bool, full: bool, out: seq<Event>)
    requires k < KEYS && Fate(t, t', k, pressed, full, out)
    ensures |out| <= 1 && (out != [] ==> Present(t, k) || pressed)
  {
    hide NextState, Reports;
  }

  /** The keys with one of the first n slots. */
  ghost function Users(t: Table, n: nat): (ks: set<nat>)
    requires n <= |t|
    ensures |ks| <= n && forall i :: 0 <= i < n && 0 <= t[i].entry ==> t[i].entry in ks
  {
    if n == 0 then {} else if t[n - 1].entry < 0 then Users(t, n - 1) else Users(t, n - 1) + {t[n - 1].entry}
  }

  /** With every switch open no more keys are wanting than there are slots. */
  lemma OpenWants(t: Table, readings: seq<bool>)
    requires |readings| == KEYS && AllOpen(readings)
    ensures |Wanting(t, readings)| <= |t|
  {
    SubsetSize(Wanting(t, readings), Users(t, |t|));
  }

  /** When every key with a slot stays closed, slots in use are down after the scan as before. */
  lemma StillDown(t: Table, t': Table, readings: seq<bool>, full: seq<bool>, outs: seq<seq<Event>>)
    requires |readings| == KEYS == |full| == |outs| && WellFormed(t')
    requires forall k: nat :: k < KEYS ==> Fate(t, t', k, readings[k], full[k], outs[k])
    requires forall k: nat :: k < KEYS && Present(t, k) ==> readings[k]
    requires forall i :: 0 <= i < |t| && t[i].entry != NO_ENTRY ==> IsDown(t[i].state)
    ensures forall i :: 0 <= i < |t'| && t'[i].entry != NO_ENTRY ==> IsDown(t'[i].state)
    ensures forall k: nat :: k < KEYS && Present(t', k) ==> Present(t, k) || readings[k]
  {
    hide Since, Report;
    forall i | 0 <= i < |t'| && t'[i].entry != NO_ENTRY ensures IsDown(t'[i].state) {
      var k: nat := t'[i].entry;
      assert Present(t', k) && Fate(t, t', k, readings[k], full[k], outs[k]);
      if Present(t, k) {
        var j, now: nat, later: nat :| Continues(t, t', j, k, readings[k], now, later, outs[k]);
        assert IsDown(t[j].state) && j == i;
      }
    }
  }

  // --- A scan that finds every switch open -----------------------------------------------------------

  /** Every slot in use has come closer to being free, and none was taken. */
  ghost predicate Quieter(t: Table, t': Table) {
    |t'| == |t| && forall j :: 0 <= j < |t| ==>
      if t[j].entry == NO_ENTRY then t'[j] == t[j] else Rank(t'[j]) < Rank(t[j])
  }

  lemma OpenScanQuiets(vs: seq<Visit>, t: Table, t': Table, readings: seq<bool>)
    requires |vs| == KEYS && Scanned(vs, t, t', readings) && AllOpen(readings) && WellFormed(t) && WellFormed(t')
    ensures Quieter(t, t')
  {
    hide KeyStep, Order, Turn, Fate, Scanned;
    FreeStays(vs, t, t', readings, KEYS);
    assert |readings| == KEYS && TableAt(vs, t, KEYS) == t' by { OneReadingEach(vs, t, t', readings); }
    forall j | 0 <= j < |t| && t[j].entry != NO_ENTRY ensures Rank(t'[j]) < Rank(t[j]) {
      var k: nat := t[j].entry;
      KeyFate(vs, t, t', readings, k);
      Quietens(t, t', j, !Present(vs[Turn(k)].before, NO_ENTRY), vs[Turn(k)].out);
    }
  }

  lemma Quietens(t: Table, t': Table, j: nat, full: bool, out: seq<Event>)
    requires WellFormed(t) && WellFormed(t') && j < |t| == |t'| && t[j].entry != NO_ENTRY
    requires Fate(t, t', t[j].entry, false, full, out)
    requires t'[j].entry == t[j].entry || t'[j].entry == NO_ENTRY
    ensures Rank(t'[j]) < Rank(t[j])
  {
    var k: nat := t[j].entry;
    assert Present(t, k);
    var i, now: nat, later: nat :| Continues(t, t', i, k, false, now, later, out);
    assert i == j;
  }

  /** With every switch open free slots stay as they are and the others keep their key or lose it. */
  lemma {:induction false} FreeStays(vs: seq<Visit>, t: Table, t': Table, readings: seq<bool>, n: nat)
    requires Scanned(vs, t, t', readings) && AllOpen(readings) && n <= |vs|
    ensures var b := TableAt(vs, t, n);
            && |b| == |t|
            && forall j :: 0 <= j < |t| ==>
                 if t[j].entry == NO_ENTRY then b[j] == t[j] else b[j].entry == t[j].entry || b[j].entry == NO_ENTRY
  {
    hide Order, WellFormed, KeyStep;
    if n > 0 {
      FreeStays(vs, t, t', readings, n - 1);
      var v := vs[n - 1];
      assert Looked(v, Order(n - 1), readings) && v.before == TableAt(vs, t, n - 1);
      OpenStep(v.before, v.after, Order(n - 1), v.out);
    }
  }

  lemma OpenStep(t: Table, t': Table, k: nat, out: seq<Event>)
    requires k < KEYS && KeyStep(t, t', k, false, out)
    ensures |t'| == |t|
    ensures forall j :: 0 <= j < |t| ==>
              if t[j].entry == NO_ENTRY then t'[j] == t[j] else t'[j].entry == t[j].entry || t'[j].entry == NO_ENTRY
  {
    hide NextState, Reports, Report;
  }
}
