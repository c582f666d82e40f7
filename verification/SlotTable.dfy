/** The firmware's table of keys being held, and the stream of events it has reported. */
module SlotTable {
  import opened Keys

  const KEY_LIST_SIZE := 10
  const NO_ENTRY := -1

  datatype Slot = Slot(entry: int, state: KeyState, holdStart: nat, lastRepeat: nat)

  type Table = seq<Slot>

  const EMPTY := Slot(NO_ENTRY, Idle, 0, 0)

  predicate IsDown(state: KeyState) { state == Pressed || state == Hold }

  /** Key k has a slot. */
  ghost predicate Present(t: Table, k: int) { exists i :: 0 <= i < |t| && t[i].entry == k }

  /** Key k has been reported as pressed and not yet as released. */
  ghost predicate Active(t: Table, k: int) { exists i :: 0 <= i < |t| && t[i].entry == k && IsDown(t[i].state) }

  /** No key has two slots; a slot in use is in one of the reported states. */
  ghost predicate WellFormed(t: Table) {
    && (forall i :: 0 <= i < |t| ==>
          NO_ENTRY <= t[i].entry < KEYS && (t[i].entry == NO_ENTRY <==> t[i].state == Idle))
    && (forall i, j :: 0 <= i < j < |t| && t[i].entry != NO_ENTRY ==> t[i].entry != t[j].entry)
  }

  /** How far a slot is from being free again. */
  function Rank(s: Slot): nat {
    match s.state
    case Idle => 0
    case Released => 1
    case Hold => 2
    case Pressed => 3
  }

  /** Rewriting the slot of key k changes what the table says of k only. */
  lemma Rewrite(t: Table, i: nat, s: Slot, k: int)
    requires WellFormed(t) && i < |t| && 0 <= k < KEYS
    requires t[i].entry == k && (s.entry == k || s.entry == NO_ENTRY)
    requires s.entry == NO_ENTRY <==> s.state == Idle
    ensures WellFormed(t[i := s])
    ensures forall q :: 0 <= q != k ==>
              (Active(t[i := s], q) <==> Active(t, q)) && (Present(t[i := s], q) <==> Present(t, q))
    ensures Active(t[i := s], k) <==> IsDown(s.state)
    ensures Present(t[i := s], k) <==> s.entry == k
    ensures Present(t, k) && (Active(t, k) <==> IsDown(t[i].state))
  {
    Elsewhere(t, i, s, k);
    assert t[i := s][i] == s;
  }

  /** The same for giving a free slot to a key that has none. */
  lemma Admit(t: Table, i: nat, s: Slot, k: int)
    requires WellFormed(t) && i < |t| && 0 <= k < KEYS
    requires t[i].entry == NO_ENTRY && s.entry == k && s.state != Idle && !Present(t, k)
    ensures WellFormed(t[i := s])
    ensures forall q :: 0 <= q != k ==>
              (Active(t[i := s], q) <==> Active(t, q)) && (Present(t[i := s], q) <==> Present(t, q))
    ensures Active(t[i := s], k) <==> IsDown(s.state)
    ensures Present(t[i := s], k) && !Active(t, k)
  {
    Elsewhere(t, i, s, k);
    assert t[i := s][i] == s;
  }

  lemma Elsewhere(t: Table, i: nat, s: Slot, k: int)
    requires i < |t| && (t[i].entry == k || t[i].entry == NO_ENTRY) && (s.entry == k || s.entry == NO_ENTRY) && 0 <= k
    ensures forall q :: 0 <= q != k ==>
              (Active(t[i := s], q) <==> Active(t, q)) && (Present(t[i := s], q) <==> Present(t, q))
  {
    var t' := t[i := s];
    forall q | 0 <= q != k
      ensures (Active(t', q) <==> Active(t, q)) && (Present(t', q) <==> Present(t, q))
    {
      if Active(t, q) {
        var j :| 0 <= j < |t| && t[j].entry == q && IsDown(t[j].state);
        assert t'[j] == t[j];
      }
      if Active(t', q) {
        var j :| 0 <= j < |t| && t'[j].entry == q && IsDown(t'[j].state);
        assert t'[j] == t[j];
      }
      if Present(t, q) {
        var j :| 0 <= j < |t| && t[j].entry == q;
        assert t'[j] == t[j];
      }
      if Present(t', q) {
        var j :| 0 <= j < |t| && t'[j].entry == q;
        assert t'[j] == t[j];
      }
    }
  }

  // --- Event streams -------------------------------------------------------------------------

  datatype Phase = Up | Down | Broken

  /** The automaton of (Pressed (Pressed | Hold)* Released)* */
  function Next(ph: Phase, state: KeyState): Phase {
    match (ph, state)
    case (Up, Pressed) => Down
    case (Down, Pressed) => Down
    case (Down, Hold) => Down
    case (Down, Released) => Up
    case _ => Broken
  }

  /** Where the events of physical key p have taken it. */
  function PhaseOf(es: seq<Event>, p: nat): Phase {
    if es == [] then Up
    else
      var e := es[|es| - 1];
      var ph := PhaseOf(es[..|es| - 1], p);
      if ScanToPhys(e.scan) == p then Next(ph, e.state) else ph
  }

  lemma PhaseSnoc(es: seq<Event>, e: Event, p: nat)
    ensures PhaseOf(es + [e], p)
         == if ScanToPhys(e.scan) == p then Next(PhaseOf(es, p), e.state) else PhaseOf(es, p)
  {
    assert (es + [e])[..|es|] == es;
  }

  /** Only real keys and the power button speak, and never of idling. */
  ghost predicate FromKeys(es: seq<Event>) {
    forall e <- es :: e.state != Idle &&
      (ScanToPhys(e.scan) == PK_POWER || exists k: nat :: k < KEYS && k != BLANK_KEY && ScanToPhys(e.scan) == PhysOf(k))
  }

  /** The stream of every key is a prefix of that language, and the key is down in it exactly
      while its slot says so. */
  ghost predicate Agrees(es: seq<Event>, t: Table) {
    && FromKeys(es)
    && forall k: nat :: k < KEYS && k != BLANK_KEY ==>
         PhaseOf(es, PhysOf(k)) == if Active(t, k) then Down else Up
  }

  /** A report of key k moves k's phase and nobody else's. */
  lemma ReportAgrees(es: seq<Event>, t: Table, t': Table, k: nat, e: Event)
    requires Agrees(es, t) && k < KEYS && k != BLANK_KEY && e.state != Idle
    requires ScanToPhys(e.scan) == PhysOf(k)
    requires forall q :: 0 <= q != k ==> (Active(t', q) <==> Active(t, q))
    requires Next(if Active(t, k) then Down else Up, e.state) == if Active(t', k) then Down else Up
    ensures Agrees(es + [e], t')
  {
    hide ScanToPhys, PhysOf, KeyOf;
    forall q: nat | q < KEYS && q != BLANK_KEY
      ensures PhaseOf(es + [e], PhysOf(q)) == if Active(t', q) then Down else Up
    {
      PhaseSnoc(es, e, PhysOf(q));
      KeyOfPhysOf(q);
      KeyOfPhysOf(k);
    }
  }

  /** Nothing is reported when the table keeps what it says, or of the blank position. */
  lemma SilenceAgrees(es: seq<Event>, t: Table, t': Table, k: int)
    requires Agrees(es, t)
    requires forall q :: 0 <= q != k ==> (Active(t', q) <==> Active(t, q))
    requires k == BLANK_KEY || (Active(t', k) <==> Active(t, k))
    ensures Agrees(es, t')
  {
  }

  lemma PowerAgrees(es: seq<Event>, t: Table, e: Event)
    requires Agrees(es, t) && ScanToPhys(e.scan) == PK_POWER && e.state != Idle
    ensures Agrees(es + [e], t)
  {
    hide ScanToPhys, PhysOf, KeyOf;
    forall q: nat | q < KEYS && q != BLANK_KEY
      ensures PhaseOf(es + [e], PhysOf(q)) == PhaseOf(es, PhysOf(q))
    {
      PhaseSnoc(es, e, PhysOf(q));
      KeyOfPhysOf(q);
    }
  }
}
