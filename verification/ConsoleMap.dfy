/** Which framebuffer each virtual console uses, and which framebuffers fbcon holds open for that:
    `set_con2fb_map`, `fbcon_fb_unbind` and `fbcon_release_all`. */
module ConsoleMap {
  const MAX_NR_CONSOLES := 63
  const FB_MAX := 32
  const NONE := -1

  /** Calls that reach a framebuffer driver, in order. */
  datatype Event = Opened(fb: int) | Released(fb: int)

  /** How `fbcon_open` ends: the driver may refuse, or memory may run out after it accepted. */
  datatype OpenOutcome = OpenOk | NoDevice | NoMemory

  datatype Status = Success | Invalid | OpenFailed | TakenOver | TakeoverFailed

  /** Some console in first..last uses framebuffer `fb`. */
  ghost predicate Maps(m: seq<int>, first: nat, last: int, fb: int) {
    exists i :: first <= i <= last && i < |m| && m[i] == fb
  }

  ghost predicate AnyMapped(m: seq<int>, first: nat, last: int) {
    exists i :: first <= i <= last && i < |m| && m[i] != NONE
  }

  /** Opens less releases of one framebuffer. */
  function Balance(log: seq<Event>, fb: int): int {
    if log == [] then 0
    else Balance(log[..|log| - 1], fb) +
         if log[|log| - 1] == Opened(fb) then 1 else if log[|log| - 1] == Released(fb) then -1 else 0
  }

  /** Never opens while open, never released while closed, at any point of the log. */
  predicate Alternates(log: seq<Event>, fb: int) {
    0 <= Balance(log, fb) <= 1 && (log == [] || Alternates(log[..|log| - 1], fb))
  }

  lemma Appended(log: seq<Event>, e: Event, fb: int)
    ensures Balance(log + [e], fb) ==
            Balance(log, fb) + if e == Opened(fb) then 1 else if e == Released(fb) then -1 else 0
    ensures Alternates(log + [e], fb) <==> Alternates(log, fb) && 0 <= Balance(log + [e], fb) <= 1
  {
    assert (log + [e])[..|log + [e]| - 1] == log;
  }

  /** The claim about one framebuffer: open, once, exactly while a console in range uses it. */
  ghost predicate InStep(m: seq<int>, first: nat, last: int, registered: set<int>, par: set<int>,
                         log: seq<Event>, fb: int) {
    && Alternates(log, fb)
    && Balance(log, fb) == (if Maps(m, first, last, fb) then 1 else 0)
    && (fb in par <==> Maps(m, first, last, fb))
    && (Maps(m, first, last, fb) ==> fb in registered)
  }

  ghost predicate Inv(m: seq<int>, first: nat, last: int, registered: set<int>, par: set<int>, log: seq<Event>) {
    forall fb :: fb != NONE ==> InStep(m, first, last, registered, par, log, fb)
  }

  lemma MapsAfter(m: seq<int>, first: nat, last: int, unit: nat, v: int, fb: int)
    requires unit < |m|
    ensures !(first <= unit <= last) ==> (Maps(m[unit := v], first, last, fb) <==> Maps(m, first, last, fb))
    ensures first <= unit <= last && fb == v ==> Maps(m[unit := v], first, last, fb)
    ensures fb != v && fb != m[unit] ==> (Maps(m[unit := v], first, last, fb) <==> Maps(m, first, last, fb))
    ensures fb != v && Maps(m[unit := v], first, last, fb) ==> Maps(m, first, last, fb)
    ensures first <= unit <= last ==> Maps(m, first, last, m[unit])
  {
    var n := m[unit := v];
    if first <= unit <= last && fb == v {
      assert n[unit] == fb;
    }
    if Maps(m, first, last, fb) && (fb != m[unit] || !(first <= unit <= last)) {
      var i :| first <= i <= last && i < |m| && m[i] == fb;
      assert n[i] == fb;
    }
    if Maps(n, first, last, fb) && (fb != v || !(first <= unit <= last)) {
      var i :| first <= i <= last && i < |n| && n[i] == fb;
      assert m[i] == fb;
    }
  }

  /** What mapping `unit` to `v` does to the log and to the set of framebuffers with console state. */
  ghost function Acquire(m: seq<int>, first: nat, last: int, v: int): (events: seq<Event>) {
    if Maps(m, first, last, v) then [] else [Opened(v)]
  }

  ghost function Retire(m: seq<int>, first: nat, last: int, registered: set<int>, was: int): (events: seq<Event>) {
    if was != NONE && was in registered && !Maps(m, first, last, was) then [Released(was)] else []
  }

  /** A call outside first..last breaks the claim unless it neither opens nor releases. */
  ghost predicate Harmless(m: seq<int>, first: nat, last: int, registered: set<int>, unit: nat, v: int)
    requires unit < |m|
  {
    || first <= unit <= last
    || (Maps(m, first, last, v) && (m[unit] == NONE || m[unit] !in registered || Maps(m, first, last, m[unit])))
  }

  /** One remapping keeps the claim, for every console number, exactly when it is harmless. */
  lemma RemapKeeps(m: seq<int>, first: nat, last: int, registered: set<int>, par: set<int>, log: seq<Event>,
                   unit: nat, v: int)
    requires Inv(m, first, last, registered, par, log)
    requires unit < |m| && v != NONE && v in registered && m[unit] != v
    ensures var n := m[unit := v];
            var opens := Acquire(m, first, last, v);
            var closes := Retire(n, first, last, registered, m[unit]);
            var par' := (if opens == [] then par else par + {v}) - (if closes == [] then {} else {m[unit]});
            Inv(n, first, last, registered, par', log + opens + closes) <==>
            Harmless(m, first, last, registered, unit, v)
  {
    hide Maps, Balance, Alternates;
    var was, n := m[unit], m[unit := v];
    var opens := Acquire(m, first, last, v);
    var closes := Retire(n, first, last, registered, was);
    var log1 := log + opens;
    var par' := (if opens == [] then par else par + {v}) - (if closes == [] then {} else {was});
    assert log + opens + closes == log1 + closes;
    forall fb | fb != NONE
      ensures fb != v && fb != was ==> InStep(n, first, last, registered, par', log1 + closes, fb)
      ensures Balance(log1 + closes, fb) ==
              Balance(log, fb) + (if fb == v && opens != [] then 1 else 0)
                - (if fb == was && closes != [] then 1 else 0)
      ensures Harmless(m, first, last, registered, unit, v) ==>
                InStep(n, first, last, registered, par', log1 + closes, fb)
    {
      assert InStep(m, first, last, registered, par, log, fb);
      MapsAfter(m, first, last, unit, v, fb);
      MapsAfter(m, first, last, unit, v, was);
      if opens == [] { assert log1 == log; } else { Appended(log, Opened(v), fb); }
      if closes == [] { assert log1 + closes == log1; } else { Appended(log1, Released(was), fb); }
    }
    if !Harmless(m, first, last, registered, unit, v) {
      MapsAfter(m, first, last, unit, v, v);
      MapsAfter(m, first, last, unit, v, was);
      if !Maps(m, first, last, v) {
        assert InStep(m, first, last, registered, par, log, v);
        assert !InStep(n, first, last, registered, par', log1 + closes, v);
      } else {
        assert InStep(m, first, last, registered, par, log, was);
        assert !InStep(n, first, last, registered, par', log1 + closes, was);
      }
    }
  }

  /** Every console in range that uses `from` goes to `to`. */
  function Moved(m: seq<int>, first: nat, last: int, from: int, to: int): (n: seq<int>)
    ensures |n| == |m|
  {
    seq(|m|, i requires 0 <= i < |m| => if first <= i <= last && m[i] == from then to else m[i])
  }

  /** The first framebuffer other than `fb` that a console from `i` on uses, if any. */
  function Replacement(m: seq<int>, i: nat, last: int, fb: int): (r: int)
    ensures r != NONE ==> r != fb && exists j :: i <= j <= last && j < |m| && m[j] == r
    ensures r == NONE ==> forall j :: i <= j <= last && j < |m| ==> m[j] == fb || m[j] == NONE
    decreases |m| - i
  {
    if i > last || i >= |m| then NONE
    else if m[i] != fb && m[i] != NONE then m[i]
    else Replacement(m, i + 1, last, fb)
  }

  /** An opening that fails, even one the driver had accepted, leaves no trace in the claim. */
  lemma FailedOpenKeeps(m: seq<int>, first: nat, last: int, registered: set<int>, par: set<int>, log: seq<Event>,
                        v: int, outcome: OpenOutcome)
    requires Inv(m, first, last, registered, par, log) && v != NONE && !Maps(m, first, last, v)
    ensures Inv(m, first, last, registered, par, log + [Opened(v), Released(v)])
  {
    hide Maps, Balance, Alternates;
    assert log + [Opened(v), Released(v)] == log + [Opened(v)] + [Released(v)];
    forall fb | fb != NONE
      ensures InStep(m, first, last, registered, par, log + [Opened(v), Released(v)], fb)
    {
      assert InStep(m, first, last, registered, par, log, fb) && InStep(m, first, last, registered, par, log, v);
      Appended(log, Opened(v), fb);
      Appended(log + [Opened(v)], Released(v), fb);
    }
  }

  /** A takeover opens the one framebuffer all consoles in range then use. */
  lemma TakeoverKeeps(m: seq<int>, n: seq<int>, first: nat, last: int, registered: set<int>, par: set<int>,
                      log: seq<Event>, v: int)
    requires Inv(m, first, last, registered, par, log) && !AnyMapped(m, first, last)
    requires first <= last < |m| == |n| && v in registered && v != NONE
    requires n == Moved(m, first, last, NONE, v)
    ensures Inv(n, first, last, registered, par + {v}, log + [Opened(v)])
  {
    hide Balance, Alternates;
    assert n[first] == v;
    forall fb | fb != NONE ensures InStep(n, first, last, registered, par + {v}, log + [Opened(v)], fb) {
      assert InStep(m, first, last, registered, par, log, fb);
      Appended(log, Opened(v), fb);
    }
  }

  /** Every console leaves framebuffer `v` at once. */
  lemma DropKeeps(m: seq<int>, first: nat, last: int, registered: set<int>, par: set<int>, log: seq<Event>, v: int)
    requires Inv(m, first, last, registered, par, log) && v != NONE
    ensures var n := Moved(m, first, last, v, NONE);
            && !Maps(n, first, last, v) && (AnyMapped(n, first, last) ==> AnyMapped(m, first, last))
            && (forall fb :: fb != NONE && !Maps(m, first, last, fb) ==> !Maps(n, first, last, fb))
            && (if Maps(m, first, last, v) then Inv(n, first, last, registered, par - {v}, log + [Released(v)])
                else Inv(n, first, last, registered, par, log))
  {
    hide Balance, Alternates, Moved, Maps;
    var n := Moved(m, first, last, v, NONE);
    var used := Maps(m, first, last, v);
    var par', log' := if used then par - {v} else par, if used then log + [Released(v)] else log;
    forall fb | fb != NONE
      ensures InStep(n, first, last, registered, par', log', fb)
      ensures !Maps(m, first, last, fb) ==> !Maps(n, first, last, fb)
    {
      assert InStep(m, first, last, registered, par, log, fb) && InStep(m, first, last, registered, par, log, v);
      Appended(log, Released(v), fb);
      DropMaps(m, first, last, v, fb);
    }
    DropMaps(m, first, last, v, v);
    DropAny(m, first, last, v);
  }

  lemma DropAny(m: seq<int>, first: nat, last: int, v: int)
    ensures AnyMapped(Moved(m, first, last, v, NONE), first, last) ==> AnyMapped(m, first, last)
  {
  }

  lemma DropMaps(m: seq<int>, first: nat, last: int, v: int, fb: int)
    requires v != NONE && fb != NONE
    ensures Maps(Moved(m, first, last, v, NONE), first, last, fb) <==> fb != v && Maps(m, first, last, fb)
  {
    var n := Moved(m, first, last, v, NONE);
    if fb != v && Maps(m, first, last, fb) {
      var i :| first <= i <= last && i < |m| && m[i] == fb;
      assert n[i] == fb;
    }
  }

  lemma RegisterKeeps(m: seq<int>, first: nat, last: int, registered: set<int>, par: set<int>, log: seq<Event>, v: int)
    requires Inv(m, first, last, registered, par, log)
    ensures Inv(m, first, last, registered + {v}, par, log)
  {
    hide Maps, Balance, Alternates;
    forall fb | fb != NONE ensures InStep(m, first, last, registered + {v}, par, log, fb) {
      assert InStep(m, first, last, registered, par, log, fb);
    }
  }

  lemma MappedIsRegistered(m: seq<int>, first: nat, last: int, registered: set<int>, par: set<int>, log: seq<Event>,
                           fb: int)
    requires Inv(m, first, last, registered, par, log) && fb != NONE
    ensures Maps(m, first, last, fb) ==> fb in registered
    ensures Balance(log, fb) == if Maps(m, first, last, fb) then 1 else 0
  {
    assert InStep(m, first, last, registered, par, log, fb);
  }

  lemma NothingLeft(m: seq<int>, first: nat, last: int, registered: set<int>, par: set<int>, log: seq<Event>)
    requires Inv(m, first, last, registered, par, log) && last < |m|
    requires forall fb :: fb in registered ==> 0 <= fb < FB_MAX
    requires forall fb :: 0 <= fb < FB_MAX ==> !Maps(m, first, last, fb)
    ensures !AnyMapped(m, first, last)
    ensures forall fb :: fb != NONE ==> Balance(log, fb) == 0
  {
    hide Inv, Balance;
    forall fb | fb != NONE ensures !Maps(m, first, last, fb) && Balance(log, fb) == 0 {
      MappedIsRegistered(m, first, last, registered, par, log, fb);
    }
    forall i | first <= i <= last && i < |m| ensures Maps(m, first, last, m[i]) {
    }
  }

  /** Taking one console off its framebuffer keeps the claim. */
  lemma UnmapKeeps(m: seq<int>, first: nat, last: int, registered: set<int>, par: set<int>, log: seq<Event>, unit: nat)
    requires Inv(m, first, last, registered, par, log)
    requires unit < |m| && first <= unit <= last && m[unit] != NONE
    ensures var n := m[unit := NONE];
            var closes := Retire(n, first, last, registered, m[unit]);
            Inv(n, first, last, registered, par - (if closes == [] then {} else {m[unit]}), log + closes)
  {
    hide Balance, Alternates;
    var was, n := m[unit], m[unit := NONE];
    assert Maps(m, first, last, was);
    var closes := Retire(n, first, last, registered, was);
    var par' := par - (if closes == [] then {} else {was});
    forall fb | fb != NONE ensures InStep(n, first, last, registered, par', log + closes, fb) {
      assert InStep(m, first, last, registered, par, log, fb) && InStep(m, first, last, registered, par, log, was);
      MapsAfter(m, first, last, unit, NONE, fb);
      if closes == [] { assert log + closes == log; } else { Appended(log, Released(was), fb); }
    }
  }

  /** What an attempt to open a framebuffer does to its driver. */
  function Attempt(fb: int, outcome: OpenOutcome): seq<Event> {
    match outcome
    case OpenOk => [Opened(fb)]
    case NoDevice => []
    case NoMemory => [Opened(fb), Released(fb)]
  }

  class Console {
    const first: nat            // first_fb_vc
    const last: int             // last_fb_vc
    const map_: array<int>      // con2fb_map
    var registered: set<int>    // fbcon_registered_fb[i] != NULL
    var par: set<int>           // fbcon_par != NULL
    var infoIdx: int
    var bound: bool             // con_is_bound(&fb_con)
    var hasBind: bool           // fbcon_has_console_bind
    ghost var log: seq<Event>

    constructor (first: nat, last: int)
      requires first <= last < MAX_NR_CONSOLES
      ensures Valid() && fresh(map_) && log == [] && registered == {}
      ensures this.first == first && this.last == last && forall i :: 0 <= i < MAX_NR_CONSOLES ==> map_[i] == NONE
    {
      this.first, this.last := first, last;
      map_ := new int[MAX_NR_CONSOLES](_ => NONE);
      registered, par, infoIdx, bound, hasBind, log := {}, {}, NONE, false, false, [];
      new;
      assert forall fb :: fb != NONE ==> InStep(map_[..], first, last, {}, {}, [], fb);
    }

    ghost predicate Shape() reads this, map_ {
      && map_.Length == MAX_NR_CONSOLES && first <= last < MAX_NR_CONSOLES
      && (forall fb :: fb in registered ==> 0 <= fb < FB_MAX)
      && (AnyMapped(map_[..], first, last) ==> bound)
    }

    ghost predicate Valid() reads this, map_ {
      Shape() && Inv(map_[..], first, last, registered, par, log)
    }

    ghost predicate Mapped(fb: int) reads this, map_ { Maps(map_[..], first, last, fb) }

    method SearchFbInMap(fb: int) returns (found: bool)
      requires map_.Length == MAX_NR_CONSOLES && first <= last < MAX_NR_CONSOLES
      ensures found == Mapped(fb)
    {
      found := false;
      for i := first to last + 1
        invariant found <==> exists j :: first <= j < i && map_[..][j] == fb
      {
        if map_[i] == fb {
          found := true;
          assert map_[..][i] == fb;
        }
      }
    }

    method SearchForMappedCon() returns (found: bool)
      requires map_.Length == MAX_NR_CONSOLES && first <= last < MAX_NR_CONSOLES
      ensures found == AnyMapped(map_[..], first, last)
    {
      found := false;
      for i := first to last + 1
        invariant found <==> exists j :: first <= j < i && map_[..][j] != NONE
      {
        if map_[i] != NONE {
          found := true;
          assert map_[..][i] != NONE;
        }
      }
    }

    /** A framebuffer the driver or the allocator refuses is left as it was. */
    method Open(fb: int, outcome: OpenOutcome) returns (ok: bool)
      modifies `par, `log
      ensures ok == outcome.OpenOk?
      ensures par == if ok then old(par) + {fb} else old(par)
      ensures log == old(log) + Attempt(fb, outcome)
    {
      match outcome
      case NoDevice =>
        ok := false;
      case NoMemory =>
        log := log + [Opened(fb), Released(fb)];
        ok := false;
      case OpenOk =>
        log := log + [Opened(fb)];
        par := par + {fb};
        ok := true;
    }

    method Release(fb: int)
      modifies `par, `log
      ensures par == old(par) - {fb} && log == old(log) + [Released(fb)]
    {
      log := log + [Released(fb)];
      par := par - {fb};
    }

    /** `map_[i]` becomes `to` for every console in range that has `from`. */
    method MoveAll(from: int, to: int)
      requires map_.Length == MAX_NR_CONSOLES && first <= last < MAX_NR_CONSOLES
      modifies map_
      ensures map_[..] == Moved(old(map_[..]), first, last, from, to)
    {
      ghost var was := map_[..];
      for i := first to last + 1
        invariant forall j :: first <= j < i ==> map_[j] == if was[j] == from then to else was[j]
        invariant forall j :: 0 <= j < MAX_NR_CONSOLES && !(first <= j < i) ==> map_[j] == was[j]
      {
        if map_[i] == from {
          map_[i] := to;
        }
      }
    }

    /** `do_fbcon_takeover`, called while no console in range is mapped. The console layer binds fbcon when
        its start-up opens the framebuffer, and fails otherwise. */
    method DoTakeover(outcome: OpenOutcome) returns (ok: bool)
      requires Valid() && !AnyMapped(map_[..], first, last) && infoIdx in registered
      modifies this`par, this`log, this`infoIdx, this`bound, this`hasBind, map_
      ensures Valid() && ok == outcome.OpenOk?
      ensures map_[..] == if ok then Moved(old(map_[..]), first, last, NONE, old(infoIdx)) else old(map_[..])
      ensures ok ==> log == old(log) + [Opened(infoIdx)] && infoIdx == old(infoIdx) && Mapped(infoIdx)
      ensures !ok ==> infoIdx == NONE && log == old(log) + Attempt(old(infoIdx), outcome) && par == old(par)
    {
      hide Inv;
      ghost var was := map_[..];
      ghost var log0, par0 := log, par;
      MoveAll(NONE, infoIdx);
      ok := Open(infoIdx, outcome);
      if ok {
        bound, hasBind := true, true;
        TakeoverKeeps(was, map_[..], first, last, registered, par0, log0, infoIdx);
        assert map_[..][first] == infoIdx;
      } else {
        ghost var v := infoIdx;
        MoveAll(infoIdx, NONE);
        infoIdx := NONE;
        assert map_[..] == was;
        if outcome.NoMemory? {
          FailedOpenKeeps(was, first, last, registered, par0, log0, v, outcome);
        } else {
          assert log == log0;
        }
      }
    }

    /** `do_fb_registered`, its first half: the framebuffer exists. */
    method Register(fb: nat)
      requires Valid() && fb < FB_MAX
      modifies `registered
      ensures Valid() && registered == old(registered) + {fb}
    {
      hide Inv;
      RegisterKeeps(map_[..], first, last, registered, par, log, fb);
      registered := registered + {fb};
    }

    /** The console changes over, and a framebuffer it leaves unused is released. */
    method Switch(unit: nat, fb: nat)
      requires map_.Length == MAX_NR_CONSOLES && first <= last < MAX_NR_CONSOLES
      requires unit < MAX_NR_CONSOLES && map_[unit] != fb
      modifies this`par, this`log, this`infoIdx, map_
      ensures map_[..] == old(map_[..])[unit := fb]
      ensures var closes := Retire(map_[..], first, last, registered, old(map_[unit]));
              log == old(log) + closes && par == old(par) - (if closes == [] then {} else {old(map_[unit])})
      ensures first <= unit <= last ==> Mapped(infoIdx)
    {
      hide Maps;
      ghost var was := map_[..];
      var oldIdx := map_[unit];
      map_[unit] := fb;
      assert map_[..] == was[unit := fb];
      if oldIdx != NONE && oldIdx in registered {
        var stillUsed := SearchFbInMap(oldIdx);
        if !stillUsed {
          Release(oldIdx);
        }
      }
      var current := SearchFbInMap(infoIdx);
      if !current {
        infoIdx := fb;
      }
      MapsAfter(was, first, last, unit, fb, fb);
      assert map_[..] == was[unit := fb];
    }

    /** `set_con2fb_map`: what it answers, what it opens and releases, and, for every console number, when
        the claim survives it. */
    method SetMap(unit: nat, fb: nat, outcome: OpenOutcome) returns (status: Status)
      requires Valid() && unit < MAX_NR_CONSOLES && fb < FB_MAX
      modifies this`par, this`log, this`infoIdx, this`bound, this`hasBind, map_
      ensures Shape()
      ensures status == (if old(map_[unit]) == fb then Success
                         else if fb !in registered then Invalid
                         else if !old(AnyMapped(map_[..], first, last)) then
                           if outcome.OpenOk? then TakenOver else TakeoverFailed
                         else if !old(Mapped(fb)) && !outcome.OpenOk? then OpenFailed
                         else Success)
      ensures map_[..] == if status == Success then old(map_[..])[unit := fb]
                          else if status == TakenOver then Moved(old(map_[..]), first, last, NONE, fb)
                          else old(map_[..])
      ensures status == Success && old(map_[unit]) != fb ==>
                log == old(log) + old(Acquire(map_[..], first, last, fb))
                     + Retire(map_[..], first, last, registered, old(map_[unit]))
      ensures status == Success && old(map_[unit]) == fb ==> log == old(log)
      ensures status == TakenOver ==> log == old(log) + [Opened(fb)]
      ensures status == Invalid ==> log == old(log) && par == old(par) && infoIdx == old(infoIdx)
      ensures status == OpenFailed ==> log == old(log) + Attempt(fb, outcome) && par == old(par)
                                       && infoIdx == old(infoIdx)
      ensures status == TakeoverFailed ==> log == old(log) + Attempt(fb, outcome) && par == old(par)
      ensures (status == Success && first <= unit <= last && old(map_[unit]) != fb) || status == TakenOver ==>
                Mapped(infoIdx)
      ensures Valid() <==> status != Success || old(map_[unit]) == fb ||
                           old(Harmless(map_[..], first, last, registered, unit, fb))
    {
      hide Inv, Maps, Moved;
      ghost var was := map_[..];
      ghost var log0, par0 := log, par;
      var oldIdx := map_[unit];
      if oldIdx == fb {
        assert was[unit := fb] == was;
        return Success;
      }
      if fb !in registered {
        return Invalid;
      }
      var anyMapped := SearchForMappedCon();
      if !anyMapped || !bound {
        infoIdx := fb;
        var ok := DoTakeover(outcome);
        return if ok then TakenOver else TakeoverFailed;
      }
      var inUse := SearchFbInMap(fb);
      if !inUse {
        var ok := Open(fb, outcome);
        if !ok {
          if outcome.NoMemory? {
            FailedOpenKeeps(was, first, last, registered, par0, log0, fb, outcome);
          } else {
            assert log == log0;
          }
          return OpenFailed;
        }
      }
      Switch(unit, fb);
      status := Success;
      RemapKeeps(was, first, last, registered, par0, log0, unit, fb);
      ghost var opens := Acquire(was, first, last, fb);
      ghost var closes := Retire(map_[..], first, last, registered, oldIdx);
      assert log == log0 + opens + closes;
      assert par == (if opens == [] then par0 else par0 + {fb}) - (if closes == [] then {} else {oldIdx});
    }

    /** The scan for another framebuffer in use. */
    method FindReplacement(fb: int) returns (r: int)
      requires map_.Length == MAX_NR_CONSOLES && first <= last < MAX_NR_CONSOLES
      ensures r == Replacement(map_[..], first, last, fb)
    {
      for i := first to last + 1
        invariant Replacement(map_[..], first, last, fb) == Replacement(map_[..], i, last, fb)
      {
        if map_[i] != fb && map_[i] != NONE {
          return map_[i];
        }
      }
      return NONE;
    }

    /** One `set_con2fb_map` for each console of `fb`; the last of them releases it. */
    method RemapAll(fb: nat, to: nat)
      requires Valid() && fb < FB_MAX && to < FB_MAX && fb != to && Mapped(to)
      modifies this`par, this`log, this`infoIdx, this`bound, this`hasBind, map_
      ensures Valid() && map_[..] == Moved(old(map_[..]), first, last, fb, to)
      ensures log == old(log) + (if old(Mapped(fb)) then [Released(fb)] else [])
    {
      hide Inv;
      ghost var was := map_[..];
      for i := first to last + 1
        invariant Valid() && Mapped(to) && unchanged(`registered)
        invariant forall j :: first <= j < i ==> map_[j] == if was[j] == fb then to else was[j]
        invariant forall j :: 0 <= j < MAX_NR_CONSOLES && !(first <= j < i) ==> map_[j] == was[j]
        invariant log == old(log) + (if old(Mapped(fb)) && !Mapped(fb) then [Released(fb)] else [])
      {
        if map_[i] == fb {
          ghost var m := map_[..];
          assert m[i] == fb && was[i] == fb;
          MappedIsRegistered(m, first, last, registered, par, log, to);
          MappedIsRegistered(m, first, last, registered, par, log, fb);
          var _ := SetMap(i, to, OpenOk);
          MapsAfter(m, first, last, i, to, to);
        }
      }
    }

    /** The consoles of `fb` go to none; the last of them releases it. */
    method UnmapAll(fb: nat)
      requires Valid() && fb < FB_MAX
      modifies this`par, this`log, map_
      ensures Valid() && map_[..] == Moved(old(map_[..]), first, last, fb, NONE)
      ensures log == old(log) + (if old(Mapped(fb)) then [Released(fb)] else [])
    {
      hide Inv;
      ghost var was := map_[..];
      for i := first to last + 1
        invariant Valid()
        invariant forall j :: first <= j < i ==> map_[j] == if was[j] == fb then NONE else was[j]
        invariant forall j :: 0 <= j < MAX_NR_CONSOLES && !(first <= j < i) ==> map_[j] == was[j]
        invariant log == old(log) + (if old(Mapped(fb)) && !Mapped(fb) then [Released(fb)] else [])
      {
        if map_[i] == fb {
          ghost var m, log0, par0 := map_[..], log, par;
          assert m[i] == fb && AnyMapped(m, first, last);
          MappedIsRegistered(m, first, last, registered, par, log, fb);
          map_[i] := NONE;
          assert map_[..] == m[i := NONE];
          var stillUsed := SearchFbInMap(fb);
          if !stillUsed {
            Release(fb);
          }
          UnmapKeeps(m, first, last, registered, par0, log0, i);
          ghost var closes := Retire(map_[..], first, last, registered, fb);
          assert log == log0 + closes && par == par0 - (if closes == [] then {} else {fb});
        }
      }
    }

    /** `fbcon_release_all`: every framebuffer in use is released, once, and nothing else reaches a driver. */
    method ReleaseAll()
      requires Valid()
      modifies this`par, this`log, map_
      ensures Valid() && !AnyMapped(map_[..], first, last)
      ensures old(log) <= log && (forall k :: |old(log)| <= k < |log| ==> log[k].Released?)
      ensures forall fb :: fb != NONE ==> Balance(log, fb) == 0
    {
      hide Inv, Moved;
      ghost var was := map_[..];
      for fb := 0 to FB_MAX
        invariant Valid() && unchanged(`registered)
        invariant forall i :: 0 <= i < fb ==> !Maps(map_[..], first, last, i)
        invariant old(log) <= log && (forall k :: |old(log)| <= k < |log| ==> log[k].Released?)
      {
        if fb in registered {
          ghost var m, log0, par0 := map_[..], log, par;
          var used := SearchFbInMap(fb);
          MoveAll(fb, NONE);
          ghost var n := map_[..];
          if used {
            Release(fb);
          }
          assert map_[..] == n;
          DropKeeps(m, first, last, registered, par0, log0, fb);
        } else {
          MappedIsRegistered(map_[..], first, last, registered, par, log, fb);
        }
      }
      NothingLeft(map_[..], first, last, registered, par, log);
    }

    /** `fbcon_fb_unbind`: the consoles of a framebuffer go to another one in use, or to none when there is
        none; `unbound` is what the console layer then answers to the unbinding. */
    method Unbind(fb: nat, unbound: bool)
      requires Valid() && fb < FB_MAX
      modifies this`par, this`log, this`infoIdx, this`bound, this`hasBind, map_
      ensures Valid()
      ensures !old(hasBind) ==> map_[..] == old(map_[..]) && log == old(log)
      ensures old(hasBind) ==>
                && map_[..] == Moved(old(map_[..]), first, last, fb, Replacement(old(map_[..]), first, last, fb))
                && log == old(log) + (if old(Mapped(fb)) then [Released(fb)] else [])
    {
      if !hasBind {
        return;
      }
      var newIdx := FindReplacement(fb);
      if newIdx != NONE {
        MappedIsRegistered(map_[..], first, last, registered, par, log, newIdx);
        RemapAll(fb, newIdx);
      } else {
        UnmapAll(fb);
        if unbound {
          bound, hasBind := false, false;
        }
      }
    }
  }
  /** What the rest of the kernel can do to the mapping. */
  datatype Op =
    | Register(fb: nat)
    | SetMap(unit: nat, fb: nat, outcome: OpenOutcome)
    | Unbind(fb: nat, unbound: bool)
    | ConsoleUnbound        // fbcon_deinit of a console of an unbound driver

  predicate Sensible(c: Console, op: Op) {
    match op
    case Register(fb) => fb < FB_MAX
    case SetMap(unit, fb, _) => c.first <= unit <= c.last && fb < FB_MAX
    case Unbind(fb, _) => fb < FB_MAX
    case ConsoleUnbound => true
  }

  /** Over every run: a framebuffer is open exactly while some console in range uses it, is opened when the
      first comes and released once when the last leaves, whatever fails in between. */
  method Run(c: Console, ops: seq<Op>)
    requires c.Valid() && c.log == []
    requires forall k :: 0 <= k < |ops| ==> Sensible(c, ops[k])
    modifies c, c.map_
    ensures c.Valid()
    ensures forall fb :: fb != NONE ==> Alternates(c.log, fb) && Balance(c.log, fb) == if c.Mapped(fb) then 1 else 0
  {
    for k := 0 to |ops|
      invariant c.Valid()
    {
      hide Inv, Maps;
      match ops[k]
      case Register(fb) =>
        c.Register(fb);
      case SetMap(unit, fb, outcome) =>
        var _ := c.SetMap(unit, fb, outcome);
      case Unbind(fb, unbound) =>
        c.Unbind(fb, unbound);
      case ConsoleUnbound =>
        c.ReleaseAll();
        c.bound := false;
    }
    forall fb | fb != NONE
      ensures Alternates(c.log, fb) && Balance(c.log, fb) == if c.Mapped(fb) then 1 else 0
    {
      assert InStep(c.map_[..], c.first, c.last, c.registered, c.par, c.log, fb);
    }
  }

  /** A run that breaks the claim: fbcon drives console 0 alone, and console 1 is mapped to a second framebuffer,
      which is then open with no console in range. */
  method OutsideRangeBreaks() returns (c: Console)
    ensures c.Shape() && !c.Mapped(1) && Balance(c.log, 1) == 1 && !c.Valid()
  {
    hide Inv, Balance;
    c := new Console(0, 0);
    c.Register(0);
    c.Register(1);
    var first := c.SetMap(0, 0, OpenOk);
    assert c.map_[..][0] == 0 && c.map_[..][1] == NONE;
    var second := c.SetMap(1, 1, OpenOk);
    assert c.map_[..][0] == 0;
    assert c.log == [] + [Opened(0)] + [Opened(1)];
    Appended([], Opened(0), 1);
    Appended([] + [Opened(0)], Opened(1), 1);
    NothingOpened();
  }

  lemma NothingOpened()
    ensures Balance([], 1) == 0
  {
  }
}
