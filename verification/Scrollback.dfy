/** The software scrollback ring as a sequence of rows, oldest first. */
module Scrollback {
  import opened Grid

  function Wrap(i: int, size: int): int { if i >= size then i - size else i }

  /** Ring distance from slot a forward to slot b. */
  function Distance(size: nat, a: int, b: int): int { if a <= b then b - a else b - a + size }

  /** The rows from slot a up to, not including, slot b. */
  function Slice(ring: Rows, a: nat, b: nat): (r: Rows)
    requires a < |ring| && b < |ring|
    ensures |r| == Distance(|ring|, a, b)
  {
    if a <= b then ring[a..b] else ring[a..] + ring[..b]
  }

  /** The last n rows of s, or all of them. */
  function Last(s: Rows, n: nat): (r: Rows)
    ensures |r| == if |s| <= n then |s| else n
  {
    if |s| <= n then s else s[|s| - n..]
  }

  /** Row k of the history sits k slots after the oldest one. */
  lemma SliceAt(ring: Rows, a: nat, b: nat, k: nat)
    requires a < |ring| && b < |ring| && k < Distance(|ring|, a, b)
    ensures 0 <= Wrap(a + k, |ring|) < |ring|
    ensures Slice(ring, a, b)[k] == ring[Wrap(a + k, |ring|)]
  {
  }

  /** Row k after a push: the row a full ring drops is skipped, the new one comes last. */
  lemma PushedRow(ring: Rows, top: nat, inp: nat, row: Row, k: nat)
    requires top < |ring| && inp < |ring| && 1 < |ring|
    requires var next := Wrap(inp + 1, |ring|);
             k < Distance(|ring|, if next == top then Wrap(top + 1, |ring|) else top, next)
    ensures var next := Wrap(inp + 1, |ring|);
            var top' := if next == top then Wrap(top + 1, |ring|) else top;
            var j := if next == top then k + 1 else k;
            Slice(ring[inp := row], top', next)[k] ==
            if j < Distance(|ring|, top, inp) then Slice(ring, top, inp)[j] else row
  {
    hide Slice;
    var next := Wrap(inp + 1, |ring|);
    var top' := if next == top then Wrap(top + 1, |ring|) else top;
    var j := if next == top then k + 1 else k;
    SliceAt(ring[inp := row], top', next, k);
    if j < Distance(|ring|, top, inp) { SliceAt(ring, top, inp, j); }
  }

  /** Overwriting a slot outside the slice, or past its end, leaves the slice alone. */
  lemma SlicePush(ring: Rows, top: nat, inp: nat, row: Row)
    requires top < |ring| && inp < |ring| && 1 < |ring|
    ensures var next := Wrap(inp + 1, |ring|);
            var top' := if next == top then Wrap(top + 1, |ring|) else top;
            Slice(ring[inp := row], top', next) == Last(Slice(ring, top, inp) + [row], |ring| - 1)
  {
    hide Slice;
    var next := Wrap(inp + 1, |ring|);
    var top' := if next == top then Wrap(top + 1, |ring|) else top;
    var old', new' := Slice(ring, top, inp), Slice(ring[inp := row], top', next);
    var want := Last(old' + [row], |ring| - 1);
    forall k | 0 <= k < |new'| ensures new'[k] == want[k] {
      PushedRow(ring, top, inp, row, k);
    }
  }

  /** Keeping the last n of a growing history forgets nothing it would still hold. */
  lemma LastOfLast(a: Rows, b: Rows, n: nat)
    ensures Last(Last(a, n) + b, n) == Last(a + b, n)
  {
  }

  ghost predicate IsSuffix(a: Rows, b: Rows) {
    |a| <= |b| && b[|b| - |a|..] == a
  }

  /** Nothing between history and screen is lost or repeated when the screen scrolls up. */
  lemma HistoryThenScreen(h: Rows, text: Rows, n: nat, cap: nat, cols: nat, blank: Cell)
    requires n <= |text|
    ensures IsSuffix(Last(h + text[..n], cap) + ScrolledUp(text, cols, 0, |text|, n, blank),
                     h + text + Blanks(n, cols, blank))
  {
    var all := h + text + Blanks(n, cols, blank);
    var kept := Last(h + text[..n], cap);
    var screen := ScrolledUp(text, cols, 0, |text|, n, blank);
    assert all == (h + text[..n]) + screen;
  }

  // --- Walking down a view: ring slots first, then the live screen ----------------------

  /** Where a line of a scrolled-back view is stored. */
  datatype Line = OnRing(slot: nat) | OnText(row: nat)

  /** Line k of the page that starts with the oldest row kept. */
  function LineOf(size: nat, top: nat, inp: nat, k: nat): Line
    requires top < size && inp < size
  {
    var h := Distance(size, top, inp);
    if k < h then OnRing(Wrap(top + k, size)) else OnText(k - h)
  }

  /** One row further: the ring end continues at its start, `inp` at the live screen. */
  function NextLine(size: nat, inp: nat, p: Line): Line {
    match p
    case OnRing(i) =>
      var j := if i + 1 == size then 0 else i + 1;
      if j == inp then OnText(0) else OnRing(j)
    case OnText(r) => OnText(r + 1)
  }

  lemma NextLineOf(size: nat, top: nat, inp: nat, k: nat)
    requires top < size && inp < size
    ensures NextLine(size, inp, LineOf(size, top, inp, k)) == LineOf(size, top, inp, k + 1)
  {
  }

  predicate Stored(ring: Rows, text: Rows, p: Line) {
    match p
    case OnRing(i) => i < |ring|
    case OnText(r) => r < |text|
  }

  function RowAt(ring: Rows, text: Rows, p: Line): Row
    requires Stored(ring, text, p)
  {
    match p
    case OnRing(i) => ring[i]
    case OnText(r) => text[r]
  }

  lemma LineOfPage(ring: Rows, text: Rows, top: nat, inp: nat, k: nat)
    requires top < |ring| && inp < |ring| && k < Distance(|ring|, top, inp) + |text|
    ensures Stored(ring, text, LineOf(|ring|, top, inp, k))
    ensures RowAt(ring, text, LineOf(|ring|, top, inp, k)) == (Slice(ring, top, inp) + text)[k]
  {
    if k < Distance(|ring|, top, inp) {
      SliceAt(ring, top, inp, k);
    }
  }

  /** Whether a slot holds a row of the history. */
  predicate Kept(size: nat, top: nat, inp: nat, slot: nat) {
    Distance(size, top, slot) < Distance(size, top, inp)
  }

  /** Rewriting the slot of line k rewrites row k of the history and no other. */
  lemma SliceUpdate(ring: Rows, top: nat, inp: nat, k: nat, row: Row)
    requires top < |ring| && inp < |ring| && k < Distance(|ring|, top, inp)
    ensures var slot := Wrap(top + k, |ring|);
            0 <= slot < |ring| && Kept(|ring|, top, inp, slot)
            && Slice(ring[slot := row], top, inp) == Slice(ring, top, inp)[k := row]
  {
    var slot := Wrap(top + k, |ring|);
    var new', old' := Slice(ring[slot := row], top, inp), Slice(ring, top, inp);
    forall m | 0 <= m < |old'| ensures new'[m] == old'[k := row][m] {
      SliceAt(ring, top, inp, m);
      SliceAt(ring[slot := row], top, inp, m);
    }
  }

  /** History and the slots outside it determine the ring. */
  lemma SameRing(a: Rows, b: Rows, top: nat, inp: nat)
    requires |a| == |b| && top < |a| && inp < |a|
    requires Slice(a, top, inp) == Slice(b, top, inp)
    requires forall i :: 0 <= i < |a| && !Kept(|a|, top, inp, i) ==> a[i] == b[i]
    ensures a == b
  {
    forall i | 0 <= i < |a| ensures a[i] == b[i] {
      if Kept(|a|, top, inp, i) {
        var k := Distance(|a|, top, i);
        SliceAt(a, top, inp, k);
        SliceAt(b, top, inp, k);
      }
    }
  }
}
