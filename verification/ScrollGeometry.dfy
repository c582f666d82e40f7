/** `updatescrollmode`: how many text rows the virtual framebuffer holds and which scroll mode
    the hardware allows. */
module ScrollGeometry {
  import opened RowArithmetic
  import opened DisplayModel

  /** `divides` */
  predicate Divides(a: nat, b: nat) { a != 0 && b % a == 0 }

  lemma Quotient(a: nat, d: nat)
    requires 0 < d
    ensures d * (a / d) + a % d == a && 0 <= a % d < d
  {
  }

  /** Quotients are ordered as their dividends are. */
  lemma QuotientOrder(a: nat, b: nat, d: nat)
    requires 0 < d && a <= b
    ensures a / d <= b / d
    ensures a / d == b / d ==> a % d <= b % d
  {
    Quotient(a, d);
    Quotient(b, d);
    if a / d > b / d {
      MulMono(b / d + 1, a / d, d);
    }
  }

  /** Rows of text in the virtual framebuffer, less the unused rows of the screen, less one if
      the screen's odd pixels do not fit below the last row. */
  function Vrows(fh: nat, yres: nat, vyres: nat, rows: nat): int
    requires 0 < fh
  {
    vyres / fh
      - (if yres > fh * (rows + 1) then (yres - fh * rows) / fh else 0)
      - (if yres % fh != 0 && vyres % fh < yres % fh then 1 else 0)
  }

  /** The rows are those that fit on the screen, or fewer after a resize. The computed number
      always covers the visible rows, and the last window position stays inside the virtual
      framebuffer except when exactly one row of space is left over, which the row comparison
      overlooks. */
  method UpdateVrows(fh: nat, yres: nat, vyres: nat, rows: nat) returns (vrows: int)
    requires 0 < fh && 0 < rows && rows * fh <= yres <= vyres
    ensures rows <= vrows
    ensures (vrows - rows) * fh + yres <= vyres <==> yres != fh * (rows + 1)
    ensures vrows == rows + (vyres - yres) / fh + (if yres == fh * (rows + 1) then 1 else 0)
  {
    vrows := vyres / fh;
    if yres > fh * (rows + 1) {
      vrows := vrows - (yres - fh * rows) / fh;
    }
    if yres % fh != 0 && vyres % fh < yres % fh {
      vrows := vrows - 1;
    }
    VrowsFit(fh, yres, vyres, rows, vrows);
    VrowsExactly(fh, yres, vyres, rows);
  }

  /** Exactly as many rows as the memory below the screen has room for, plus the one overlooked. */
  lemma VrowsExactly(fh: nat, yres: nat, vyres: nat, rows: nat)
    requires 0 < fh && 0 < rows && rows * fh <= yres <= vyres
    ensures Vrows(fh, yres, vyres, rows) ==
            rows + (vyres - yres) / fh + (if yres == fh * (rows + 1) then 1 else 0)
  {
    var full, all, s, r := yres / fh, vyres / fh, yres % fh, vyres % fh;
    Quotient(yres, fh);
    Quotient(vyres, fh);
    QuotientOrder(yres, vyres, fh);
    RowsBelowFull(fh, yres, rows);
    SurplusRows(fh, yres, rows);
    SurplusCases(fh, yres, rows);
    Distribute(fh, all, full);
    assert vyres - yres == (all - full) * fh + r - s;
    if r < s {
      assert all > full;
      assert vyres - yres == (all - full - 1) * fh + (fh + r - s);
      DivRow(all - full - 1, fh, fh + r - s);
    } else {
      DivRow(all - full, fh, r - s);
    }
    assert fh * (rows + 1) == fh * rows + fh;
  }

  lemma VrowsFit(fh: nat, yres: nat, vyres: nat, rows: nat, vrows: int)
    requires 0 < fh && 0 < rows && rows * fh <= yres <= vyres
    requires vrows == Vrows(fh, yres, vyres, rows)
    ensures rows <= vrows
    ensures (vrows - rows) * fh + yres <= vyres <==> yres != fh * (rows + 1)
  {
    var full, all, s, r := yres / fh, vyres / fh, yres % fh, vyres % fh;
    Quotient(yres, fh);
    Quotient(vyres, fh);
    QuotientOrder(yres, vyres, fh);
    RowsBelowFull(fh, yres, rows);
    SurplusRows(fh, yres, rows);
    SurplusCases(fh, yres, rows);
    var borrow := if s != 0 && r < s then 1 else 0;
    if yres > fh * (rows + 1) || full == rows {
      assert vrows - rows == all - full - borrow;
      assert (vrows - rows) * fh == fh * all - fh * full - fh * borrow by {
        assert fh * (all - full - borrow) == fh * all - fh * full - fh * borrow;
      }
      if full == rows {
        assert yres != fh * (rows + 1);
      }
    } else {
      assert yres == fh * (rows + 1) && full == rows + 1 && s == 0;
      assert vrows == all;
      assert (all - rows) * fh == fh * all - fh * rows;
      assert fh * (rows + 1) == fh * rows + fh;
    }
  }

  /** Such a screen: eleven rows of ten lines of which ten are used, one row of memory to spare, and hardware that
      pans. The last position the scroll code allows, two rows down, ends ten lines behind the memory. */
  lemma SpareRowOverlooked()
    ensures var hw := Hardware(true, 1, false, 0, true, false, false, false);
            var rows, vrows, yscroll := 10, Vrows(10, 110, 120, 10), 2;
            && ModeFor(hw, 10, 110, 120).PanMove?
            && yscroll == vrows - rows
            && yscroll * 10 + 110 == 120 + 10
  {
    assert 110 % 10 == 0 && 120 / 10 == 12;
  }

  /** On hardware that pans, some allowed window position leaves memory exactly on such screens. */
  lemma PanLeavesMemory(hw: Hardware, fh: nat, yres: nat, vyres: nat, rows: nat)
    requires 0 < fh && 0 < rows && rows * fh <= yres <= vyres
    requires ModeFor(hw, fh, yres, vyres).PanMove? || ModeFor(hw, fh, yres, vyres).PanRedraw?
    ensures (exists yscroll: nat ::
               yscroll <= Vrows(fh, yres, vyres, rows) - rows && !InMemory(fh, yres, vyres, yscroll)) <==>
            yres == fh * (rows + 1)
  {
    hide Vrows;
    var vrows := Vrows(fh, yres, vyres, rows);
    VrowsFit(fh, yres, vyres, rows, vrows);
    if yres == fh * (rows + 1) {
      assert !InMemory(fh, yres, vyres, vrows - rows);
    } else {
      forall yscroll: nat | yscroll <= vrows - rows ensures InMemory(fh, yres, vyres, yscroll) {
        MulMono(yscroll, vrows - rows, fh);
      }
    }
  }

  predicate InMemory(fh: nat, yres: nat, vyres: nat, yscroll: nat) { yscroll * fh + yres <= vyres }

  lemma RowsBelowFull(fh: nat, yres: nat, rows: nat)
    requires 0 < fh && rows * fh <= yres
    ensures rows <= yres / fh
  {
    Quotient(yres, fh);
    if yres / fh < rows {
      MulMono(yres / fh + 1, rows, fh);
    }
  }

  /** Rows of the screen that are not used. */
  lemma SurplusRows(fh: nat, yres: nat, rows: nat)
    requires 0 < fh && rows * fh <= yres && rows <= yres / fh
    ensures (yres - fh * rows) / fh == yres / fh - rows
  {
    Quotient(yres, fh);
    Distribute(fh, yres / fh, rows);
    DivRow(yres / fh - rows, fh, yres % fh);
  }

  lemma SurplusCases(fh: nat, yres: nat, rows: nat)
    requires 0 < fh && rows * fh <= yres && rows <= yres / fh
    ensures yres > fh * (rows + 1) || yres / fh == rows
            || (yres == fh * (rows + 1) && yres / fh == rows + 1 && yres % fh == 0)
  {
    Quotient(yres, fh);
    if yres / fh > rows {
      MulMono(rows + 1, yres / fh, fh);
      DivRow(rows + 1, fh, 0);
    }
  }

  lemma Distribute(d: nat, a: nat, b: nat)
    requires b <= a
    ensures (a - b) * d == d * a - d * b
  {
  }

  /** With as many rows as fit, no panned window leaves the virtual framebuffer. */
  lemma PanStaysInside(fh: nat, yres: nat, vyres: nat, vrows: int, yscroll: nat)
    requires 0 < fh && fh <= yres <= vyres
    requires vrows == Vrows(fh, yres, vyres, yres / fh)
    requires yscroll <= vrows - yres / fh
    ensures yscroll * fh + yres <= vyres
  {
    var rows := yres / fh;
    Quotient(yres, fh);
    if rows < 1 { assert false; }
    VrowsFit(fh, yres, vyres, rows, vrows);
    assert yres != fh * (rows + 1);
    MulMono(yscroll, vrows - rows, fh);
  }

  /** The hardware as `updatescrollmode_accel` sees it. */
  datatype Hardware = Hardware(
    canPan: bool, panStep: nat, canWrap: bool, wrapStep: nat,
    readsFast: bool, copyArea: bool, imageBlit: bool, accelDisabled: bool)

  predicate GoodPan(hw: Hardware, fh: nat, yres: nat, vyres: nat) {
    hw.canPan && Divides(hw.panStep, fh) && vyres > yres
  }

  predicate GoodWrap(hw: Hardware, fh: nat, yres: nat, vyres: nat) {
    hw.canWrap && Divides(hw.wrapStep, fh) && Divides(fh, vyres) && Divides(fh, yres)
  }

  /** `updatescrollmode_accel` */
  function ModeFor(hw: Hardware, fh: nat, yres: nat, vyres: nat): ScrollMode {
    var fastCopy := hw.copyArea && !hw.accelDisabled;
    var fastBlit := hw.imageBlit && !hw.accelDisabled;
    if GoodWrap(hw, fh, yres, vyres) || GoodPan(hw, fh, yres, vyres) then
      if hw.readsFast || fastCopy then
        if GoodWrap(hw, fh, yres, vyres) then WrapMove else PanMove
      else
        if GoodWrap(hw, fh, yres, vyres) then Redraw else PanRedraw
    else if hw.readsFast || (fastCopy && !fastBlit) then Move
    else Redraw
  }

  /** Which mode is chosen, over all hardware. Hardware that can wrap by rows wraps if copying cells pays and otherwise
      redraws; hardware that can only pan pans, drawing the moved rows again where copying does not pay; with neither,
      cells are copied on the screen if reading it is fast, or if copying is accelerated and drawing is not. */
  lemma ModeChosen(hw: Hardware, fh: nat, yres: nat, vyres: nat)
    requires 0 < fh
    ensures var mode := ModeFor(hw, fh, yres, vyres);
            var wraps := hw.canWrap && (exists q: nat :: q * hw.wrapStep == fh) && (exists r: nat :: r * fh == vyres)
                         && (exists r: nat :: r * fh == yres);
            var pans := hw.canPan && (exists q: nat :: q * hw.panStep == fh) && yres < vyres;
            var copies := hw.readsFast || (hw.copyArea && !hw.accelDisabled);
            && (mode.WrapMove? <==> wraps && copies)
            && (mode.PanMove? <==> pans && !wraps && copies)
            && (mode.PanRedraw? <==> pans && !wraps && !copies)
            && (mode.Move? <==> !pans && !wraps && copies && (hw.readsFast || !hw.imageBlit))
            && (mode.Redraw? <==>
                  (wraps && !copies) || (!pans && !wraps && !(copies && (hw.readsFast || !hw.imageBlit))))
  {
    DividesIs(hw.wrapStep, fh);
    DividesIs(hw.panStep, fh);
    DividesIs(fh, vyres);
    DividesIs(fh, yres);
    hide Divides;
  }

  lemma DividesIs(a: nat, b: nat)
    ensures 0 < b ==> (Divides(a, b) <==> exists q: nat :: q * a == b)
    ensures 0 < a ==> (Divides(a, b) <==> exists q: nat :: q * a == b)
  {
    if Divides(a, b) {
      Quotient(b, a);
      assert b / a * a == b;
    }
    if q: nat :| q * a == b && (0 < b || 0 < a) {
      assert a != 0;
      DivRow(q, a, 0);
    }
  }

  /** A display wraps only where text rows tile its memory: the row after the last one starts
      where the memory ends. It pans only where there is more memory than screen. */
  lemma ModeSuitsMemory(hw: Hardware, fh: nat, yres: nat, vyres: nat, vrows: int)
    requires 0 < fh && fh <= yres <= vyres
    requires vrows == Vrows(fh, yres, vyres, yres / fh)
    ensures ModeFor(hw, fh, yres, vyres).WrapMove? ==> vrows * fh == vyres
    ensures ModeFor(hw, fh, yres, vyres).PanMove? || ModeFor(hw, fh, yres, vyres).PanRedraw? ==>
              yres < vyres && hw.panStep != 0 && fh % hw.panStep == 0
  {
    Quotient(yres, fh);
    Quotient(vyres, fh);
    assert fh * (yres / fh + 1) == fh * (yres / fh) + fh;
  }
}
