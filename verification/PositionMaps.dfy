/** The two maps between buffer addresses and screen positions of a scrolled-back view.
    Addresses are bytes; a cell takes two. */
module PositionMaps {
  import opened Grid
  import opened RowArithmetic
  import opened Scrollback

  datatype Layout = Layout(
    origin: nat,      // vc_origin
    buf: nat,         // softback_buf
    size: nat,        // row slots between softback_buf and softback_end
    rows: nat,
    cols: nat,
    curr: nat,        // slot softback_curr points to
    inp: nat,         // slot softback_in points to
    lines: nat,       // softback_lines
    foreground: bool  // vc_num == fg_console
  ) {
    function SizeRow(): nat { 2 * cols }
    function End(): nat { buf + size * SizeRow() }
    function CurrAddr(): nat { buf + curr * SizeRow() }
    function InAddr(): nat { buf + inp * SizeRow() }
    function ScrEnd(): nat { origin + rows * SizeRow() }

    /** Buffer and ring are separate memory, and the view is scrolled back as far as the
        ring pointers say. */
    ghost predicate Valid() {
      && 0 < rows && 0 < cols
      && (ScrEnd() <= buf || End() <= origin)
      && curr < size && inp < size
      && lines == Distance(size, curr, inp)
    }
  }

  /** `fbcon_screen_pos` */
  function ScreenPos(l: Layout, offset: nat): int
    requires 0 < l.cols
  {
    if !l.foreground || l.lines == 0 then l.origin + offset
    else if offset / l.SizeRow() >= l.lines then l.origin + offset - l.lines * l.SizeRow()
    else
      var p := l.CurrAddr() + offset;
      if p >= l.End() then p + l.buf - l.End() else p
  }

  datatype Position = Position(next: int, x: int, y: int)

  /** `fbcon_getxy` */
  function GetXY(l: Layout, pos: int): Position
    requires 0 < l.cols
  {
    if l.origin <= pos < l.ScrEnd() then
      var offset := (pos - l.origin) / 2;
      var x := offset % l.cols;
      var y := offset / l.cols;
      Position(pos + (l.cols - x) * 2, x, if l.foreground then y + l.lines else y)
    else if l.foreground && l.lines != 0 then
      var offset := (pos - l.CurrAddr() + if pos < l.CurrAddr() then l.End() - l.buf else 0) / 2;
      var x := offset % l.cols;
      var y := offset / l.cols;
      var ret := pos + (l.cols - x) * 2;
      var ret' := if ret == l.End() then l.buf else ret;
      Position(if ret' == l.InAddr() then l.origin else ret', x, y)
    else Position(l.origin, 0, 0)
  }

  // --- What the address of a screen cell is -----------------------------------------------

  function Address(l: Layout, p: Line): nat {
    match p
    case OnRing(i) => l.buf + i * l.SizeRow()
    case OnText(r) => l.origin + r * l.SizeRow()
  }

  /** Line y of the view: ring slots from softback_curr on, then the live screen. */
  function ViewLine(l: Layout, y: nat): Line
    requires l.curr < l.size && l.inp < l.size
  {
    if !l.foreground || l.lines == 0 then OnText(y) else LineOf(l.size, l.curr, l.inp, y)
  }

  /** That line is the one the screen shows there: the ring from softback_curr up to softback_in, continued by
      the live screen. */
  lemma ViewLineIsShown(l: Layout, ring: Rows, text: Rows, y: nat)
    requires l.Valid() && l.foreground && |ring| == l.size && |text| == l.rows && y < l.rows
    ensures Stored(ring, text, ViewLine(l, y))
    ensures RowAt(ring, text, ViewLine(l, y)) == (Slice(ring, l.curr, l.inp) + text)[y]
  {
    LineOfPage(ring, text, l.curr, l.inp, y);
  }

  /** The map yields the address of cell x in the row that the view shows as its line y. */
  lemma ScreenPosIsView(l: Layout, x: nat, y: nat)
    requires l.Valid() && x < l.cols
    ensures ScreenPos(l, y * l.SizeRow() + 2 * x) == Address(l, ViewLine(l, y)) + 2 * x
  {
    var d := l.SizeRow();
    DivRow(y, d, 2 * x);
    if l.foreground && l.lines != 0 {
      if y >= l.lines {
        assert y * d - l.lines * d == (y - l.lines) * d;
      } else {
        RingStart(l, y, x);
        hide Layout.End, Layout.CurrAddr;
      }
    }
  }

  lemma RingStart(l: Layout, y: nat, x: nat)
    requires l.Valid() && y < l.lines && x < l.cols
    ensures var p := l.CurrAddr() + (y * l.SizeRow() + 2 * x);
            (if p >= l.End() then p + l.buf - l.End() else p) == l.buf + Wrap(l.curr + y, l.size) * l.SizeRow() + 2 * x
  {
    var d := l.SizeRow();
    assert l.curr * d + y * d == (l.curr + y) * d;
    RowOrder(l.curr + y, l.size, d, 2 * x);
    if l.curr + y >= l.size {
      assert (l.curr + y) * d - l.size * d == (l.curr + y - l.size) * d;
    }
  }

  lemma TextCell(l: Layout, r: nat, x: nat)
    requires l.Valid() && r < l.rows && x < l.cols
    ensures var p := GetXY(l, Address(l, OnText(r)) + 2 * x);
            p.x == x && p.y == (if l.foreground then r + l.lines else r) && p.next == Address(l, OnText(r + 1))
  {
    var d := l.SizeRow();
    RowOrder(r, l.rows, d, 2 * x);
    assert (r * d + 2 * x) / 2 == r * l.cols + x by { assert r * d == 2 * (r * l.cols); }
    DivRow(r, l.cols, x);
  }

  /** The ring offset of a cell counts from softback_curr, around the end. */
  lemma RingOffset(size: nat, curr: nat, y: nat, d: nat, r: nat)
    requires curr < size && y < size && r < d
    ensures var slot := Wrap(curr + y, size);
            (slot * d + r) - curr * d + (if slot * d + r < curr * d then size * d else 0) == y * d + r
  {
    var slot := Wrap(curr + y, size);
    RowOrder(slot, curr, d, r);
    if curr + y >= size {
      assert slot * d == curr * d + y * d - size * d by { assert slot == curr + y - size; }
    } else {
      assert slot * d == curr * d + y * d;
    }
  }

  /** The row after a ring row starts at the ring's start, at softback_in, or right behind it. */
  lemma RingNext(l: Layout, slot: nat)
    requires l.Valid() && slot < l.size
    ensures var ret := l.buf + (slot + 1) * l.SizeRow();
            var ret' := if ret == l.End() then l.buf else ret;
            (if ret' == l.InAddr() then l.origin else ret')
              == Address(l, NextLine(l.size, l.inp, OnRing(slot)))
  {
    var d := l.SizeRow();
    RowOrder(slot + 1, l.size, d, 0);
    RowOrder(slot + 1, l.inp, d, 0);
    RowOrder(0, l.inp, d, 0);
  }

  /** The offset `fbcon_getxy` computes for a cell of a ring row. */
  lemma RingPlace(l: Layout, y: nat, x: nat)
    requires l.Valid() && y < l.lines && x < l.cols
    ensures var pos := l.buf + Wrap(l.curr + y, l.size) * l.SizeRow() + 2 * x;
            (pos - l.CurrAddr() + if pos < l.CurrAddr() then l.End() - l.buf else 0) / 2 == y * l.cols + x
  {
    hide Wrap;
    var d := l.SizeRow();
    RingOffset(l.size, l.curr, y, d, 2 * x);
    assert (y * d + 2 * x) / 2 == y * l.cols + x by { assert y * d == 2 * (y * l.cols); }
  }

  lemma RingCell(l: Layout, y: nat, x: nat)
    requires l.Valid() && l.foreground && y < l.lines && x < l.cols
    ensures var p := GetXY(l, Address(l, ViewLine(l, y)) + 2 * x);
            p.x == x && p.y == y && p.next == Address(l, ViewLine(l, y + 1))
  {
    var slot := Wrap(l.curr + y, l.size);
    WrapBounds(l.curr + y, l.size);
    InRing(l, slot, x);
    RingPlace(l, y, x);
    DivRow(y, l.cols, x);
    RingNext(l, slot);
    RowEnd(slot, l.cols, x);
    assert ViewLine(l, y) == OnRing(slot);
    NextLineOf(l.size, l.curr, l.inp, y);
    hide NextLine, Wrap, Layout.End, Layout.CurrAddr, Layout.InAddr, Layout.ScrEnd, LineOf, Distance;
  }

  lemma RowEnd(slot: int, cols: nat, x: nat)
    ensures slot * (2 * cols) + 2 * x + (cols - x) * 2 == (slot + 1) * (2 * cols)
  {
  }

  lemma WrapBounds(i: nat, size: nat)
    requires i < 2 * size
    ensures 0 <= Wrap(i, size) < size
  {
  }

  lemma InRing(l: Layout, slot: int, x: nat)
    requires l.Valid() && 0 <= slot < l.size && x < l.cols
    ensures var pos := l.buf + slot * l.SizeRow() + 2 * x;
            l.buf <= pos < l.End() && !(l.origin <= pos < l.ScrEnd())
  {
    RowOrder(slot, l.size, l.SizeRow(), 2 * x);
  }

  /** The maps undo each other on every cell of the screen, and the walk to the next row
      passes the ring end and the jump to the live screen exactly as the view does. */
  lemma GetXYUndoesScreenPos(l: Layout, x: nat, y: nat)
    requires l.Valid() && x < l.cols && y < l.rows
    ensures GetXY(l, ScreenPos(l, y * l.SizeRow() + 2 * x))
         == Position(ScreenPos(l, (y + 1) * l.SizeRow()), x, y)
  {
    ScreenPosIsView(l, x, y);
    ScreenPosIsView(l, 0, y + 1);
    if !l.foreground || l.lines == 0 {
      TextCell(l, y, x);
    } else if y < l.lines {
      RingCell(l, y, x);
    } else {
      TextCell(l, y - l.lines, x);
    }
  }
}
