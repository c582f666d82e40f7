/** The pixels and the cells: a panel that shows some cells shows the new ones after the blitter has done an operation
    whose effect on cells is known, in every rotation. */
module Picture {
  import opened Grid
  import opened RowArithmetic
  import opened Blitters

  /** `attr_fgcol` and `attr_bgcol` of a colour console. */
  function Fg(hiFont: bool, c: Cell): Color {
    Palette(if hiFont then (c >> 9) & 0xf else (c >> 8) & 0xf)
  }

  function Bg(hiFont: bool, c: Cell): Color {
    Palette(if hiFont then (c >> 13) & 0xf else (c >> 12) & 0xf)
  }

  function GlyphBits(hiFont: bool, c: Cell): Cell { c & if hiFont then 0x01ff else 0x00ff }

  /** A painted cell has the colours of its run's first character and its own glyph. */
  lemma PaintedHi(c: Cell, first: Cell)
    ensures Fg(true, Paint(true, c, first)) == Fg(true, first) && Bg(true, Paint(true, c, first)) == Bg(true, first)
    ensures GlyphBits(true, Paint(true, c, first)) == GlyphBits(true, c)
  {
  }

  lemma PaintedLo(c: Cell, first: Cell)
    ensures Fg(false, Paint(false, c, first)) == Fg(false, first)
    ensures Bg(false, Paint(false, c, first)) == Bg(false, first)
    ensures GlyphBits(false, Paint(false, c, first)) == GlyphBits(false, c)
  {
  }

  lemma Painted(hiFont: bool, c: Cell, first: Cell)
    ensures Fg(hiFont, Paint(hiFont, c, first)) == Fg(hiFont, first)
    ensures Bg(hiFont, Paint(hiFont, c, first)) == Bg(hiFont, first)
    ensures GlyphBits(hiFont, Paint(hiFont, c, first)) == GlyphBits(hiFont, c)
  {
    hide Fg, Bg, GlyphBits, Paint;
    PaintedHi(c, first);
    PaintedLo(c, first);
  }

  /** The dot of a cell that is shown as stored. */
  function Dot(b: Blitter, c: Cell, x: int, y: int): Color {
    if b.Glyph(c, x, y) then Fg(b.hiFont, c) else Bg(b.hiFont, c)
  }

  lemma Fields256(glyph: Cell, fg: Cell, bg: Cell)
    requires glyph < 0x100 && fg < 0x10 && bg < 0x10
    ensures var c := glyph | (fg << 8) | (bg << 12);
            (c >> 8) & 0xf == fg && (c >> 12) & 0xf == bg && c & 0x00ff == glyph
  {
  }

  lemma Fields512(glyph: Cell, fg: Cell, bg: Cell)
    requires glyph < 0x200 && fg < 0x10 && bg < 0x8
    ensures var c := glyph | (fg << 9) | (bg << 13);
            (c >> 9) & 0xf == fg && (c >> 13) & 0xf == bg && c & 0x01ff == glyph
  {
  }

  /** A cell put together from a glyph, a foreground and a background colour shows the glyph's dots in the one and the
      others in the other. With 512 glyphs there are eight background colours. */
  lemma DotColour(b: Blitter, c: Cell, glyph: Cell, fg: Cell, bg: Cell, x: int, y: int)
    requires if b.hiFont then glyph < 0x200 && fg < 0x10 && bg < 0x8 && c == glyph | (fg << 9) | (bg << 13)
             else glyph < 0x100 && fg < 0x10 && bg < 0x10 && c == glyph | (fg << 8) | (bg << 12)
    ensures Dot(b, c, x, y) == if b.font(glyph, x, y) then Palette(fg) else Palette(bg)
  {
    if b.hiFont {
      Fields512(glyph, fg, bg);
    } else {
      Fields256(glyph, fg, bg);
    }
  }

  function Line(b: Blitter, ly: int): (q: int)
    requires b.Valid()
    ensures 0 <= ly ==> 0 <= q
  {
    ly / b.fh
  }

  function InLine(b: Blitter, ly: int): int
    requires b.Valid()
  {
    ly % b.fh
  }

  /** The picture is the cells: every dot of every cell is that of the character stored there. */
  ghost predicate Shows(b: Blitter, rot: Rotation, cells: Rows, cols: nat)
    requires b.Valid() && Rect(cells, cols)
    reads b.screen
  {
    forall lx, ly {:trigger b.Seen(rot, lx, ly)} ::
      b.InView(rot, lx, ly) && b.Cell(lx) < cols && Line(b, ly) < |cells| ==>
      b.Seen(rot, lx, ly) == Dot(b, cells[Line(b, ly)][b.Cell(lx)], b.InCell(lx), InLine(b, ly))
  }

  /** A panel of the background colour shows blank rows. */
  lemma BlankIsShown(b: Blitter, rot: Rotation, rows: nat, cols: nat, blank: Cell)
    requires b.Valid() && b.NoInk(blank)
    requires forall lx, ly :: b.InView(rot, lx, ly) ==> b.Seen(rot, lx, ly) == Bg(b.hiFont, blank)
    ensures Shows(b, rot, Blanks(rows, cols, blank), cols)
  {
    hide Bg, Fg, Line, InLine, Blitter.Cell, Blitter.InCell, Blitter.Glyph;
  }

  lemma LineJoin(b: Blitter, d: nat, n: nat)
    requires b.Valid()
    ensures d == Line(b, d) * b.fh + InLine(b, d) && 0 <= InLine(b, d) < b.fh
    ensures d < n * b.fh <==> Line(b, d) < n
  {
    if Line(b, d) >= n {
      MulMono(n, Line(b, d), b.fh);
    } else {
      MulMono(Line(b, d) + 1, n, b.fh);
    }
  }

  /** A dot lies in a block of cells exactly when its line and column do. */
  lemma CellsOfDot(b: Blitter, lx: nat, ly: nat, y: nat, x: nat, h: nat, w: nat)
    requires b.Valid()
    ensures b.InCells(lx, ly, y, x, h, w) <==> y <= Line(b, ly) < y + h && x <= b.Cell(lx) < x + w
  {
    hide Line, InLine;
    LineJoin(b, ly, y);
    LineJoin(b, ly, y + h);
    b.CellJoin(lx, x);
    b.CellJoin(lx, x + w);
  }

  /** Going some cells over leads to the same dot of another cell. */
  lemma DotOver(b: Blitter, lx: nat, ly: nat, across: int, down: int)
    requires b.Valid() && 0 <= b.Cell(lx) + across && 0 <= Line(b, ly) + down
    ensures var mx, my := b.Over(lx, across), b.Below(ly, down);
            && 0 <= mx && 0 <= my
            && b.Cell(mx) == b.Cell(lx) + across && b.InCell(mx) == b.InCell(lx)
            && Line(b, my) == Line(b, ly) + down && InLine(b, my) == InLine(b, ly)
  {
    b.CellJoin(lx, 0);
    LineJoin(b, ly, 0);
    b.Spread(b.Cell(lx), across, b.fw);
    b.Spread(Line(b, ly), down, b.fh);
    b.NonNegative(b.Cell(lx) + across, b.fw);
    b.NonNegative(Line(b, ly) + down, b.fh);
    DivRow(b.Cell(lx) + across, b.fw, b.InCell(lx));
    DivRow(Line(b, ly) + down, b.fh, InLine(b, ly));
  }

  lemma BlockFits(b: Blitter, rot: Rotation, rows: nat, cols: nat, y: nat, x: nat, h: nat, w: nat)
    requires b.Fits(rot, 0, 0, rows, cols) && y + h <= rows && x + w <= cols
    ensures b.Fits(rot, y, x, h, w)
  {
    MulMono(y + h, rows, b.fh);
    MulMono(x + w, cols, b.fw);
  }

  /** A dot of a painted run: the glyph of its own character in the run's colours. */
  lemma PaintedDot(b: Blitter, run: Row, k: nat, x: int, y: int)
    requires k < |run|
    ensures Dot(b, PaintRun(b.hiFont, run)[k], x, y) ==
            if b.Glyph(run[k], x, y) then Fg(b.hiFont, run[0]) else Bg(b.hiFont, run[0])
  {
    hide Fg, Bg, Paint;
    Painted(b.hiFont, run[k], run[0]);
  }

  /** The dot of a text that lies in row y from column x on. */
  lemma DotOfText(b: Blitter, lx: nat, ly: nat, y: nat, x: nat, n: nat)
    requires b.Valid() && b.InCells(lx, ly, y, x, 1, n)
    ensures var a, c := lx - x * b.fw, ly - y * b.fh;
            && Line(b, ly) == y && x <= b.Cell(lx) < x + n
            && b.Cell(a) == b.Cell(lx) - x && b.InCell(a) == b.InCell(lx) && c == InLine(b, ly)
  {
    hide Line, InLine, Blitter.InCells;
    CellsOfDot(b, lx, ly, y, x, 1, n);
    DotOver(b, lx, ly, 0 - x, 0 - y);
    Negated(x, b.fw);
    Negated(y, b.fh);
    LineJoin(b, ly - y * b.fh, 0);
  }

  lemma Negated(a: nat, d: nat)
    ensures (0 - a) * d == 0 - a * d
  {
  }

  /** `putcs`, in the colours of the run's first character. */
  method Putcs(b: Blitter, rot: Rotation, run: Row, y: nat, x: nat, ghost cells: Rows, ghost cols: nat)
    requires b.Valid() && Rect(cells, cols) && Shows(b, rot, cells, cols)
    requires 0 < |run| && y < |cells| && x + |run| <= cols && b.Fits(rot, y, x, 1, |run|)
    modifies b.screen
    ensures Shows(b, rot, cells[y := Paste(cells[y], x, PaintRun(b.hiFont, run))], cols)
  {
    hide Dot, Blitter.Seen, Blitter.Fits, Blitter.InCells, Fg, Bg, PaintRun, Line, InLine, Blitter.Cell,
      Blitter.InCell, Blitter.Glyph;
    ghost var now := cells[y := Paste(cells[y], x, PaintRun(b.hiFont, run))];
    b.Putcs(rot, run, y, x, Fg(b.hiFont, run[0]), Bg(b.hiFont, run[0]));
    forall lx, ly | b.InView(rot, lx, ly) && b.Cell(lx) < cols && Line(b, ly) < |now|
      ensures b.Seen(rot, lx, ly) == Dot(b, now[Line(b, ly)][b.Cell(lx)], b.InCell(lx), InLine(b, ly))
    {
      CellsOfDot(b, lx, ly, y, x, 1, |run|);
      if b.InCells(lx, ly, y, x, 1, |run|) {
        DotOfText(b, lx, ly, y, x, |run|);
        PaintedDot(b, run, b.Cell(lx) - x, b.InCell(lx), InLine(b, ly));
      } else {
        assert now[Line(b, ly)][b.Cell(lx)] == cells[Line(b, ly)][b.Cell(lx)];
      }
    }
  }

  /** `clear`, with an erase character whose glyph is empty. */
  method Clear(b: Blitter, rot: Rotation, y: nat, x: nat, h: nat, w: nat, erase: Cell,
               ghost cells: Rows, ghost cols: nat)
    requires b.Valid() && Rect(cells, cols) && Shows(b, rot, cells, cols)
    requires y + h <= |cells| && x + w <= cols && b.Fits(rot, y, x, h, w) && b.NoInk(erase)
    modifies b.screen
    ensures Shows(b, rot, Wipe(cells, cols, y, x, h, w, erase), cols)
  {
    hide Blitter.Seen, Blitter.Fits, Blitter.InCells, Fg, Bg, Line, InLine, Blitter.Cell, Blitter.InCell, Blitter.Glyph;
    ghost var now := Wipe(cells, cols, y, x, h, w, erase);
    b.Clear(rot, y, x, h, w, Bg(b.hiFont, erase));
    forall lx, ly | b.InView(rot, lx, ly) && b.Cell(lx) < cols && Line(b, ly) < |now|
      ensures b.Seen(rot, lx, ly) == Dot(b, now[Line(b, ly)][b.Cell(lx)], b.InCell(lx), InLine(b, ly))
    {
      CellsOfDot(b, lx, ly, y, x, h, w);
      if b.InCells(lx, ly, y, x, h, w) {
        assert now[Line(b, ly)][b.Cell(lx)] == erase;
      } else {
        assert now[Line(b, ly)][b.Cell(lx)] == cells[Line(b, ly)][b.Cell(lx)];
      }
    }
  }

  /** `bmove`, overlap included. */
  method Bmove(b: Blitter, rot: Rotation, sy: nat, sx: nat, dy: nat, dx: nat, h: nat, w: nat,
               ghost cells: Rows, ghost cols: nat)
    requires b.Valid() && Rect(cells, cols) && Shows(b, rot, cells, cols)
    requires sy + h <= |cells| && dy + h <= |cells| && sx + w <= cols && dx + w <= cols
    requires b.Fits(rot, sy, sx, h, w) && b.Fits(rot, dy, dx, h, w)
    modifies b.screen
    ensures Shows(b, rot, Blit(cells, cols, sy, sx, dy, dx, h, w), cols)
  {
    hide Dot, Blitter.Seen, Blitter.Fits, Blitter.InCells, Blitter.Over, Blitter.Below, Line, InLine, Blitter.Cell,
      Blitter.InCell, Blit;
    ghost var now := Blit(cells, cols, sy, sx, dy, dx, h, w);
    b.Bmove(rot, sy, sx, dy, dx, h, w);
    forall lx, ly | b.InView(rot, lx, ly) && b.Cell(lx) < cols && Line(b, ly) < |now|
      ensures b.Seen(rot, lx, ly) == Dot(b, now[Line(b, ly)][b.Cell(lx)], b.InCell(lx), InLine(b, ly))
    {
      var i, j := Line(b, ly), b.Cell(lx);
      CellsOfDot(b, lx, ly, dy, dx, h, w);
      BlitCell(cells, cols, sy, sx, dy, dx, h, w, i, j);
      if b.InCells(lx, ly, dy, dx, h, w) {
        DotOver(b, lx, ly, sx - dx, sy - dy);
      }
    }
  }
}
