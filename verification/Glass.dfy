/** What the user sees on the glass: the hardware window over the panel, after any run of the console. */
module Glass {
  import opened RowArithmetic
  import opened Grid
  import opened Blitters
  import opened DisplayModel
  import opened ConsoleModel
  import opened ScrollGeometry
  import opened PanningModel
  import ConsoleRun
  import Picture
  import Terminal

  /** The display is laid out for its panel: as many rows as the glass has, and the modes that move the window have
      what `updatescrollmode` computes for the height of the picture. */
  ghost predicate LaidOut(d: Display) reads d, d.panel {
    var fh, yres, vyres := d.panel.fh, d.panel.GlassHeight(d.rot), d.panel.ViewHeight(d.rot);
    && 0 < fh <= yres && d.rows == yres / fh && 0 < d.panel.xres && 0 < d.panel.yres
    && d.cols * d.panel.fw <= d.panel.GlassWidth(d.rot)
    && (d.Pans() ==> d.cells.Length == Vrows(fh, yres, vyres, d.rows))
    && (d.mode.WrapMove? ==>
          d.cells.Length == Vrows(fh, yres, vyres, d.rows) && Divides(fh, yres) && Divides(fh, vyres))
    && (!Moving(d.mode) ==> d.yscroll == 0)
  }

  /** The window starts at a line of the picture and, panned, ends in it. */
  lemma WindowInside(d: Display)
    requires d.Valid() && LaidOut(d)
    ensures d.panel.Visible(d.rot, d.yscroll * d.panel.fh)
    ensures !d.mode.WrapMove? ==>
              InMemory(d.panel.fh, d.panel.GlassHeight(d.rot), d.panel.ViewHeight(d.rot), d.yscroll)
    ensures d.mode.WrapMove? ==> d.cells.Length * d.panel.fh == d.panel.ViewHeight(d.rot)
  {
    hide Vrows, Divides, InMemory, Picture.Shows, Blitter.Fits;
    var fh, yres, vyres := d.panel.fh, d.panel.GlassHeight(d.rot), d.panel.ViewHeight(d.rot);
    if d.Pans() {
      PanInside(fh, yres, vyres, d.cells.Length, d.yscroll);
    } else if d.mode.WrapMove? {
      Tiles(fh, yres, vyres, d.rows);
      TopOf(d.yscroll, d.cells.Length, fh);
    } else {
      AtTop(fh, yres, vyres);
    }
  }

  lemma PanInside(fh: nat, yres: nat, vyres: nat, vrows: nat, yscroll: nat)
    requires 0 < fh <= yres <= vyres && vrows == Vrows(fh, yres, vyres, yres / fh) && yscroll <= vrows - yres / fh
    ensures InMemory(fh, yres, vyres, yscroll) && 0 <= yscroll * fh && yscroll * fh + yres <= vyres
  {
    PanStaysInside(fh, yres, vyres, vrows, yscroll);
    MulMono(0, yscroll, fh);
  }

  lemma AtTop(fh: nat, yres: nat, vyres: nat)
    requires yres <= vyres
    ensures InMemory(fh, yres, vyres, 0) && 0 * fh == 0
  {
  }

  lemma TopOf(yscroll: nat, n: nat, fh: nat)
    requires yscroll < n && 0 < fh
    ensures 0 <= yscroll * fh < n * fh
  {
    MulMono(yscroll + 1, n, fh);
  }

  lemma Tiles(fh: nat, yres: nat, vyres: nat, rows: nat)
    requires 0 < fh <= yres && rows == yres / fh && Divides(fh, yres) && Divides(fh, vyres)
    ensures Vrows(fh, yres, vyres, rows) * fh == vyres
  {
    Quotient(yres, fh);
    Quotient(vyres, fh);
    assert fh * (rows + 1) == fh * rows + fh;
  }

  /** Line v of the window belongs to the text row that `real_y` finds for it. */
  lemma WindowLine(d: Display, v: nat)
    requires d.Valid() && LaidOut(d) && v < d.rows * d.panel.fh
    ensures var b, line := d.panel, Picture.Line(d.panel, v);
            var ly := b.Around(d.yscroll * b.fh + v, b.ViewHeight(d.rot));
            && 0 <= ly && line < d.rows
            && Picture.Line(b, ly) == RealY(d.cells.Length, d.yscroll, line) < d.cells.Length
            && Picture.InLine(b, ly) == Picture.InLine(b, v)
  {
    hide Picture.Line, Picture.InLine, Blitter.Cell, Blitter.InCell, Blitter.Fits, LaidOut, Picture.Shows, Vrows;
    var b, n, ys := d.panel, d.cells.Length, d.yscroll;
    WindowInside(d);
    Picture.LineJoin(b, v, d.rows);
    Picture.DotOver(b, 0, v, 0, ys);
    if d.mode.WrapMove? {
      Picture.LineJoin(b, ys * b.fh + v, n);
      if ys + Picture.Line(b, v) >= n {
        Picture.DotOver(b, 0, v, 0, ys - n);
        b.Spread(ys, 0 - n, b.fh);
        Picture.Negated(n, b.fh);
      }
    } else {
      RowsOnGlass(d, v);
    }
  }

  /** The rows fill the glass but for a rest. */
  lemma RowsOnGlass(d: Display, v: nat)
    requires d.Valid() && LaidOut(d) && v < d.rows * d.panel.fh
    ensures v < d.panel.GlassHeight(d.rot)
    ensures !d.mode.WrapMove? ==> d.yscroll + d.rows <= d.cells.Length
  {
    hide Vrows, Divides, Display.Drawn;
    Quotient(d.panel.GlassHeight(d.rot), d.panel.fh);
    assert d.rows * d.panel.fh == d.panel.fh * d.rows;
  }

  /** The window `update_start` selects for the display's position shows the screen, dot by dot. */
  method ShowWindow(d: Display) returns (xoffset: int, yoffset: int)
    requires d.Valid() && LaidOut(d)
    ensures d.panel.Scans(xoffset, yoffset)
    ensures Shown(d, xoffset, yoffset, d.Screen())
  {
    hide Picture.Line, Picture.InLine, Picture.Dot, Blitter.Cell, Blitter.InCell, Blitter.Around, Blitter.Seen,
      Blitter.Scanned, Blitter.Scans, Vrows, Divides, RealY, Unwrapped, Blitter.ViewHeight, Blitter.InView;
    WindowInside(d);
    xoffset, yoffset := d.panel.UpdateStart(d.rot, d.yscroll * d.panel.fh);
    forall u, v | 0 <= u < d.cols * d.panel.fw && 0 <= v < d.rows * d.panel.fh
      ensures DotShown(d, xoffset, yoffset, d.Screen(), u, v)
    {
      WindowLine(d, v);
      RowsOnGlass(d, v);
      d.panel.CellJoin(u, d.cols);
      UnwrappedAt(d.cells[..], d.yscroll, Picture.Line(d.panel, v));
    }
  }

  /** Every dot of the text on the glass is that of the character in its row and column. */
  ghost predicate Shown(d: Display, xoffset: int, yoffset: int, rows: Rows)
    requires d.Valid() && LaidOut(d) && d.panel.Scans(xoffset, yoffset) && |rows| == d.rows && Rect(rows, d.cols)
    reads d, d.cells, d.panel, d.panel.screen
  {
    forall u, v :: 0 <= u < d.cols * d.panel.fw && 0 <= v < d.rows * d.panel.fh ==>
      DotShown(d, xoffset, yoffset, rows, u, v)
  }

  ghost predicate DotShown(d: Display, xoffset: int, yoffset: int, rows: Rows, u: nat, v: nat)
    requires d.Valid() && LaidOut(d) && d.panel.Scans(xoffset, yoffset) && |rows| == d.rows && Rect(rows, d.cols)
    reads d, d.cells, d.panel, d.panel.screen
  {
    var b := d.panel;
    && b.OnGlass(d.rot, u, v) && b.Cell(u) < d.cols && Picture.Line(b, v) < d.rows
    && b.Scanned(d.rot, xoffset, yoffset, u, v) ==
       Picture.Dot(b, rows[Picture.Line(b, v)][b.Cell(u)], b.InCell(u), Picture.InLine(b, v))
  }

  /** Dot (gx, gy) of the character in row r and column k: the glyph's own dot, upright, in the character's
      foreground colour, or its background colour. */
  lemma ColoursOnGlass(d: Display, xoffset: int, yoffset: int, rows: Rows, r: nat, k: nat, glyph: Cell, fg: Cell,
                       bg: Cell, gx: nat, gy: nat)
    requires d.Valid() && LaidOut(d) && d.panel.Scans(xoffset, yoffset) && |rows| == d.rows && Rect(rows, d.cols)
    requires Shown(d, xoffset, yoffset, rows)
    requires r < d.rows && k < d.cols && gx < d.panel.fw && gy < d.panel.fh
    requires if d.panel.hiFont then
               glyph < 0x200 && fg < 0x10 && bg < 0x8 && rows[r][k] == glyph | (fg << 9) | (bg << 13)
             else glyph < 0x100 && fg < 0x10 && bg < 0x10 && rows[r][k] == glyph | (fg << 8) | (bg << 12)
    ensures var b, u, v := d.panel, k * d.panel.fw + gx, r * d.panel.fh + gy;
            && b.OnGlass(d.rot, u, v)
            && b.Scanned(d.rot, xoffset, yoffset, u, v) == Palette(if b.font(glyph, gx, gy) then fg else bg)
  {
    hide LaidOut, Display.Drawn, Blitter.Scans, Blitter.Scanned, Picture.Dot;
    var b, u, v := d.panel, k * d.panel.fw + gx, r * d.panel.fh + gy;
    DivRow(k, b.fw, gx);
    DivRow(r, b.fh, gy);
    MulMono(k + 1, d.cols, b.fw);
    MulMono(r + 1, d.rows, b.fh);
    assert DotShown(d, xoffset, yoffset, rows, u, v);
    Picture.DotColour(b, rows[r][k], glyph, fg, bg, gx, gy);
  }

  /** Over every run that `ConsoleRun.Run` covers, in every rotation and mode, the glass shows the plain terminal's view
      in the end, through a window that has stayed inside the memory. */
  method Run(c: Console, ops: seq<Terminal.Op>, behind: seq<Rows>)
    returns (n: nat, xoffset: int, yoffset: int)
    requires c.Valid() && c.InSync() && |behind| == |ops| && forall m <- behind :: c.Behind(m)
    requires forall op <- ops :: Terminal.Proper(op, c.disp.rows, c.disp.cols)
    requires LaidOut(c.disp)
    modifies c, c.ring, c.disp, c.disp.cells, c.disp.panel.screen, c.text
    ensures c.Valid() && LaidOut(c.disp) && n <= |ops|
    ensures forall op <- ops[..n] :: Terminal.Proper(op, c.disp.rows, c.disp.cols)
    ensures n < |ops| ==> |behind[n]| == c.disp.rows && !ConsoleRun.Faithful(c, ops[n], behind[n])
    ensures ConsoleRun.Guarded(c.Window(), old(c.disp.yscroll), ops) ==> n == |ops|
    ensures !c.disp.mode.WrapMove? ==>
              var b := c.disp.panel;
              InMemory(b.fh, b.GlassHeight(c.disp.rot), b.ViewHeight(c.disp.rot), c.disp.yscroll)
    ensures c.disp.panel.Scans(xoffset, yoffset)
    ensures ConsoleRun.Abstract(c) ==
            Terminal.Run(old(ConsoleRun.Abstract(c)), ops[..n], c.disp.cols, c.erase, c.ring.Length - 1)
    ensures c.disp.Screen() == Terminal.View(ConsoleRun.Abstract(c), c.ring.Length - 1)
    ensures Shown(c.disp, xoffset, yoffset, c.disp.Screen())
  {
    hide Display.Screen, Terminal.Run, Terminal.Proper, Terminal.View, Console.ShowsScroll, ConsoleRun.Faithful,
      ConsoleRun.Guarded, ConsoleRun.PositionAfter, Console.View, Console.InSync, Vrows, Shown, Picture.Shows;
    ghost var ys := c.disp.yscroll;
    n := ConsoleRun.Run(c, ops, behind);
    StaysPut(c.Window(), ys, ops[..n]);
    WindowInside(c.disp);
    xoffset, yoffset := ShowWindow(c.disp);
  }

  /** The modes that never move the window leave it where it was. */
  lemma {:induction false} StaysPut(w: Panning, ys: int, ops: seq<Terminal.Op>)
    ensures !Moving(w.mode) ==> ConsoleRun.PositionAfter(w, ys, ops) == ys
    decreases |ops|
  {
    if ops != [] {
      StaysPut(w, ys, ops[..|ops| - 1]);
    }
  }
}
