/** `struct fbcon_display`: the physical cells and the panel that shows them, the hardware scroll position, and the
    operations that turn display rows into physical ones. */
module DisplayModel {
  import opened Grid
  import opened Blitters
  import Picture

  datatype ScrollMode = Move | PanMove | WrapMove | Redraw | PanRedraw

  /** The scroll position `step` rows on, down the framebuffer or up it: wrapping, or jumping back by the rows
      there are to spare. */
  function SlidFrom(mode: ScrollMode, vrows: nat, rows: nat, yscroll: int, step: int): int {
    var ys, span := yscroll + step, if mode.WrapMove? then vrows else vrows - rows;
    if ys < 0 then ys + span
    else if ys > span || (ys == span && mode.WrapMove?) then ys - span
    else ys
  }

  /** The modes that move the hardware window. */
  predicate Moving(mode: ScrollMode) { mode.WrapMove? || mode.PanMove? || mode.PanRedraw? }

  class Display {
    const cells: array<Row>   // one entry per physical row of the virtual framebuffer
    const rows: nat           // rows the display shows
    const cols: nat
    const panel: Blitter      // draws every operation as well
    const rot: Rotation       // ops->rotate
    const room: nat           // rows GETVYRES has room for: all of them, or those shown when the window never moves
    const mode: ScrollMode
    var yscroll: int

    /** A blank display on a blank panel. */
    constructor (panel: Blitter, rot: Rotation, vrows: nat, room: nat, rows: nat, cols: nat, mode: ScrollMode,
                 blank: Cell)
      requires 0 < rows <= room <= vrows && 0 < cols && (Moving(mode) ==> room == vrows)
      requires mode.WrapMove? ==> !panel.Sideways(rot)
      requires panel.Valid() && panel.Fits(rot, 0, 0, room, cols) && panel.NoInk(blank)
      requires forall lx, ly :: panel.InView(rot, lx, ly) ==>
                 panel.Seen(rot, lx, ly) == Picture.Bg(panel.hiFont, blank)
      ensures Valid() && fresh(cells) && cells.Length == vrows
      ensures this.panel == panel && this.rot == rot && this.room == room
      ensures this.rows == rows && this.cols == cols && this.mode == mode
      ensures Screen() == Blanks(rows, cols, blank) && yscroll == 0
    {
      this.panel, this.rot, this.room := panel, rot, room;
      this.rows, this.cols, this.mode := rows, cols, mode;
      yscroll := 0;
      cells := new Row[vrows](_ => seq(cols, _ => blank));
      new;
      hide Picture.Shows, Blitter.Seen, Blitter.InView, Blitter.Fits;
      Picture.BlankIsShown(panel, rot, vrows, cols, blank);
      assert cells[..] == Blanks(vrows, cols, blank);
    }

    /** The panel shows the cells. */
    ghost predicate Drawn() reads cells, panel.screen {
      && panel.Valid() && panel.Fits(rot, 0, 0, room, cols)
      && Rect(cells[..], cols) && Picture.Shows(panel, rot, cells[..], cols)
    }

    ghost predicate Sized() reads cells, panel.screen {
      0 < rows <= room <= cells.Length && 0 < cols && Rect(cells[..], cols) && Drawn()
    }

    ghost predicate Shape() reads this, cells, panel.screen {
      Sized() && 0 <= yscroll < cells.Length && (room < cells.Length ==> !Moving(mode) && yscroll + rows <= room)
    }

    /** There is room on the panel for these display rows. */
    predicate InRoom(y: nat, h: nat) { y + h <= if room < cells.Length then rows else cells.Length }

    ghost predicate Pans() { mode.PanMove? || mode.PanRedraw? }

    ghost predicate Valid() reads this, cells, panel.screen {
      && Shape()
      && (Pans() ==> yscroll <= cells.Length - rows)
      && (mode.Move? ==> yscroll == 0)
      && (mode.WrapMove? ==> !panel.Sideways(rot))
    }

    /** All rows of the framebuffer in display order. */
    function Logical(): (g: Rows)
      requires Shape()
      reads this, cells, panel.screen
      ensures |g| == cells.Length && Rect(g, cols)
    {
      UnwrappedRect(cells[..], yscroll, cols);
      Unwrapped(cells[..], yscroll)
    }

    /** What the user sees. */
    ghost function Screen(): (g: Rows)
      requires Shape()
      reads this, cells, panel.screen
      ensures |g| == rows && Rect(g, cols)
    {
      Logical()[..rows]
    }

    /** The rows of the framebuffer that are not shown. */
    function Hidden(): (g: Rows)
      requires Shape()
      reads this, cells, panel.screen
      ensures |g| == cells.Length - rows && Rect(g, cols)
    {
      Logical()[rows..]
    }

    // --- The blitters, on physical rows --------------------------------------------

    method OpsBmove(sy: int, sx: nat, dy: int, dx: nat, h: nat, w: nat)
      requires Sized()
      requires 0 <= sy && sy + h <= room && 0 <= dy && dy + h <= room && sx + w <= cols && dx + w <= cols
      modifies cells, panel.screen
      ensures Sized()
      ensures cells[..] == Blit(old(cells[..]), cols, sy, sx, dy, dx, h, w)
    {
      hide Picture.Shows, Blitter.Fits, Blit;
      Picture.BlockFits(panel, rot, room, cols, sy, sx, h, w);
      Picture.BlockFits(panel, rot, room, cols, dy, dx, h, w);
      Picture.Bmove(panel, rot, sy, sx, dy, dx, h, w, cells[..], cols);
      MoveCells(sy, sx, dy, dx, h, w);
    }

    /** What the operation does to the cells. */
    method MoveCells(sy: int, sx: nat, dy: int, dx: nat, h: nat, w: nat)
      requires Rect(cells[..], cols)
      requires 0 <= sy && sy + h <= cells.Length && 0 <= dy && dy + h <= cells.Length
      requires sx + w <= cols && dx + w <= cols
      modifies cells
      ensures cells[..] == Blit(old(cells[..]), cols, sy, sx, dy, dx, h, w)
    {
      forall i | dy <= i < dy + h {
        cells[i] := Mix(cells[i], dx, cells[sy + (i - dy)], sx, w);
      }
      assert cells[..] == Blit(old(cells[..]), cols, sy, sx, dy, dx, h, w);
    }

    method OpsClear(sy: int, sx: nat, h: nat, w: nat, blank: Cell)
      requires Sized() && 0 <= sy && sy + h <= room && sx + w <= cols && panel.NoInk(blank)
      modifies cells, panel.screen
      ensures Sized()
      ensures cells[..] == Wipe(old(cells[..]), cols, sy, sx, h, w, blank)
    {
      hide Picture.Shows, Blitter.Fits;
      Picture.BlockFits(panel, rot, room, cols, sy, sx, h, w);
      Picture.Clear(panel, rot, sy, sx, h, w, blank, cells[..], cols);
      forall i | sy <= i < sy + h {
        cells[i] := Paste(cells[i], sx, seq(w, _ => blank));
      }
      assert cells[..] == Wipe(old(cells[..]), cols, sy, sx, h, w, blank);
    }

    method OpsPutcs(run: Row, y: int, x: nat)
      requires Sized() && 0 < |run| && 0 <= y < room && x + |run| <= cols
      modifies cells, panel.screen
      ensures Sized()
      ensures cells[..] == old(cells[..])[y := Paste(old(cells[y]), x, PaintRun(panel.hiFont, run))]
    {
      hide Picture.Shows, Blitter.Fits, PaintRun;
      Picture.BlockFits(panel, rot, room, cols, y, x, 1, |run|);
      Picture.Putcs(panel, rot, run, y, x, cells[..], cols);
      cells[y] := Paste(cells[y], x, PaintRun(panel.hiFont, run));
    }

    // --- On display rows ---------------------------------------------------------------

    /** Splits a move at the physical end of the framebuffer, first by its source rows,
        then by its target rows. `n` counts the blits it issues. */
    method BmoveRec(sy: nat, sx: nat, dy: nat, dx: nat, h: nat, w: nat, yBreak: nat) returns (ghost n: nat)
      requires Shape() && yBreak == cells.Length - yscroll && 0 < h
      requires InRoom(sy, h) && InRoom(dy, h) && sx + w <= cols && dx + w <= cols
      modifies cells, panel.screen
      ensures Shape()
      ensures Logical() == Blit(old(Logical()), cols, sy, sx, dy, dx, h, w)
      ensures n <= 1 + Ord(Crosses(sy, h, yBreak)) + Ord(Crosses(dy, h, yBreak))
      decreases h
    {
      ghost var g := Logical();
      if sy < yBreak && sy + h > yBreak {
        n := BmoveCut(sy, sx, dy, dx, h, w, yBreak, yBreak - sy);
        CutCounts(sy, dy, h, yBreak, yBreak - sy);
        return;
      }
      if dy < yBreak && dy + h > yBreak {
        n := BmoveCut(sy, sx, dy, dx, h, w, yBreak, yBreak - dy);
        CutCounts(sy, dy, h, yBreak, yBreak - dy);
        return;
      }
      StraightBlit(cells[..], cols, yscroll, sy, sx, dy, dx, h, w);
      OpsBmove(RealY(cells.Length, yscroll, sy), sx, RealY(cells.Length, yscroll, dy), dx, h, w);
      n := 1;
    }

    method BmoveCut(sy: nat, sx: nat, dy: nat, dx: nat, h: nat, w: nat, yBreak: nat, b: nat) returns (ghost n: nat)
      requires Shape() && yBreak == cells.Length - yscroll && 0 < b < h
      requires InRoom(sy, h) && InRoom(dy, h) && sx + w <= cols && dx + w <= cols
      modifies cells, panel.screen
      ensures Shape()
      ensures Logical() == Blit(old(Logical()), cols, sy, sx, dy, dx, h, w)
      ensures n <= 2 + Ord(Crosses(sy, b, yBreak)) + Ord(Crosses(dy, b, yBreak))
                     + Ord(Crosses(sy + b, h - b, yBreak)) + Ord(Crosses(dy + b, h - b, yBreak))
      decreases h, 0
    {
      hide Blit, Unwrapped;
      ghost var g := Logical();
      ghost var n1, n2;
      if dy < sy {  // keep the rows still to be read
        n1 := BmoveRec(sy, sx, dy, dx, b, w, yBreak);
        n2 := BmoveRec(sy + b, sx, dy + b, dx, h - b, w, yBreak);
        CutBlitUp(g, cols, sy, sx, dy, dx, h, w, b);
      } else {
        n1 := BmoveRec(sy + b, sx, dy + b, dx, h - b, w, yBreak);
        n2 := BmoveRec(sy, sx, dy, dx, b, w, yBreak);
        CutBlitDown(g, cols, sy, sx, dy, dx, h, w, b);
      }
      n := n1 + n2;
    }

    method Bmove(sy: nat, sx: nat, dy: nat, dx: nat, h: nat, w: nat) returns (ghost n: nat)
      requires Shape()
      requires InRoom(sy, h) && InRoom(dy, h) && sx + w <= cols && dx + w <= cols
      modifies cells, panel.screen
      ensures Shape()
      ensures Logical() == Blit(old(Logical()), cols, sy, sx, dy, dx, h, w)
      ensures n <= 3
    {
      if w == 0 || h == 0 {
        n := 0;
        EmptyRectangle(Logical(), cols, sy, sx, dy, dx, h, w, 0);
        return;
      }
      n := BmoveRec(sy, sx, dy, dx, h, w, cells.Length - yscroll);
    }

    method Clear(sy: nat, sx: nat, h: nat, w: nat, blank: Cell)
      requires Shape() && InRoom(sy, h) && sx + w <= cols && panel.NoInk(blank)
      modifies cells, panel.screen
      ensures Shape()
      ensures Logical() == Wipe(old(Logical()), cols, sy, sx, h, w, blank)
    {
      hide Wipe, Unwrapped, Drawn;
      if h == 0 || w == 0 {
        EmptyRectangle(Logical(), cols, sy, sx, sy, sx, h, w, blank);
        return;
      }
      var vrows, yBreak := cells.Length, cells.Length - yscroll;
      ghost var g := Logical();
      if sy < yBreak && sy + h - 1 >= yBreak {
        var b := yBreak - sy;
        StraightWipe(cells[..], cols, yscroll, sy, sx, b, w, blank);
        OpsClear(RealY(vrows, yscroll, sy), sx, b, w, blank);
        StraightWipe(cells[..], cols, yscroll, sy + b, sx, h - b, w, blank);
        OpsClear(RealY(vrows, yscroll, sy + b), sx, h - b, w, blank);
        CutWipe(g, cols, sy, sx, h, w, b, blank);
      } else {
        StraightWipe(cells[..], cols, yscroll, sy, sx, h, w, blank);
        OpsClear(RealY(vrows, yscroll, sy), sx, h, w, blank);
      }
    }

    /** Any line that `real_y` maps to a physical row, on the screen or not. */
    method Putcs(run: Row, y: nat, x: nat)
      requires Shape() && 0 < |run| && y + yscroll < 2 * cells.Length && x + |run| <= cols
      requires y < rows || room == cells.Length
      modifies cells, panel.screen
      ensures Shape()
      ensures var at, g := LineOn(cells.Length, y), old(Logical());
              0 <= at < |g| && Logical() == g[at := Paste(g[at], x, PaintRun(panel.hiFont, run))]
      ensures y < rows ==>
                && Screen() == old(Screen())[y := Paste(old(Screen())[y], x, PaintRun(panel.hiFont, run))]
                && Hidden() == old(Hidden())
    {
      ghost var p, at := cells[..], LineOn(cells.Length, y);
      OpsPutcs(run, RealY(cells.Length, yscroll, y), x);
      UnwrappedUpdate(p, yscroll, at, Paste(p[RealY(|p|, yscroll, y)], x, PaintRun(panel.hiFont, run)));
      UnwrappedAt(p, yscroll, at);
    }

    /** A full-width move inside the screen. */
    method MoveLines(s: nat, d: nat, h: nat)
      requires Shape() && s + h <= rows && d + h <= rows
      modifies cells, panel.screen
      ensures Shape()
      ensures Screen() == MoveRows(old(Screen()), s, d, h)
    {
      ghost var g := Logical();
      ghost var n := Bmove(s, 0, d, 0, h, cols);
      FullWidthBlit(g, cols, s, d, h);
      MoveInPrefix(g, rows, s, d, h);
    }

    method ClearLines(s: nat, h: nat, blank: Cell)
      requires Shape() && s + h <= rows && panel.NoInk(blank)
      modifies cells, panel.screen
      ensures Shape()
      ensures Screen() == old(Screen())[..s] + Blanks(h, cols, blank) + old(Screen())[s + h..]
    {
      hide Wipe, Unwrapped, Drawn, Blanks;
      ghost var g := Logical();
      Clear(s, 0, h, cols, blank);
      FullWidthWipe(g, cols, s, h, blank);
    }

    /** `fbcon_putcs` of the next run of `src` on a line that shows `src` before x and `was`
        from x on. The run must have one attribute. */
    method PutRunAt(line: nat, run: Row, x: nat, ghost src: Row, ghost was: Row, ghost attr: Cell)
      requires Shape() && line + yscroll < 2 * cells.Length && (line < rows || room == cells.Length)
      requires |src| == |was| == cols && 0 < |run| && x + |run| <= cols
      requires run == src[x..x + |run|] && forall j :: x <= j < x + |run| ==> Attr(src[j]) == attr
      requires 0 <= LineOn(cells.Length, line) < cells.Length
      requires Logical()[LineOn(cells.Length, line)] == Merge(src, was, x)
      modifies cells, panel.screen
      ensures Shape()
      ensures Logical() == old(Logical())[LineOn(cells.Length, line) := Merge(src, was, x + |run|)]
    {
      hide Attr, Unwrapped, Logical;
      RunHasOneAttribute(src, x, run, attr);
      PaintUniformRun(panel.hiFont, run);
      Putcs(run, line, x);
      assert Paste(Merge(src, was, x), x, run) == Merge(src, was, x + |run|);
    }

    /** The same on a line of the screen. */
    method PutRun(line: nat, run: Row, x: nat, ghost src: Row, ghost was: Row, ghost attr: Cell)
      requires Shape() && line < rows && |src| == |was| == cols && 0 < |run| && x + |run| <= cols
      requires run == src[x..x + |run|] && forall j :: x <= j < x + |run| ==> Attr(src[j]) == attr
      requires Screen()[line] == Merge(src, was, x)
      modifies cells, panel.screen
      ensures Shape()
      ensures Screen() == old(Screen())[line := Merge(src, was, x + |run|)] && Hidden() == old(Hidden())
    {
      hide Attr, Merge, Unwrapped, Logical;
      PutRunAt(line, run, x, src, was, attr);
    }

    /** The blitter copies n cells from x on of a line that shows `src` to the line above or
        below, which shows `src` before x and `was` from there on. */
    method CopyRun(from: nat, line: nat, x: nat, n: nat, ghost src: Row, ghost was: Row)
      requires Shape() && yscroll == 0 && from < rows && line < rows && from != line
      requires |src| == |was| == cols && x + n <= cols
      requires Screen()[from] == src && Screen()[line] == Merge(src, was, x)
      modifies cells, panel.screen
      ensures Shape()
      ensures Screen() == old(Screen())[line := Merge(src, was, x + n)]
    {
      ghost var p := cells[..];
      assert Unwrapped(p, 0) == p;
      OpsBmove(from, x, line, x, 1, n);
      assert Mix(Merge(src, was, x), x, src, x, n) == Merge(src, was, x + n);
      assert cells[..] == p[line := Merge(src, was, x + n)];
    }

    function Slid(step: int): int
      reads this
    {
      SlidFrom(mode, cells.Length, rows, yscroll, step)
    }

    // --- Hardware scrolling --------------------------------------------------------------

    method YwrapUp(count: nat)
      requires Valid() && mode.WrapMove? && count <= rows
      modifies `yscroll
      ensures Valid() && yscroll == old(Slid(count))
      ensures Screen()[..rows - count] == old(Screen())[count..]
    {
      yscroll := yscroll + count;
      if yscroll >= cells.Length {
        yscroll := yscroll - cells.Length;
      }
      WindowSlides(cells[..], rows, old(yscroll), yscroll, count);
    }

    method YwrapDown(count: nat)
      requires Valid() && mode.WrapMove? && count <= rows
      modifies `yscroll
      ensures Valid() && yscroll == old(Slid(0 - count))
      ensures Screen()[count..] == old(Screen())[..rows - count]
    {
      yscroll := yscroll - count;
      if yscroll < 0 {
        yscroll := yscroll + cells.Length;
      }
      WindowSlides(cells[..], rows, yscroll, old(yscroll), count);
    }

    /** When the window would pass the end, its last position is copied to the top first. */
    method YpanUp(count: nat)
      requires Valid() && mode.PanMove? && count <= rows
      requires yscroll + count <= 2 * (cells.Length - rows)
      modifies this, cells, panel.screen
      ensures Valid() && yscroll == old(Slid(count))
      ensures Screen()[..rows - count] == old(Screen())[count..]
    {
      hide Blit, Unwrapped, MoveRows;
      ghost var p, ys := cells[..], yscroll;
      yscroll := yscroll + count;
      if yscroll > cells.Length - rows {
        OpsBmove(cells.Length - rows, 0, 0, 0, rows, cols);
        FullWidthBlit(p, cols, cells.Length - rows, 0, rows);
        assert cells[..] == MoveRows(p, |p| - rows, 0, rows);
        yscroll := yscroll - (cells.Length - rows);
        assert cells[..] == MoveRows(p, |p| - rows, 0, rows);
        PanUpWindow(p, rows, ys, count);
      } else {
        WindowSlides(p, rows, ys, yscroll, count);
      }
    }

    method YpanDown(count: nat)
      requires Valid() && mode.PanMove? && count <= rows
      requires count - yscroll <= cells.Length - rows
      modifies this, cells, panel.screen
      ensures Valid() && yscroll == old(Slid(0 - count))
      ensures Screen()[count..] == old(Screen())[..rows - count]
    {
      hide Blit, Unwrapped, MoveRows;
      ghost var p, ys := cells[..], yscroll;
      yscroll := yscroll - count;
      if yscroll < 0 {
        OpsBmove(0, 0, cells.Length - rows, 0, rows, cols);
        FullWidthBlit(p, cols, 0, cells.Length - rows, rows);
        assert cells[..] == MoveRows(p, 0, |p| - rows, rows);
        yscroll := yscroll + (cells.Length - rows);
        assert cells[..] == MoveRows(p, 0, |p| - rows, rows);
        PanDownWindow(p, rows, ys, count);
      } else {
        WindowSlides(p, rows, yscroll, ys, count);
      }
    }
  }
}
