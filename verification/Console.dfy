/** The foreground text console: text buffer, screen and scrollback ring kept in step. */
module ConsoleModel {
  import opened Grid
  import opened Scrollback
  import opened DisplayModel
  import opened PanningModel

  class Console {
    const disp: Display
    const text: array<Row>      // the screen buffer at vc_origin, one entry per row
    const ring: array<Row>      // the scrollback memory, one entry per row slot
    const erase: Cell           // vc_video_erase_char
    const readsFast: bool       // FBINFO_READS_FAST
    const partialPan: bool      // FBINFO_PARTIAL_PAN_OK
    var softTop: nat            // slot of the oldest row kept
    var softIn: nat             // slot the next row goes to
    var softCurr: nat           // slot of the first row shown; softIn when not scrolled back
    var softLines: int          // rows scrolled back
    ghost var scrolledOff: Rows // every row that ever went into the ring

    /** A blank console on a display of its own, with an empty history. */
    constructor (d: Display, ringRows: nat, erase: Cell, readsFast: bool, partialPan: bool)
      requires d.Valid() && ringRows > 5 && d.panel.NoInk(erase)
      requires d.Screen() == Blanks(d.rows, d.cols, erase)
      ensures Valid() && InSync() && History() == [] && scrolledOff == []
      ensures disp == d && fresh(text) && fresh(ring) && ring.Length == ringRows && softLines == 0
      ensures this.erase == erase && this.readsFast == readsFast && this.partialPan == partialPan
    {
      disp, this.erase, this.readsFast, this.partialPan := d, erase, readsFast, partialPan;
      var blank: Row := seq(d.cols, _ => erase);
      text := new Row[d.rows](_ => blank);
      ring := new Row[ringRows](_ => blank);
      softTop, softIn, softCurr, softLines := 0, 0, 0, 0;
      scrolledOff := [];
      new;
      assert text[..] == Blanks(d.rows, d.cols, erase);
    }

    ghost predicate Shape() reads this, disp, disp.cells, disp.panel.screen, text, ring {
      && disp.Valid()
      && text.Length == disp.rows && Rect(text[..], disp.cols)
      && ring.Length > 5 && Rect(ring[..], disp.cols)
      && disp.panel.NoInk(erase)
      && disp.cells != text && disp.cells != ring && text != ring
      && softTop < ring.Length && softIn < ring.Length && softCurr < ring.Length
    }

    ghost function History(): (h: Rows)
      requires Shape()
      reads this, disp, disp.cells, disp.panel.screen, text, ring
      ensures Rect(h, disp.cols)
    {
      Slice(ring[..], softTop, softIn)
    }

    /** Everything the user can look at: the kept history, then the live screen. */
    ghost function Page(): (p: Rows)
      requires Shape()
      reads this, disp, disp.cells, disp.panel.screen, text, ring
      ensures Rect(p, disp.cols)
    {
      History() + text[..]
    }

    ghost predicate Valid() reads this, disp, disp.cells, disp.panel.screen, text, ring {
      && Shape()
      && softLines == Distance(ring.Length, softCurr, softIn) <= |History()|
      && History() == Last(scrolledOff, ring.Length - 1)
    }

    /** The window of the page that starts softLines rows above the live screen. */
    ghost function View(): (v: Rows)
      requires Valid()
      reads this, disp, disp.cells, disp.panel.screen, text, ring
      ensures |v| == disp.rows
    {
      Page()[|History()| - softLines..][..disp.rows]
    }

    ghost predicate InSync() requires Valid() reads this, disp, disp.cells, disp.panel.screen, text, ring {
      disp.Screen() == View()
    }

    // --- Differential redraw -----------------------------------------------------------

    /** Brings one line of screen and buffer from row `line` to row `line + step` of the
        buffer, drawing only the cells that differ, in runs of one attribute. */
    method RedrawRow(line: nat, step: int)
      requires Shape() && line < disp.rows && 0 <= line + step < disp.rows && step != 0
      requires disp.Screen()[line] == text[line]
      modifies disp.cells, disp.panel.screen, text
      ensures Shape()
      ensures text[..] == old(text[..])[line := old(text[line + step])]
      ensures disp.Screen() == old(disp.Screen())[line := old(text[line + step])]
    {
      hide Merge, Attr, Display.Screen, Display.Drawn, Display.Hidden, Display.Logical, Unwrapped;
      ghost var g, scr, was, src := text[..], disp.Screen(), text[line], text[line + step];
      MergeEnds(src, was);
      var start, s, x := 0, 0, 0;
      var attr: Cell := 1;
      while s < disp.cols
        invariant 0 <= x == start <= s <= disp.cols
        invariant disp.Valid()
        invariant text[line] == Merge(src, was, s)
        invariant forall i :: 0 <= i < text.Length && i != line ==> text[i] == g[i]
        invariant disp.Screen() == scr[line := Merge(src, was, start)]
        invariant forall j :: start <= j < s ==> Attr(src[j]) == attr
      {
        var c := text[line + step][s];
        MergeStep(src, was, s);
        ghost var runAttr := attr;
        if attr != Attr(c) {
          attr := Attr(c);
          if s > start {
            disp.PutRun(line, text[line + step][start..s], x, src, was, runAttr);
            x := x + (s - start);
            start := s;
          }
        }
        if c == text[line][s] {
          if s > start {
            disp.PutRun(line, text[line + step][start..s], x, src, was, runAttr);
            x := x + (s - start) + 1;
            start := s + 1;
          } else {
            x := x + 1;
            start := start + 1;
          }
        }
        text[line] := text[line][s := c];
        s := s + 1;
      }
      if s > start {
        disp.PutRun(line, text[line + step][start..s], x, src, was, attr);
      }
    }

    /** `fbcon_redraw`: rows [line, line+count) from the rows `step` below when step > 0,
        rows (line-count, line] from the rows `-step` above otherwise. Source and target rows
        lie in the same buffer; the order keeps every source row unread-over. */
    method RedrawLines(line: int, count: nat, step: int)
      requires Shape() && step != 0
      requires step > 0 ==> 0 <= line && line + count + step <= disp.rows
      requires step < 0 ==> line < disp.rows && 0 <= line - count + 1 + step
      requires disp.Screen() == text[..]
      modifies disp.cells, disp.panel.screen, text
      ensures Shape()
      ensures text[..] == Shifted(old(text[..]), line, count, step)
      ensures disp.Screen() == text[..]
    {
      hide Shifted, Display.Screen, Unwrapped;
      ghost var g := text[..];
      ShiftedNone(g, line, step);
      var at := line;
      var k := 0;
      while k < count
        invariant 0 <= k <= count && at == if step > 0 then line + k else line - k
        invariant Shape()
        invariant text[..] == Shifted(g, line, k, step)
        invariant disp.Screen() == text[..]
      {
        ShiftedStep(g, line, k, step, at);
        RedrawRow(at, step);
        at := if step > 0 then at + 1 else at - 1;
        k := k + 1;
      }
    }

    /** The same for a display whose blitter can read back: changed stretches of a line are
        copied on the screen. It addresses physical rows, so it needs an unscrolled display. */
    method RedrawBlitRow(line: nat, step: int)
      requires Shape() && line < disp.rows && 0 <= line + step < disp.rows && step != 0
      requires disp.yscroll == 0
      requires disp.Screen()[line] == text[line] && disp.Screen()[line + step] == text[line + step]
      modifies disp.cells, disp.panel.screen, text
      ensures Shape()
      ensures text[..] == old(text[..])[line := old(text[line + step])]
      ensures disp.Screen() == old(disp.Screen())[line := old(text[line + step])]
    {
      hide Merge, Display.Screen;
      ghost var g, scr, was, src := text[..], disp.Screen(), text[line], text[line + step];
      MergeEnds(src, was);
      var start, s, x := 0, 0, 0;
      while s < disp.cols
        invariant 0 <= x == start <= s <= disp.cols
        invariant disp.Valid()
        invariant text[line] == Merge(src, was, s)
        invariant forall i :: 0 <= i < text.Length && i != line ==> text[i] == g[i]
        invariant disp.Screen() == scr[line := Merge(src, was, start)]
      {
        var c := text[line + step][s];
        MergeStep(src, was, s);
        if c == text[line][s] {
          if s > start {
            disp.CopyRun(line + step, line, x, s - start, src, was);
            x := x + (s - start) + 1;
            start := s + 1;
          } else {
            x := x + 1;
            start := start + 1;
          }
        }
        text[line] := text[line][s := c];
        s := s + 1;
      }
      if s > start {
        disp.CopyRun(line + step, line, x, s - start, src, was);
      }
    }

    method RedrawBlitLines(line: int, count: nat, step: int)
      requires Shape() && step != 0 && disp.yscroll == 0
      requires step > 0 ==> 0 <= line && line + count + step <= disp.rows
      requires step < 0 ==> line < disp.rows && 0 <= line - count + 1 + step
      requires disp.Screen() == text[..]
      modifies disp.cells, disp.panel.screen, text
      ensures Shape()
      ensures text[..] == Shifted(old(text[..]), line, count, step)
      ensures disp.Screen() == text[..]
    {
      hide Shifted, Display.Screen, Unwrapped;
      ghost var g := text[..];
      ShiftedNone(g, line, step);
      var at := line;
      var k := 0;
      while k < count
        invariant 0 <= k <= count && at == if step > 0 then line + k else line - k
        invariant Shape()
        invariant text[..] == Shifted(g, line, k, step)
        invariant disp.Screen() == text[..]
      {
        ShiftedStep(g, line, k, step, at);
        RedrawBlitRow(at, step);
        at := if step > 0 then at + 1 else at - 1;
        k := k + 1;
      }
    }

    // --- Scrollback ------------------------------------------------------------------------

    /** One round of the saving loop: a row into the next slot; a full ring drops its oldest row. */
    method SoftbackPush(row: Row)
      requires Shape() && |row| == disp.cols
      modifies `softIn, `softTop, ring
      ensures Shape()
      ensures History() == Last(old(History()) + [row], ring.Length - 1)
    {
      hide Slice, Last;
      ghost var r, top, inp := ring[..], softTop, softIn;
      ring[softIn] := row;
      softIn := softIn + 1;
      if softIn == ring.Length {
        softIn := 0;
      }
      if softIn == softTop {
        softTop := softTop + 1;
        if softTop == ring.Length {
          softTop := 0;
        }
      }
      assert ring[..] == r[inp := row];
      SlicePush(r, top, inp, row);
    }

    /** `fbcon_softback_note`: saves `count` screen rows from row t on. */
    method SoftbackNote(t: nat, count: nat)
      requires Valid() && softLines == 0 && t + count <= disp.rows
      modifies this, ring
      ensures Valid() && softLines == 0
      ensures scrolledOff == old(scrolledOff) + text[t..t + count]
      ensures History() == Last(old(History()) + text[t..t + count], ring.Length - 1)
    {
      hide Last, Slice;
      ghost var h, all, new' := History(), scrolledOff, text[t..t + count];
      ghost var cap := ring.Length - 1;
      var k := 0;
      LastOfLast(all, [], cap);
      assert h == Last(all, cap);
      assert all + [] == all && h + new'[..0] == h;
      while k < count
        invariant 0 <= k <= count && softLines == 0
        invariant Shape() && text[..] == old(text[..])
        invariant scrolledOff == all
        invariant History() == Last(h + new'[..k], cap)
      {
        SoftbackPush(text[t + k]);
        LastOfLast(h + new'[..k], [new'[k]], cap);
        assert (h + new'[..k]) + [new'[k]] == h + new'[..k + 1];
        k := k + 1;
      }
      assert new'[..count] == new';
      softCurr := softIn;
      scrolledOff := scrolledOff + new';
      LastOfLast(all, new', cap);
    }

    /** The pointer arithmetic of `fbcon_redraw_softback` for a move into the history. */
    static method BackInRing(size: nat, top: nat, inp: nat, curr: nat, was: int, delta: int)
      returns (n: int, lines: int)
      requires top < size && inp < size && curr < size && delta < 0
      requires was == Distance(size, curr, inp) <= Distance(size, top, inp)
      ensures 0 <= n < size && lines == Distance(size, n, inp)
      ensures lines == if was - delta > Distance(size, top, inp) then Distance(size, top, inp) else was - delta
      ensures n == curr ==> lines == was
    {
      n := curr + delta;
      lines := was - delta;
      if curr < top && n < 0 {
        n := n + size;
        if n < top {
          lines := lines - (top - n);
          n := top;
        }
      } else if curr >= top && n < top {
        lines := lines - (top - n);
        n := top;
      }
    }

    /** The same for a move towards the live screen. */
    static method ForwardInRing(size: nat, top: nat, inp: nat, curr: nat, was: int, delta: int)
      returns (n: int, lines: int)
      requires top < size && inp < size && curr < size && delta >= 0
      requires was == Distance(size, curr, inp)
      ensures 0 <= n < size && lines == Distance(size, n, inp)
      ensures lines == if was < delta then 0 else was - delta
      ensures n == curr ==> lines == was
    {
      n := curr + delta;
      lines := was - delta;
      if curr > inp && n >= size {
        n := n - size;
        if n > inp {
          n := inp;
          lines := 0;
        }
      } else if curr <= inp && n > inp {
        n := inp;
        lines := 0;
      }
    }

    /** `fbcon_redraw_softback`, the pointer arithmetic: moves the view by `delta` rows towards
        the live screen, stopping at either end of the history. */
    method SoftbackMove(delta: int) returns (moved: bool)
      requires Valid()
      modifies `softCurr, `softLines
      ensures Valid()
      ensures var want := old(softLines) - delta;
              softLines == if want < 0 then 0 else if want > |History()| then |History()| else want
      ensures !moved ==> softLines == old(softLines)
    {
      hide Slice, Last, Rect, Display.Screen, Unwrapped;
      var n;
      if delta < 0 {
        n, softLines := BackInRing(ring.Length, softTop, softIn, softCurr, softLines, delta);
      } else {
        n, softLines := ForwardInRing(ring.Length, softTop, softIn, softCurr, softLines, delta);
      }
      moved := n != softCurr;
      softCurr := n;
    }

    /** The inner loop of `fbcon_redraw_softback`: draws the cells of `src` that differ from the
        line shown, in runs of one attribute. */
    method DrawChanges(line: nat, src: Row, was: Row)
      requires Shape() && line < disp.rows && |src| == |was| == disp.cols
      requires disp.Screen()[line] == was
      modifies disp.cells, disp.panel.screen
      ensures Shape()
      ensures disp.Screen() == old(disp.Screen())[line := src] && disp.Hidden() == old(disp.Hidden())
    {
      hide Merge, Attr, Display.Screen, Display.Hidden, Unwrapped;
      ghost var scr := disp.Screen();
      MergeEnds(src, was);
      var start, s, x := 0, 0, 0;
      var attr: Cell := 1;
      while s < disp.cols
        invariant 0 <= x == start <= s <= disp.cols
        invariant disp.Valid()
        invariant disp.Screen() == scr[line := Merge(src, was, start)] && disp.Hidden() == old(disp.Hidden())
        invariant forall j :: start <= j < s ==> Attr(src[j]) == attr
      {
        var c := src[s];
        MergeStep(src, was, s);
        ghost var runAttr := attr;
        if attr != Attr(c) {
          attr := Attr(c);
          if s > start {
            disp.PutRun(line, src[start..s], x, src, was, runAttr);
            x := x + (s - start);
            start := s;
          }
        }
        if c == was[s] {
          if s > start {
            disp.PutRun(line, src[start..s], x, src, was, runAttr);
            x := x + (s - start) + 1;
            start := s + 1;
          } else {
            x := x + 1;
            start := start + 1;
          }
        }
        s := s + 1;
      }
      if s > start {
        disp.PutRun(line, src[start..s], x, src, was, attr);
      }
    }

    /** The outer loop: walks the old view and the new one side by side. */
    method DrawView(oldCurr: nat, ghost a: nat, ghost b: nat)
      requires Shape() && oldCurr < ring.Length
      requires a <= |History()| && b <= |History()|
      requires LineOf(ring.Length, softTop, softIn, a) == if oldCurr == softIn then OnText(0) else OnRing(oldCurr)
      requires LineOf(ring.Length, softTop, softIn, b) == if softCurr == softIn then OnText(0) else OnRing(softCurr)
      requires disp.Screen() == Page()[a..][..disp.rows]
      modifies disp.cells, disp.panel.screen
      ensures Shape()
      ensures disp.Screen() == Page()[b..][..disp.rows] && disp.Hidden() == old(disp.Hidden())
    {
      hide Slice, LineOf, NextLine, RowAt, Display.Screen, Display.Hidden, Unwrapped;
      ghost var page := Page();
      var size := ring.Length;
      var d := if oldCurr == softIn then OnText(0) else OnRing(oldCurr);
      var s := if softCurr == softIn then OnText(0) else OnRing(softCurr);
      var line := 0;
      while line < disp.rows
        invariant 0 <= line <= disp.rows
        invariant Shape()
        invariant d == LineOf(size, softTop, softIn, a + line)
        invariant s == LineOf(size, softTop, softIn, b + line)
        invariant forall i :: 0 <= i < line ==> disp.Screen()[i] == page[b + i]
        invariant forall i :: line <= i < disp.rows ==> disp.Screen()[i] == page[a + i]
        invariant disp.Hidden() == old(disp.Hidden())
      {
        LineOfPage(ring[..], text[..], softTop, softIn, a + line);
        LineOfPage(ring[..], text[..], softTop, softIn, b + line);
        DrawChanges(line, RowAt(ring[..], text[..], s), RowAt(ring[..], text[..], d));
        NextLineOf(size, softTop, softIn, a + line);
        NextLineOf(size, softTop, softIn, b + line);
        d, s := NextLine(size, softIn, d), NextLine(size, softIn, s);
        line := line + 1;
      }
    }

    /** `fbcon_redraw_softback` and, through it, `fbcon_scrolldelta`: the screen shows the page
        window that starts softLines rows above the live screen, before and after. */
    method Scrolldelta(delta: int)
      requires Valid() && InSync()
      modifies `softCurr, `softLines, disp.cells, disp.panel.screen
      ensures Valid() && InSync()
      ensures var want := old(softLines) - delta;
              softLines == if want < 0 then 0 else if want > |History()| then |History()| else want
      ensures disp.Hidden() == old(disp.Hidden())
    {
      hide Slice, Last, LineOf, Display.Screen, Display.Hidden, Unwrapped, Display.Drawn, Rect;
      var oldCurr := softCurr;
      ghost var a := |History()| - softLines;
      CurrIsLine();
      ghost var page := Page();
      var moved := SoftbackMove(delta);
      if moved {
        CurrIsLine();
        assert Page() == page;
        DrawView(oldCurr, a, |History()| - softLines);
      }
    }

    /** softCurr is the line softLines before the end of the history. */
    lemma CurrIsLine()
      requires Valid()
      ensures LineOf(ring.Length, softTop, softIn, |History()| - softLines)
           == if softCurr == softIn then OnText(0) else OnRing(softCurr)
    {
    }

    // --- Scrolling the text ------------------------------------------------------------------

    /** `scr_memsetw` of whole rows. */
    method BlankText(from: nat, count: nat)
      requires Shape() && from + count <= text.Length
      modifies text
      ensures Shape()
      ensures text[..] == old(text[..])[..from] + Blanks(count, disp.cols, erase) + old(text[..])[from + count..]
    {
      forall i | from <= i < from + count {
        text[i] := seq(disp.cols, _ => erase);
      }
    }

    /** `fbcon_clear` and `scr_memsetw` of the same rows. */
    method BlankBoth(from: nat, count: nat)
      requires Shape() && from + count <= disp.rows
      requires disp.Screen() == text[..]
      modifies disp.cells, disp.panel.screen, text
      ensures Shape() && disp.Screen() == text[..]
      ensures text[..] == old(text[..])[..from] + Blanks(count, disp.cols, erase) + old(text[..])[from + count..]
    {
      hide Blanks, Display.Screen, Unwrapped;
      ghost var g := text[..];
      disp.ClearLines(from, count, erase);
      assert text[..] == g;
      BlankText(from, count);
    }

    /** Redraws the surviving rows from the buffer and blanks the rest of the region. */
    method SoftScrollUp(t: nat, b: nat, count: nat)
      requires Shape() && t < b <= disp.rows && 1 <= count <= b - t
      requires disp.Screen() == text[..]
      modifies disp.cells, disp.panel.screen, text
      ensures Shape()
      ensures disp.Screen() == text[..] == ScrolledUp(old(text[..]), disp.cols, t, b, count, erase)
    {
      hide MoveRows, ScrolledUp, Blanks, Display.Screen, Unwrapped;
      ghost var g := text[..];
      if disp.mode.Move? {
        RedrawBlitLines(t, b - t - count, count);
      } else {
        RedrawLines(t, b - t - count, count);
      }
      assert text[..] == MoveRows(g, t + count, t, b - t - count);
      MoveThenBlank(g, disp.cols, t, b, count, erase);
      BlankBoth(b - count, count);
    }

    method SoftScrollDown(t: nat, b: nat, count: nat)
      requires Shape() && t < b <= disp.rows && 1 <= count <= b - t
      requires disp.Screen() == text[..]
      modifies disp.cells, disp.panel.screen, text
      ensures Shape()
      ensures disp.Screen() == text[..] == ScrolledDown(old(text[..]), disp.cols, t, b, count, erase)
    {
      hide MoveRows, ScrolledDown, Blanks, Display.Screen, Unwrapped;
      ghost var g := text[..];
      if disp.mode.Move? {
        RedrawBlitLines(b - 1, b - t - count, 0 - count);
      } else {
        RedrawLines(b - 1, b - t - count, 0 - count);
      }
      assert text[..] == MoveRows(g, t, t + count, b - t - count);
      MoveThenBlank(g, disp.cols, t, b, count, erase);
      BlankBoth(t, count);
    }

    method SlideUp(count: nat)
      requires Shape() && 1 <= count <= disp.rows && (disp.mode.WrapMove? || disp.mode.PanMove?)
      requires disp.mode.PanMove? ==> disp.yscroll + count <= 2 * (disp.cells.Length - disp.rows)
      modifies disp, disp.cells, disp.panel.screen
      ensures Shape()
      ensures disp.yscroll == old(disp.Slid(count))
      ensures disp.Screen()[..disp.rows - count] == old(disp.Screen())[count..]
    {
      hide Display.Screen, Unwrapped;
      if disp.mode.WrapMove? {
        disp.YwrapUp(count);
      } else {
        disp.YpanUp(count);
      }
    }

    method SlideDown(count: nat)
      requires Shape() && 1 <= count <= disp.rows && (disp.mode.WrapMove? || disp.mode.PanMove?)
      requires disp.mode.PanMove? ==> count - disp.yscroll <= disp.cells.Length - disp.rows
      modifies disp, disp.cells, disp.panel.screen
      ensures Shape()
      ensures disp.yscroll == old(disp.Slid(0 - count))
      ensures disp.Screen()[count..] == old(disp.Screen())[..disp.rows - count]
    {
      hide Display.Screen, Unwrapped;
      if disp.mode.WrapMove? {
        disp.YwrapDown(count);
      } else {
        disp.YpanDown(count);
      }
    }

    /** Slides the hardware window, keeping the rows outside [t, b) where they were. */
    method HardScrollUp(t: nat, b: nat, count: nat)
      requires Shape() && t < b <= disp.rows && 1 <= count <= b - t
      requires disp.mode.WrapMove? || disp.mode.PanMove?
      requires disp.mode.PanMove? ==> disp.yscroll + count <= 2 * (disp.cells.Length - disp.rows)
      modifies disp, disp.cells, disp.panel.screen
      ensures Shape()
      ensures disp.yscroll == old(disp.Slid(count))
      ensures disp.Screen() == ScrolledUp(old(disp.Screen()), disp.cols, t, b, count, erase)
    {
      hide MoveRows, ScrolledUp, Blanks, Display.Screen, Unwrapped;
      ghost var g := disp.Screen();
      disp.MoveLines(0, count, t);
      SlideUp(count);
      SlideUpIsScroll(g, disp.Screen(), disp.cols, t, b, count, erase);
      disp.MoveLines(b - count, b, disp.rows - b);
      disp.ClearLines(b - count, count, erase);
    }

    method HardScrollDown(t: nat, b: nat, count: nat)
      requires Shape() && t < b <= disp.rows && 1 <= count <= b - t
      requires disp.mode.WrapMove? || disp.mode.PanMove?
      requires disp.mode.PanMove? ==> count - disp.yscroll <= disp.cells.Length - disp.rows
      modifies disp, disp.cells, disp.panel.screen
      ensures Shape()
      ensures disp.yscroll == old(disp.Slid(0 - count))
      ensures disp.Screen() == ScrolledDown(old(disp.Screen()), disp.cols, t, b, count, erase)
    {
      hide MoveRows, ScrolledDown, Blanks, Display.Screen, Unwrapped;
      ghost var g := disp.Screen();
      disp.MoveLines(b, b - count, disp.rows - b);
      SlideDown(count);
      SlideDownIsScroll(g, disp.Screen(), disp.cols, t, b, count, erase);
      disp.MoveLines(count, 0, t);
      disp.ClearLines(t, count, erase);
    }

    /** `fbcon_redraw_move` of one row to display line dy, whatever is shown there, on the screen or not. */
    method RedrawMoveRow(src: Row, dy: nat)
      requires Shape() && |src| == disp.cols && dy + disp.yscroll < 2 * disp.cells.Length
      requires dy < disp.rows || disp.room == disp.cells.Length
      modifies disp.cells, disp.panel.screen
      ensures Shape() && 0 <= LineOn(disp.cells.Length, dy) < disp.cells.Length
      ensures disp.Logical() == old(disp.Logical())[LineOn(disp.cells.Length, dy) := src]
    {
      hide Merge, Attr, Display.Logical, Unwrapped;
      ghost var all, at := disp.Logical(), LineOn(disp.cells.Length, dy);
      ghost var was := all[at];
      MergeEnds(src, was);
      var start, s, x := 0, 0, 0;
      var attr: Cell := 1;
      while s < disp.cols
        invariant 0 <= x == start <= s <= disp.cols
        invariant disp.Shape()
        invariant disp.Logical() == all[at := Merge(src, was, start)]
        invariant forall j :: start <= j < s ==> Attr(src[j]) == attr
      {
        ghost var runAttr := attr;
        if attr != Attr(src[s]) {
          attr := Attr(src[s]);
          if s > start {
            disp.PutRunAt(dy, src[start..s], x, src, was, runAttr);
            x := x + (s - start);
            start := s;
          }
        }
        s := s + 1;
      }
      if s > start {
        disp.PutRunAt(dy, src[start..s], x, src, was, attr);
      }
    }

    /** A row counted from vc_origin; the memory behind the buffer holds whatever it holds. */
    function Memory(beyond: Rows, i: nat): Row
      requires text.Length <= i < text.Length + |beyond| || i < text.Length
      reads text
    {
      if i < text.Length then text[i] else beyond[i - text.Length]
    }

    ghost predicate Behind(beyond: Rows) { |beyond| == disp.rows && Rect(beyond, disp.cols) }

    /** `fbcon_redraw_move`. The caller may ask for rows beyond the buffer and for lines off the screen. */
    method RedrawMoveLines(line: nat, count: nat, dy: nat, beyond: Rows)
      requires Shape() && Behind(beyond) && line + count <= 2 * disp.rows
      requires count <= disp.cells.Length && dy + count + disp.yscroll <= 2 * disp.cells.Length
      requires dy + count <= disp.rows || disp.room == disp.cells.Length
      modifies disp.cells, disp.panel.screen
      ensures Shape()
      ensures disp.Logical() == DrawnAt(old(disp.Logical()), dy, (text[..] + beyond)[line..line + count])
      ensures line + count <= disp.rows && dy + count <= disp.rows ==>
                disp.Screen() == PutRows(old(disp.Screen()), dy, text[line..line + count])
    {
      hide PutRows, DrawnAt, Display.Logical, Unwrapped;
      ghost var g, src := disp.Logical(), (text[..] + beyond)[line..line + count];
      var k := 0;
      assert src[..0] == [];
      DrawnNone(g, dy);
      while k < count
        invariant 0 <= k <= count
        invariant Shape()
        invariant disp.Logical() == DrawnAt(g, dy, src[..k])
      {
        RedrawMoveRow(Memory(beyond, line + k), dy + k);
        DrawnOneMore(g, dy, src[..k], src[k]);
        assert src[..k] + [src[k]] == src[..k + 1];
        k := k + 1;
      }
      assert src[..count] == src;
      if line + count <= disp.rows && dy + count <= disp.rows {
        assert src == text[line..line + count];
        DrawnInside(g, disp.rows, dy, src);
      }
    }

    /** `ypan_up_redraw`: when the window jumps back to the top it is drawn anew, from line t on. */
    method YpanUpRedraw(t: nat, count: nat, beyond: Rows)
      requires Shape() && disp.mode.PanRedraw? && t + count <= disp.rows && Behind(beyond)
      requires disp.yscroll <= disp.cells.Length - disp.rows
      requires disp.yscroll + count <= 2 * (disp.cells.Length - disp.rows)
      modifies disp, disp.cells, disp.panel.screen
      ensures Shape()
      ensures disp.yscroll == old(disp.Slid(count))
      ensures !old(PanJumpsUp(count)) ==> disp.Screen()[..disp.rows - count] == old(disp.Screen())[count..]
      ensures disp.yscroll <= disp.cells.Length - disp.rows
      ensures old(PanJumpsUp(count)) ==>
                disp.Screen() == AfterJump(old(disp.Logical()), text[..] + beyond, disp.rows, t, count)
    {
      hide Unwrapped, DrawnAt, AfterJump;
      ghost var p, ys := disp.cells[..], disp.yscroll;
      disp.yscroll := disp.yscroll + count;
      if disp.yscroll > disp.cells.Length - disp.rows {
        disp.yscroll := disp.yscroll - (disp.cells.Length - disp.rows);
        RedrawMoveLines(t + count, disp.rows - count, t, beyond);
        JumpThenDraw(p, ys, text[..] + beyond, disp.rows, t, count);
      } else {
        WindowSlides(p, disp.rows, ys, disp.yscroll, count);
      }
    }

    method YpanDownRedraw(t: nat, count: nat, beyond: Rows)
      requires Shape() && disp.mode.PanRedraw? && t + count <= disp.rows && Behind(beyond)
      requires count - disp.yscroll <= disp.cells.Length - disp.rows
      modifies disp, disp.cells, disp.panel.screen
      ensures Shape()
      ensures disp.yscroll == old(disp.Slid(0 - count))
      ensures !old(PanJumpsDown(count)) ==> disp.Screen()[count..] == old(disp.Screen())[..disp.rows - count]
      ensures old(PanJumpsDown(count)) ==>
                forall i :: t + count <= i < disp.rows ==> disp.Screen()[i] == text[i - count]
    {
      hide Unwrapped, DrawnAt, PutRows, Display.Drawn;
      ghost var p, ys := disp.cells[..], disp.yscroll;
      disp.yscroll := disp.yscroll - count;
      if disp.yscroll < 0 {
        disp.yscroll := disp.yscroll + (disp.cells.Length - disp.rows);
        ghost var all := disp.Logical();
        RedrawMoveLines(t, disp.rows - count, t + count, beyond);
        ghost var g := text[..];
        DrawnLower(all, g, beyond, t, count);
        assert disp.Logical() == DrawnAt(all, t + count, (g + beyond)[t..t + |g| - count]);
        assert disp.Screen()[t + count..] == g[t..disp.rows - count];
        assert forall i :: t + count <= i < disp.rows ==> disp.Screen()[i] == g[i - count];
      } else {
        WindowSlides(p, disp.rows, disp.yscroll, ys, count);
      }
    }

    function Window(): Panning { Panning(disp.mode, disp.cells.Length, disp.rows, partialPan) }

    predicate PanJumpsUp(count: nat) reads disp { Window().JumpsUp(disp.yscroll, count) }

    predicate PanJumpsDown(count: nat) reads disp { Window().JumpsDown(disp.yscroll, count) }

    predicate MovesWindowUp(t: nat, b: nat, count: nat) reads disp
      requires t + count <= b
    {
      Window().MovesUp(disp.yscroll, t, b, count)
    }

    predicate MovesWindowDown(t: nat, b: nat, count: nat) reads disp
      requires t + count <= b
    {
      Window().MovesDown(disp.yscroll, t, b, count)
    }

    predicate Moves() { disp.mode.WrapMove? || disp.mode.PanMove? }

    /** The hardware position after a scroll. */
    function NextYscroll(t: nat, b: nat, up: bool, count: nat): int
      requires t + count <= b
      reads disp
    {
      Window().Next(disp.yscroll, t, b, up, count)
    }

    /** What the screen shows after an upward scroll of a screen that showed g. Only SCROLL_PAN_REDRAW can miss:
        when the window jumps, the rows above the region are not drawn anew. */
    function UpShown(g: Rows, t: nat, b: nat, count: nat, beyond: Rows): (r: Rows)
      requires Shape() && |g| == disp.rows == |beyond| && t < b <= disp.rows && count <= b - t
      reads this, disp, disp.cells, disp.panel.screen, text, ring
      ensures |r| == disp.rows
    {
      var want := ScrolledUp(g, disp.cols, t, b, count, erase);
      if disp.mode.PanRedraw? && MovesWindowUp(t, b, count) && PanJumpsUp(count) then
        PutRows(want, 0, StaleHead(g, disp.Hidden(), beyond, t, count))
      else want
    }

    /** Downwards, the rows above the region are drawn from count rows too far down whenever the window moves,
        and those below it from count rows too far up when it jumps. */
    function DownShown(g: Rows, t: nat, b: nat, count: nat): (r: Rows)
      requires |g| == disp.rows && t < b <= disp.rows && count <= b - t
      reads this, disp
      ensures |r| == disp.rows
    {
      var want := ScrolledDown(g, disp.cols, t, b, count, erase);
      if disp.mode.PanRedraw? && MovesWindowDown(t, b, count) then
        PutRows(if PanJumpsDown(count) then PutRows(want, b, g[b - count..disp.rows - count]) else want,
                0, g[count..count + t])
      else want
    }

    /** The exact condition for a scroll to be one, on this console. */
    predicate ShowsScroll(g: Rows, t: nat, b: nat, up: bool, count: nat, beyond: Rows)
      requires Shape() && |g| == disp.rows == |beyond| && t < b <= disp.rows && count <= b - t
      reads this, disp, disp.cells, disp.panel.screen, text, ring
    {
      Window().ShowsFor(disp.yscroll, g, disp.Hidden(), beyond, t, b, up, count)
    }

    lemma ShowsScrollExactly(g: Rows, t: nat, b: nat, count: nat, beyond: Rows)
      requires Shape() && |g| == disp.rows == |beyond| && t < b <= disp.rows && count <= b - t
      ensures UpShown(g, t, b, count, beyond) == ScrolledUp(g, disp.cols, t, b, count, erase) <==>
              ShowsScroll(g, t, b, true, count, beyond)
      ensures DownShown(g, t, b, count) == ScrolledDown(g, disp.cols, t, b, count, erase) <==>
              ShowsScroll(g, t, b, false, count, beyond)
    {
      hide PutRows, ScrolledUp, ScrolledDown, StaleHead, Display.Hidden;
      var up, down := ScrolledUp(g, disp.cols, t, b, count, erase), ScrolledDown(g, disp.cols, t, b, count, erase);
      EndsOfScroll(g, disp.cols, t, b, count, erase);
      PutSame(up, 0, StaleHead(g, disp.Hidden(), beyond, t, count));
      PutSame(down, 0, g[count..count + t]);
      PutEndsSame(down, b, g[b - count..disp.rows - count], g[count..count + t]);
    }

    /** SCROLL_PAN_REDRAW upwards. */
    method PanRedrawUp(t: nat, b: nat, count: nat, beyond: Rows)
      requires Shape() && disp.mode.PanRedraw? && t < b <= disp.rows && 1 <= count <= b - t && Behind(beyond)
      requires disp.yscroll <= disp.cells.Length - disp.rows
      requires disp.Screen() == text[..]
      modifies disp, disp.cells, disp.panel.screen
      ensures Shape()
      ensures disp.yscroll == old(NextYscroll(t, b, true, count))
      ensures disp.Screen() == old(UpShown(text[..], t, b, count, beyond))
    {
      hide PutRows, MoveRows, Blanks, ScrolledUp, StaleHead, Display.Screen, Display.Hidden, Unwrapped, UpShown,
        MovesWindowUp, PanJumpsUp, Display.Slid, Rect;
      UpMoved(text[..], t, b, count, beyond);
      if MovesWindowUp(t, b, count) {
        if PanJumpsUp(count) {
          PanMovesUp(t, b, count, beyond);
          return;
        }
        PanWindowUp(t, b, count, beyond);
      } else {
        PanInPlaceUp(t, b, count, beyond);
      }
      disp.ClearLines(b - count, count, erase);
    }

    lemma UpMoved(g: Rows, t: nat, b: nat, count: nat, beyond: Rows)
      requires Shape() && |g| == disp.rows == |beyond| && t < b <= disp.rows && count <= b - t
      requires disp.mode.PanRedraw?
      ensures MovesWindowUp(t, b, count) ==> disp.yscroll + count <= 2 * (disp.cells.Length - disp.rows)
      ensures PanJumpsUp(count) <==> disp.yscroll + count > disp.cells.Length - disp.rows
      ensures NextYscroll(t, b, true, count) == if MovesWindowUp(t, b, count) then disp.Slid(count) else disp.yscroll
      ensures UpShown(g, t, b, count, beyond) ==
              var want := ScrolledUp(g, disp.cols, t, b, count, erase);
              if MovesWindowUp(t, b, count) && PanJumpsUp(count) then
                PutRows(want, 0, StaleHead(g, disp.Hidden(), beyond, t, count))
              else want
    {
    }

    /** The window jumps and the gap is cleared. */
    method PanMovesUp(t: nat, b: nat, count: nat, beyond: Rows)
      requires Shape() && disp.mode.PanRedraw? && t < b <= disp.rows && 1 <= count <= b - t && Behind(beyond)
      requires disp.yscroll <= disp.cells.Length - disp.rows && PanJumpsUp(count)
      requires disp.yscroll + count <= 2 * (disp.cells.Length - disp.rows)
      requires disp.Screen() == text[..]
      modifies disp, disp.cells, disp.panel.screen
      ensures Shape()
      ensures disp.yscroll == old(disp.Slid(count))
      ensures disp.Screen() ==
              PutRows(ScrolledUp(text[..], disp.cols, t, b, count, erase), 0,
                      old(StaleHead(text[..], disp.Hidden(), beyond, t, count)))
    {
      hide PutRows, Blanks, ScrolledUp, StaleHead, Display.Screen, Display.Hidden, Unwrapped, Display.Slid, Rect;
      ghost var g, head := text[..], StaleHead(text[..], disp.Hidden(), beyond, t, count);
      PanWindowJumpsUp(t, b, count, beyond);
      HeadThenBlank(g, disp.Screen(), disp.cols, t, b, count, erase, head);
      disp.ClearLines(b - count, count, erase);
    }

    /** The window stays and the region is redrawn. */
    method PanInPlaceUp(t: nat, b: nat, count: nat, beyond: Rows)
      requires Shape() && t < b <= disp.rows && 1 <= count <= b - t && Behind(beyond)
      requires disp.Screen() == text[..]
      modifies disp.cells, disp.panel.screen
      ensures Shape()
      ensures disp.Screen()[..b - count] + Blanks(count, disp.cols, erase) + disp.Screen()[b..]
           == ScrolledUp(text[..], disp.cols, t, b, count, erase)
    {
      hide PutRows, MoveRows, Blanks, ScrolledUp, DrawnAt, Display.Screen, Unwrapped;
      RedrawMoveLines(t + count, b - t - count, t, beyond);
      DrawnIsMoved(text[..], t + count, t, b - t - count);
      MoveThenBlank(text[..], disp.cols, t, b, count, erase);
    }

    method PanInPlaceDown(t: nat, b: nat, count: nat, beyond: Rows)
      requires Shape() && t < b <= disp.rows && 1 <= count <= b - t && Behind(beyond)
      requires disp.Screen() == text[..]
      modifies disp.cells, disp.panel.screen
      ensures Shape()
      ensures disp.Screen()[..t] + Blanks(count, disp.cols, erase) + disp.Screen()[t + count..]
           == ScrolledDown(text[..], disp.cols, t, b, count, erase)
    {
      hide PutRows, MoveRows, Blanks, ScrolledDown, DrawnAt, Display.Screen, Unwrapped;
      RedrawMoveLines(t, b - t - count, t + count, beyond);
      DrawnIsMoved(text[..], t, t + count, b - t - count);
      MoveThenBlank(text[..], disp.cols, t, b, count, erase);
    }

    /** The window moves on: head drawn lower before, tail drawn anew after. */
    method PanWindowUp(t: nat, b: nat, count: nat, beyond: Rows)
      requires Shape() && disp.mode.PanRedraw? && t < b <= disp.rows && 1 <= count <= b - t && Behind(beyond)
      requires disp.yscroll + count <= disp.cells.Length - disp.rows
      requires disp.Screen() == text[..]
      modifies disp, disp.cells, disp.panel.screen
      ensures Shape()
      ensures disp.yscroll == old(disp.Slid(count))
      ensures disp.Screen()[..b - count] + Blanks(count, disp.cols, erase) + disp.Screen()[b..]
           == ScrolledUp(text[..], disp.cols, t, b, count, erase)
    {
      hide PutRows, MoveRows, ScrolledUp, DrawnAt, Display.Screen, Unwrapped, Blanks, Display.Drawn;
      ghost var g := text[..];
      PutNone(g, count);
      assert t == 0 ==> g[0..0 + t] == [];
      if t > 0 {
        RedrawMoveLines(0, t, count, beyond);
      }
      DrawnIsMoved(g, 0, count, t);
      YpanUpRedraw(t, count, beyond);
      ghost var v := disp.Screen();
      PutNone(v, b);
      assert b == disp.rows ==> g[b..] == [];
      if disp.rows - b > 0 {
        RedrawMoveLines(b, disp.rows - b, b, beyond);
        assert g[b..b + (disp.rows - b)] == g[b..];
      }
      TailAfterSlide(g, v, t, b, count);
      SlideUpIsScroll(g, v, disp.cols, t, b, count, erase);
    }

    /** The window jumps back to the top. */
    method PanWindowJumpsUp(t: nat, b: nat, count: nat, beyond: Rows)
      requires Shape() && disp.mode.PanRedraw? && t < b <= disp.rows && 1 <= count <= b - t && Behind(beyond)
      requires disp.yscroll <= disp.cells.Length - disp.rows && PanJumpsUp(count)
      requires disp.yscroll + count <= 2 * (disp.cells.Length - disp.rows)
      requires disp.Screen() == text[..]
      modifies disp, disp.cells, disp.panel.screen
      ensures Shape()
      ensures disp.yscroll == old(disp.Slid(count))
      ensures disp.Screen()[..t] == old(StaleHead(text[..], disp.Hidden(), beyond, t, count))
      ensures forall i :: t <= i < b - count ==> disp.Screen()[i] == text[i + count]
      ensures disp.Screen()[b..] == text[b..]
    {
      hide PutRows, StaleHead, Display.Screen, Display.Hidden, Unwrapped;
      ghost var g := text[..];
      PanJumpsHead(t, b, count, beyond);
      ghost var v := disp.Screen();
      PutNone(v, b);
      assert b == disp.rows ==> g[b..] == [];
      if disp.rows - b > 0 {
        RedrawMoveLines(b, disp.rows - b, b, beyond);
        assert g[b..b + (disp.rows - b)] == g[b..];
      }
      PutTail(v, g[b..], b);
      assert disp.Screen()[..b] == v[..b];
      forall i | 0 <= i < b ensures disp.Screen()[i] == v[i] {
        assert disp.Screen()[i] == disp.Screen()[..b][i] == v[..b][i];
      }
      assert disp.Screen()[..t] == v[..t];
    }

    /** Head drawn lower and window moved, before the tail is drawn. */
    method PanJumpsHead(t: nat, b: nat, count: nat, beyond: Rows)
      requires Shape() && disp.mode.PanRedraw? && t < b <= disp.rows && 1 <= count <= b - t && Behind(beyond)
      requires disp.yscroll <= disp.cells.Length - disp.rows && PanJumpsUp(count)
      requires disp.yscroll + count <= 2 * (disp.cells.Length - disp.rows)
      requires disp.Screen() == text[..]
      modifies disp, disp.cells, disp.panel.screen
      ensures Shape() && disp.yscroll <= disp.cells.Length - disp.rows
      ensures disp.yscroll == old(disp.Slid(count))
      ensures disp.Screen()[..t] == old(StaleHead(text[..], disp.Hidden(), beyond, t, count))
      ensures forall i :: t <= i < b - count ==> disp.Screen()[i] == text[i + count]
    {
      hide PutRows, DrawnAt, AfterJump, StaleHead, Unwrapped, Display.Logical;
      ghost var g, all := text[..], disp.Logical();
      assert (g + beyond)[0..0 + t] == g[..t];
      assert t == 0 ==> g[..t] == [];
      DrawnNone(all, count);
      if t > 0 {
        RedrawMoveLines(0, t, count, beyond);
      }
      JumpedUp(g, all, beyond, t, b, count);
      YpanUpRedraw(t, count, beyond);
    }

    /** SCROLL_PAN_REDRAW downwards. */
    method PanRedrawDown(t: nat, b: nat, count: nat, beyond: Rows)
      requires Shape() && disp.mode.PanRedraw? && t < b <= disp.rows && 1 <= count <= b - t && Behind(beyond)
      requires disp.Screen() == text[..]
      modifies disp, disp.cells, disp.panel.screen
      ensures Shape()
      ensures disp.yscroll == old(NextYscroll(t, b, false, count))
      ensures disp.Screen() == old(DownShown(text[..], t, b, count))
    {
      hide PutRows, MoveRows, ScrolledDown, Blanks, Display.Screen, Unwrapped;
      if MovesWindowDown(t, b, count) {
        PanMovesDown(t, b, count, beyond);
      } else {
        PanInPlaceDown(t, b, count, beyond);
        ghost var s := disp.Screen();
        disp.ClearLines(t, count, erase);
        assert disp.Screen() == s[..t] + Blanks(count, disp.cols, erase) + s[t + count..];
      }
    }

    /** The window moves and the gap is cleared. */
    method PanMovesDown(t: nat, b: nat, count: nat, beyond: Rows)
      requires Shape() && disp.mode.PanRedraw? && t < b <= disp.rows && 1 <= count <= b - t && Behind(beyond)
      requires disp.Screen() == text[..] && MovesWindowDown(t, b, count)
      modifies disp, disp.cells, disp.panel.screen
      ensures Shape()
      ensures disp.yscroll == old(disp.Slid(0 - count))
      ensures disp.Screen() == old(DownShown(text[..], t, b, count))
    {
      hide PutRows, ScrolledDown, Blanks, Rect, Display.Screen, Unwrapped, DownShown, MovesWindowDown, PanJumpsDown,
        Display.Slid;
      ghost var g, jumps := text[..], PanJumpsDown(count);
      DownMoved(g, t, b, count);
      PanWindowDown(t, b, count, beyond);
      MovedThenBlank(g, disp.Screen(), disp.cols, t, b, count, erase, jumps);
      disp.ClearLines(t, count, erase);
    }

    lemma DownMoved(g: Rows, t: nat, b: nat, count: nat)
      requires |g| == disp.rows && t < b <= disp.rows && count <= b - t
      requires disp.mode.PanRedraw? && MovesWindowDown(t, b, count)
      ensures disp.yscroll <= count && count - disp.yscroll <= disp.cells.Length - disp.rows
      ensures DownShown(g, t, b, count) ==
              var want := ScrolledDown(g, disp.cols, t, b, count, erase);
              PutRows(if PanJumpsDown(count) then PutRows(want, b, g[b - count..disp.rows - count]) else want, 0,
                      g[count..count + t])
    {
    }

    /** Window moved, tail and region in place or redrawn, and the head drawn from too far down. */
    method PanWindowDown(t: nat, b: nat, count: nat, beyond: Rows)
      requires Shape() && disp.mode.PanRedraw? && t < b <= disp.rows && 1 <= count <= b - t && Behind(beyond)
      requires count - disp.yscroll <= disp.cells.Length - disp.rows
      requires disp.Screen() == text[..]
      modifies disp, disp.cells, disp.panel.screen
      ensures Shape()
      ensures disp.yscroll == old(disp.Slid(0 - count))
      ensures disp.Screen()[..t] == text[count..count + t]
      ensures disp.Screen()[t + count..] ==
              if old(PanJumpsDown(count)) then text[t..disp.rows - count]
              else ScrolledDown(text[..], disp.cols, t, b, count, erase)[t + count..]
    {
      hide PutRows, ScrolledDown, DrawnAt, Display.Screen, Unwrapped;
      PanSlidesDown(t, b, count, beyond);
      ghost var v := disp.Screen();
      PutNone(v, 0);
      assert t == 0 ==> text[count..count + t] == [];
      if t > 0 {
        RedrawMoveLines(count, t, 0, beyond);
      }
      PutHead(v, text[count..count + t], t + count);
    }

    method PanSlidesDown(t: nat, b: nat, count: nat, beyond: Rows)
      requires Shape() && disp.mode.PanRedraw? && t < b <= disp.rows && 1 <= count <= b - t && Behind(beyond)
      requires count - disp.yscroll <= disp.cells.Length - disp.rows
      requires disp.Screen() == text[..]
      modifies disp, disp.cells, disp.panel.screen
      ensures Shape() && disp.yscroll == old(disp.Slid(0 - count))
      ensures disp.Screen()[t + count..] ==
              if old(PanJumpsDown(count)) then text[t..disp.rows - count]
              else ScrolledDown(text[..], disp.cols, t, b, count, erase)[t + count..]
    {
      hide PutRows, MoveRows, ScrolledDown, DrawnAt, Display.Screen, Unwrapped;
      ghost var g, jumps := text[..], PanJumpsDown(count);
      PutNone(g, b - count);
      assert b == disp.rows ==> g[b..] == [];
      if disp.rows - b > 0 {
        RedrawMoveLines(b, disp.rows - b, b - count, beyond);
        assert g[b..b + (disp.rows - b)] == g[b..];
      }
      ghost var drawn := disp.Screen();
      YpanDownRedraw(t, count, beyond);
      if !jumps {
        TailDrawnThenSlid(g, drawn, disp.Screen(), disp.cols, t, b, count, erase);
      }
    }

    /** Whether fbcon scrolls the text buffer too, instead of leaving it to its caller. */
    predicate ScrollsText(t: nat, b: nat, up: bool, count: nat) reads disp
      requires t + count <= b
    {
      || disp.mode.Move? || disp.mode.Redraw?
      || (Moves() && !readsFast && !(if up then MovesWindowUp(t, b, count) else MovesWindowDown(t, b, count)))
    }

    /** The window stays and the blitter moves the region. */
    method CopyScrollUp(t: nat, b: nat, count: nat)
      requires Shape() && t < b <= disp.rows && 1 <= count <= b - t
      modifies disp.cells, disp.panel.screen
      ensures Shape()
      ensures disp.Screen() == ScrolledUp(old(disp.Screen()), disp.cols, t, b, count, erase)
    {
      hide MoveRows, ScrolledUp, Blanks, Display.Screen, Unwrapped, Rect;
      MoveThenBlank(disp.Screen(), disp.cols, t, b, count, erase);
      disp.MoveLines(t + count, t, b - t - count);
      disp.ClearLines(b - count, count, erase);
    }

    method CopyScrollDown(t: nat, b: nat, count: nat)
      requires Shape() && t < b <= disp.rows && 1 <= count <= b - t
      modifies disp.cells, disp.panel.screen
      ensures Shape()
      ensures disp.Screen() == ScrolledDown(old(disp.Screen()), disp.cols, t, b, count, erase)
    {
      hide MoveRows, ScrolledDown, Blanks, Display.Screen, Unwrapped, Rect;
      MoveThenBlank(disp.Screen(), disp.cols, t, b, count, erase);
      disp.MoveLines(t, t + count, b - t - count);
      disp.ClearLines(t, count, erase);
    }

    /** The modes that never miss, and where they leave the window. */
    lemma NeverMisses(g: Rows, t: nat, b: nat, count: nat, beyond: Rows)
      requires Shape() && |g| == disp.rows == |beyond| && t < b <= disp.rows && count <= b - t
      requires !disp.mode.PanRedraw?
      ensures UpShown(g, t, b, count, beyond) == ScrolledUp(g, disp.cols, t, b, count, erase)
      ensures DownShown(g, t, b, count) == ScrolledDown(g, disp.cols, t, b, count, erase)
      ensures NextYscroll(t, b, true, count) ==
              if Moves() && MovesWindowUp(t, b, count) then disp.Slid(count) else disp.yscroll
      ensures NextYscroll(t, b, false, count) ==
              if Moves() && MovesWindowDown(t, b, count) then disp.Slid(0 - count) else disp.yscroll
      ensures disp.mode.PanMove? && MovesWindowUp(t, b, count) ==>
                disp.yscroll + count <= 2 * (disp.cells.Length - disp.rows)
      ensures disp.mode.PanMove? && MovesWindowDown(t, b, count) ==>
                count - disp.yscroll <= disp.cells.Length - disp.rows
    {
    }

    /** The switch over scroll modes for SM_UP. */
    method ScrollRegionUp(t: nat, b: nat, count: nat, beyond: Rows) returns (done: bool)
      requires disp.Valid() && Shape() && t < b <= disp.rows && 1 <= count <= b - t && Behind(beyond)
      requires ScrollsText(t, b, true, count) || disp.mode.PanRedraw? ==> disp.Screen() == text[..]
      modifies disp, disp.cells, disp.panel.screen, text
      ensures Shape()
      ensures disp.yscroll == old(NextYscroll(t, b, true, count))
      ensures done == old(ScrollsText(t, b, true, count))
      ensures disp.Screen() == old(UpShown(disp.Screen(), t, b, count, beyond))
      ensures text[..] == if done then disp.Screen() else old(text[..])
    {
      hide ScrolledUp, PutRows, StaleHead, Display.Screen, Display.Hidden, Unwrapped, UpShown, NextYscroll,
        MovesWindowUp, Display.Slid, Rect;
      if !disp.mode.PanRedraw? {
        NeverMisses(disp.Screen(), t, b, count, beyond);
      }
      if disp.mode.Move? || disp.mode.Redraw? {
        SoftScrollUp(t, b, count);
        return true;
      }
      if disp.mode.PanRedraw? {
        PanRedrawUp(t, b, count, beyond);
        return false;
      }
      if MovesWindowUp(t, b, count) {
        HardScrollUp(t, b, count);
      } else if readsFast {
        CopyScrollUp(t, b, count);
      } else {
        SoftScrollUp(t, b, count);
        return true;
      }
      done := false;
    }

    /** The switch over scroll modes for SM_DOWN. */
    method ScrollRegionDown(t: nat, b: nat, count: nat, beyond: Rows) returns (done: bool)
      requires Shape() && t < b <= disp.rows && 1 <= count <= b - t && Behind(beyond)
      requires ScrollsText(t, b, false, count) || disp.mode.PanRedraw? ==> disp.Screen() == text[..]
      modifies disp, disp.cells, disp.panel.screen, text
      ensures Shape()
      ensures disp.yscroll == old(NextYscroll(t, b, false, count))
      ensures done == old(ScrollsText(t, b, false, count))
      ensures disp.Screen() == old(DownShown(disp.Screen(), t, b, count))
      ensures text[..] == if done then disp.Screen() else old(text[..])
    {
      hide ScrolledDown, PutRows, Display.Screen, Unwrapped, DownShown, NextYscroll, MovesWindowDown, Display.Slid,
        Rect;
      if !disp.mode.PanRedraw? {
        NeverMisses(disp.Screen(), t, b, count, beyond);
      }
      if disp.mode.Move? || disp.mode.Redraw? {
        SoftScrollDown(t, b, count);
        return true;
      }
      if disp.mode.PanRedraw? {
        PanRedrawDown(t, b, count, beyond);
        return false;
      }
      if MovesWindowDown(t, b, count) {
        HardScrollDown(t, b, count);
      } else if readsFast {
        CopyScrollDown(t, b, count);
      } else {
        SoftScrollDown(t, b, count);
        return true;
      }
      done := false;
    }

    lemma LiveView()
      requires Valid() && softLines == 0
      ensures View() == text[..]
    {
    }

    /** `fbcon_scroll`, for every mode, region and count: the cursor erase returns the view to the live screen, rows
        about to scroll off go to the ring, and the screen then shows the scrolled region, or what UpShown and
        DownShown say; it is the scrolled region if and only if ShowsScroll held. Branches that draw from the
        buffer rely on the screen showing it. `beyond` is the memory behind the buffer. */
    method Scroll(t: nat, b: nat, up: bool, count: nat, beyond: Rows) returns (done: bool)
      requires Valid() && t < b <= disp.rows && 1 <= count <= b - t && Behind(beyond)
      requires softLines != 0 || ScrollsText(t, b, up, count) || disp.mode.PanRedraw? ==> InSync()
      modifies this, ring, disp, disp.cells, disp.panel.screen, text
      ensures Valid() && softLines == 0
      ensures disp.yscroll == old(NextYscroll(t, b, up, count))
      ensures done == old(ScrollsText(t, b, up, count))
      ensures var shown := if old(softLines) == 0 then old(disp.Screen()) else old(text[..]);
              && disp.Screen() == (if up then old(UpShown(shown, t, b, count, beyond))
                                   else old(DownShown(shown, t, b, count)))
              && (disp.Screen() == (if up then ScrolledUp(shown, disp.cols, t, b, count, erase)
                                    else ScrolledDown(shown, disp.cols, t, b, count, erase)) <==>
                  old(ShowsScroll(shown, t, b, up, count, beyond)))
      ensures text[..] == if done then disp.Screen() else old(text[..])
      ensures scrolledOff == old(scrolledOff) + (if up then old(text[t..t + count]) else [])
      ensures History() == Last(old(History()) + (if up then old(text[t..t + count]) else []), ring.Length - 1)
      ensures done && up && t == 0 && b == disp.rows ==>
                IsSuffix(Page(), old(Page()) + Blanks(count, disp.cols, erase))
    {
      hide IsSuffix, ScrolledDown, ScrolledUp, Blanks, PutRows, StaleHead, Last, Slice,
        Display.Screen, Display.Hidden, Unwrapped, View, Rect, Panning.ShowsFor, Panning.MovesUp, Panning.MovesDown,
        Panning.Next;
      ghost var shown := if softLines == 0 then disp.Screen() else text[..];
      ShowsScrollExactly(shown, t, b, count, beyond);
      LeaveHistory();
      if up {
        done := ScrollUp(t, b, count, beyond);
      } else {
        LastOfLast(scrolledOff, [], ring.Length - 1);
        assert scrolledOff + [] == scrolledOff && History() + [] == History();
        done := ScrollRegionDown(t, b, count, beyond);
      }
    }

    /** The cursor erase: back to the live screen. */
    method LeaveHistory()
      requires Valid() && (softLines != 0 ==> InSync())
      modifies `softCurr, `softLines, disp.cells, disp.panel.screen
      ensures Valid() && softLines == 0
      ensures old(InSync()) ==> disp.Screen() == text[..]
      ensures old(softLines) == 0 ==> disp.Screen() == old(disp.Screen())
      ensures disp.Hidden() == old(disp.Hidden()) && History() == old(History())
    {
      hide Last, Slice, Display.Screen, Display.Hidden, Unwrapped;
      if softLines != 0 {
        Scrolldelta(softLines);
      }
      LiveView();
    }

    /** A scroll upwards of the live screen, its top rows saved first. */
    method ScrollUp(t: nat, b: nat, count: nat, beyond: Rows) returns (done: bool)
      requires Valid() && softLines == 0 && t < b <= disp.rows && 1 <= count <= b - t && Behind(beyond)
      requires ScrollsText(t, b, true, count) || disp.mode.PanRedraw? ==> disp.Screen() == text[..]
      modifies this, ring, disp, disp.cells, disp.panel.screen, text
      ensures Valid() && softLines == 0
      ensures disp.yscroll == old(NextYscroll(t, b, true, count))
      ensures done == old(ScrollsText(t, b, true, count))
      ensures disp.Screen() == old(UpShown(disp.Screen(), t, b, count, beyond))
      ensures text[..] == if done then disp.Screen() else old(text[..])
      ensures scrolledOff == old(scrolledOff) + old(text[t..t + count])
      ensures History() == Last(old(History()) + old(text[t..t + count]), ring.Length - 1)
      ensures done && t == 0 && b == disp.rows ==>
                IsSuffix(Page(), old(Page()) + Blanks(count, disp.cols, erase))
    {
      hide IsSuffix, ScrolledUp, Blanks, PutRows, StaleHead, Last, Slice, Display.Screen, Display.Hidden, Unwrapped;
      HistoryThenScreen(History(), text[..], count, ring.Length - 1, disp.cols, erase);
      SoftbackNote(t, count);
      done := ScrollRegionUp(t, b, count, beyond);
    }

    // --- Writing --------------------------------------------------------------------------------

    /** The console core stores a run of characters of one attribute and has fbcon draw it, the cursor erased. */
    method Write(y: nat, x: nat, run: Row)
      requires Valid() && InSync() && y < disp.rows && 0 < |run| && x + |run| <= disp.cols && OneAttribute(run)
      modifies this, disp.cells, disp.panel.screen, text
      ensures Valid() && InSync() && softLines == 0
      ensures text[..] == old(text[..])[y := Paste(old(text[y]), x, run)] && disp.Hidden() == old(disp.Hidden())
      ensures scrolledOff == old(scrolledOff)
    {
      hide Last, Slice, Display.Screen, Display.Hidden, Unwrapped, View, OneAttribute, PaintRun;
      LeaveHistory();
      PaintUniformRun(disp.panel.hiFont, run);
      text[y] := Paste(text[y], x, run);
      disp.Putcs(run, y, x);
      LiveView();
    }

    /** The console core blanks a rectangle of the buffer and has fbcon clear it. */
    method Erase(y: nat, x: nat, h: nat, w: nat)
      requires Valid() && InSync() && y + h <= disp.rows && x + w <= disp.cols
      modifies this, disp.cells, disp.panel.screen, text
      ensures Valid() && InSync() && softLines == 0
      ensures text[..] == Wipe(old(text[..]), disp.cols, y, x, h, w, erase)
      ensures scrolledOff == old(scrolledOff)
    {
      hide Last, Slice, Unwrapped, View;
      LeaveHistory();
      ghost var g, all := text[..], disp.Logical();
      forall i | y <= i < y + h {
        text[i] := Paste(text[i], x, seq(w, _ => erase));
      }
      assert text[..] == Wipe(g, disp.cols, y, x, h, w, erase);
      assert ring[..] == old(ring[..]);
      disp.Clear(y, x, h, w, erase);
      WipeInPrefix(all, disp.rows, disp.cols, y, x, h, w, erase);
      LiveView();
    }

    /** `scr_memmovew` of whole rows. */
    method ShiftText(s: nat, d: nat, h: nat)
      requires Shape() && s + h <= text.Length && d + h <= text.Length
      modifies text
      ensures Shape()
      ensures text[..] == MoveRows(old(text[..]), s, d, h)
    {
      forall i | d <= i < d + h {
        text[i] := text[s + (i - d)];
      }
      assert text[..] == MoveRows(old(text[..]), s, d, h);
    }

    /** What the console core does to the buffer when `fbcon_scroll` returned false. */
    method MoveText(t: nat, b: nat, up: bool, count: nat)
      requires Valid() && softLines == 0 && t < b <= disp.rows && 1 <= count <= b - t
      modifies text
      ensures Valid()
      ensures text[..] == if up then ScrolledUp(old(text[..]), disp.cols, t, b, count, erase)
                          else ScrolledDown(old(text[..]), disp.cols, t, b, count, erase)
    {
      hide MoveRows, ScrolledUp, ScrolledDown, Blanks, Last, Slice;
      MoveThenBlank(text[..], disp.cols, t, b, count, erase);
      if up {
        ShiftText(t + count, t, b - t - count);
        BlankText(b - count, count);
      } else {
        ShiftText(t, t + count, b - t - count);
        BlankText(t, count);
      }
    }
  }
}
