/** Runs of a SCROLL_PAN_REDRAW console with partial panning that end in a scroll that is not one: nine rows of one
    cell, a framebuffer one or two rows longer. */
module PanExamples {
  import opened Grid
  import opened Scrollback
  import opened DisplayModel
  import opened ConsoleModel
  import opened Blitters
  import Picture
  import ConsoleRun
  import Glass

  method NineRows(vrows: nat) returns (c: Console)
    requires 9 < vrows
    ensures fresh(c) && fresh(c.disp) && fresh(c.disp.cells) && fresh(c.disp.panel.screen)
    ensures fresh(c.text) && fresh(c.ring)
    ensures c.Valid() && c.InSync() && c.softLines == 0 && c.erase == 0 && c.partialPan
    ensures c.disp.mode.PanRedraw? && c.disp.rows == 9 && c.disp.cols == 1 && c.disp.yscroll == 0
    ensures c.disp.cells.Length == vrows && c.text[..] == Blanks(9, 1, 0) && Glass.LaidOut(c.disp)
  {
    var panel := new Blitter(1, 1, 1, vrows, 1, 9, 1, 1, false, (ch, x, y) => ch != 0, Picture.Bg(false, 0));
    var d := new Display(panel, UR, vrows, vrows, 9, 1, PanRedraw, 0);
    c := new Console(d, 6, 0, false, true);
    c.LiveView();
  }

  /** The same after one upward scroll of the whole screen, which moved the window by one row. */
  method Scrolled(vrows: nat, times: nat) returns (c: Console)
    requires 9 + times < vrows + 1 && 1 <= times
    ensures fresh(c) && fresh(c.disp) && fresh(c.disp.cells) && fresh(c.disp.panel.screen)
    ensures fresh(c.text) && fresh(c.ring)
    ensures c.Valid() && c.InSync() && c.softLines == 0 && c.erase == 0 && c.partialPan
    ensures c.disp.mode.PanRedraw? && c.disp.rows == 9 && c.disp.cols == 1 && c.disp.yscroll == times
    ensures c.disp.cells.Length == vrows && c.text[..] == Blanks(9, 1, 0)
  {
    hide Console.View, Console.UpShown, Last, Slice, Unwrapped, Display.Screen, Display.Hidden, ScrolledUp, Blanks;
    c := NineRows(vrows);
    for k := 0 to times
      invariant fresh(c) && fresh(c.disp) && fresh(c.disp.cells) && fresh(c.disp.panel.screen)
      invariant fresh(c.text) && fresh(c.ring)
      invariant c.Valid() && c.InSync() && c.softLines == 0 && c.erase == 0 && c.partialPan
      invariant c.disp.mode.PanRedraw? && c.disp.rows == 9 && c.disp.cols == 1 && c.disp.yscroll == k
      invariant c.disp.cells.Length == vrows && c.text[..] == Blanks(9, 1, 0)
    {
      ConsoleRun.ScrollStep(c, 0, 9, true, 1, Blanks(9, 1, 0));
      BlankScrolled();
    }
  }

  lemma BlankScrolled()
    ensures ScrolledUp(Blanks(9, 1, 0), 1, 0, 9, 1, 0) == Blanks(9, 1, 0)
  {
  }

  /** A character in the top row: scrolling rows 1 to 9 down would move the window back and draw row 1 over
      row 0. */
  method HeadDrawnWrong() returns (c: Console)
    ensures fresh(c) && fresh(c.disp) && fresh(c.disp.cells) && fresh(c.disp.panel.screen)
    ensures fresh(c.text) && fresh(c.ring)
    ensures c.Valid() && c.InSync() && c.softLines == 0 && c.disp.rows == 9 && c.disp.cols == 1
    ensures c.disp.mode.PanRedraw? && c.partialPan && c.disp.cells.Length == 10 && c.disp.yscroll == 1
    ensures c.text[0] == [0x41] && forall i :: 0 < i < 9 ==> c.text[i] == [0]
    ensures !c.ShowsScroll(c.text[..], 1, 9, false, 1, Blanks(9, 1, 0))
  {
    hide Console.View, Last, Slice, Unwrapped, Display.Screen, Display.Hidden;
    c := Scrolled(10, 1);
    c.Write(0, 0, [0x41]);
    assert Paste([0], 0, [0x41]) == [0x41];
    assert c.text[..][1..1 + 1][0] == c.text[1] && c.text[..][..1][0] == c.text[0];
  }

  /** A character in the last row: scrolling rows 0 to 8 down would make the window jump and draw row 7 over
      row 8. */
  method TailDrawnWrong() returns (c: Console)
    ensures fresh(c) && fresh(c.disp) && fresh(c.disp.cells) && fresh(c.disp.panel.screen)
    ensures fresh(c.text) && fresh(c.ring)
    ensures c.Valid() && c.InSync() && c.softLines == 0 && c.disp.rows == 9 && c.disp.cols == 1
    ensures c.disp.mode.PanRedraw? && c.partialPan && c.disp.cells.Length == 10 && c.disp.yscroll == 0
    ensures c.text[8] == [0x41] && forall i :: 0 <= i < 8 ==> c.text[i] == [0]
    ensures !c.ShowsScroll(c.text[..], 0, 8, false, 1, Blanks(9, 1, 0))
  {
    hide Console.View, Last, Slice, Unwrapped, Display.Screen, Display.Hidden;
    c := NineRows(10);
    c.Write(8, 0, [0x41]);
    assert Paste([0], 0, [0x41]) == [0x41];
    assert c.text[..][8 - 1..9 - 1][0] == c.text[7] && c.text[..][8..][0] == c.text[8];
  }

  /** Two rows down a framebuffer two rows longer, a character in the top row unlike that of a hidden row: scrolling
      rows 1 to 9 up would make the window jump back to the top and show the hidden row as row 0. */
  method HeadLeftStale() returns (c: Console)
    ensures fresh(c) && fresh(c.disp) && fresh(c.disp.cells) && fresh(c.disp.panel.screen)
    ensures fresh(c.text) && fresh(c.ring)
    ensures c.Valid() && c.InSync() && c.softLines == 0 && c.disp.rows == 9 && c.disp.cols == 1
    ensures c.disp.mode.PanRedraw? && c.partialPan && c.disp.cells.Length == 11 && c.disp.yscroll == 2
    ensures c.text[0] != c.disp.Hidden()[1] && forall i :: 0 < i < 9 ==> c.text[i] == [0]
    ensures !c.ShowsScroll(c.text[..], 1, 9, true, 1, Blanks(9, 1, 0))
  {
    hide Console.View, Last, Slice, Unwrapped, Display.Screen, Display.Hidden;
    c := Scrolled(11, 2);
    var unlike: Cell := if c.disp.Hidden()[1] == [0x41] then 0x42 else 0x41;
    assert [unlike][0] == unlike && [0x41 as Cell][0] == 0x41;
    assert [unlike] != c.disp.Hidden()[1];
    c.Write(0, 0, [unlike]);
    assert Paste([0], 0, [unlike]) == [unlike];
    assert c.text[0] == [unlike];
    assert StaleHead(c.text[..], c.disp.Hidden(), Blanks(9, 1, 0), 1, 1)[0] == c.disp.Hidden()[1];
    assert c.text[..][..1][0] == c.text[0];
  }
}
