/** Whole runs of the console engine. */
module ConsoleRun {
  import opened Grid
  import opened Scrollback
  import opened ConsoleModel
  import opened DisplayModel
  import opened PanningModel
  import Terminal

  ghost function Abstract(c: Console): Terminal.Plain
    requires c.Valid()
    reads c, c.disp, c.disp.cells, c.disp.panel.screen, c.text, c.ring
  {
    Terminal.Plain(c.text[..], c.scrolledOff, c.softLines)
  }

  /** Whether an operation will do what it should; only SCROLL_PAN_REDRAW has scrolls that do not. */
  predicate Faithful(c: Console, op: Terminal.Op, beyond: Rows)
    requires c.Shape() && |beyond| == c.disp.rows
    reads c, c.disp, c.disp.cells, c.disp.panel.screen, c.text, c.ring
  {
    op.ScrollRegion? && op.t < op.b <= c.disp.rows && op.count <= op.b - op.t ==>
      c.ShowsScroll(c.text[..], op.t, op.b, op.up, op.count, beyond)
  }

  /** Where the hardware window stands after a sequence of operations. */
  function PositionAfter(w: Panning, ys: int, ops: seq<Terminal.Op>): int {
    if ops == [] then ys
    else
      var op, at := ops[|ops| - 1], PositionAfter(w, ys, ops[..|ops| - 1]);
      if op.ScrollRegion? && op.t + op.count <= op.b then w.Next(at, op.t, op.b, op.up, op.count) else at
  }

  /** Every scroll meets the guard where it finds the window; nothing of this depends on what is written. */
  predicate Guarded(w: Panning, ys: int, ops: seq<Terminal.Op>) {
    ops == [] ||
    var op, before := ops[|ops| - 1], ops[..|ops| - 1];
    && Guarded(w, ys, before)
    && (op.ScrollRegion? && op.t + op.count <= op.b ==>
          w.AlwaysScrolls(PositionAfter(w, ys, before), op.t, op.b, op.up, op.count))
  }

  lemma {:induction false} GuardedPrefix(w: Panning, ys: int, ops: seq<Terminal.Op>, n: nat)
    requires Guarded(w, ys, ops) && n <= |ops|
    ensures Guarded(w, ys, ops[..n])
    decreases |ops|
  {
    if n == |ops| {
      assert ops[..n] == ops;
    } else {
      GuardedPrefix(w, ys, ops[..|ops| - 1], n);
      assert ops[..|ops| - 1][..n] == ops[..n];
    }
  }

  /** A guarded scroll is faithful, whatever the screen, the framebuffer and the memory behind the buffer hold. */
  lemma GuardedIsFaithful(c: Console, ops: seq<Terminal.Op>, n: nat, ys: int, beyond: Rows)
    requires c.Valid() && c.Behind(beyond) && n < |ops| && Guarded(c.Window(), ys, ops)
    requires Terminal.Proper(ops[n], c.disp.rows, c.disp.cols)
    requires c.disp.yscroll == PositionAfter(c.Window(), ys, ops[..n])
    ensures Faithful(c, ops[n], beyond)
  {
    var w, op := c.Window(), ops[n];
    GuardedPrefix(w, ys, ops, n + 1);
    assert ops[..n + 1][..n] == ops[..n];
    if op.ScrollRegion? && w.mode.PanRedraw? {
      w.GuardSuffices(c.disp.yscroll, c.disp.cols, c.text[..], c.disp.Hidden(), beyond, op.t, op.b, op.up, op.count);
    }
  }

  lemma ProperRegion(op: Terminal.Op, rows: nat, cols: nat)
    requires Terminal.Proper(op, rows, cols)
    ensures op.ScrollRegion? ==> op.t + op.count <= op.b
  {
  }

  lemma PositionSnoc(w: Panning, ys: int, ops: seq<Terminal.Op>, op: Terminal.Op)
    ensures PositionAfter(w, ys, ops + [op]) ==
            var at := PositionAfter(w, ys, ops);
            if op.ScrollRegion? && op.t + op.count <= op.b then w.Next(at, op.t, op.b, op.up, op.count) else at
  {
    assert (ops + [op])[..|ops|] == ops;
  }

  /** One scroll as its user sees it. When fbcon leaves the text buffer to its caller, the
      console core moves the rows there itself. */
  method ScrollStep(c: Console, t: nat, b: nat, up: bool, count: nat, beyond: Rows)
    requires c.Valid() && c.InSync() && t < b <= c.disp.rows && 1 <= count <= b - t && c.Behind(beyond)
    requires c.ShowsScroll(c.text[..], t, b, up, count, beyond)
    modifies c, c.ring, c.disp, c.disp.cells, c.disp.panel.screen, c.text
    ensures c.Valid() && c.InSync() && c.softLines == 0
    ensures c.disp.yscroll == old(c.NextYscroll(t, b, up, count))
    ensures c.text[..] == if up then ScrolledUp(old(c.text[..]), c.disp.cols, t, b, count, c.erase)
                          else ScrolledDown(old(c.text[..]), c.disp.cols, t, b, count, c.erase)
    ensures c.scrolledOff == old(c.scrolledOff) + (if up then old(c.text[t..t + count]) else [])
    ensures up && t == 0 && b == c.disp.rows ==>
              IsSuffix(c.Page(), old(c.Page()) + Blanks(count, c.disp.cols, c.erase))
  {
    hide Display.Screen, Display.Hidden, Blanks, ScrolledUp, ScrolledDown, StaleHead, Last, Slice, Console.View,
      Console.ShowsScroll, Console.UpShown, Console.DownShown, IsSuffix;
    if c.softLines == 0 {
      c.LiveView();
    }
    if up {
      HistoryThenScreen(c.History(), c.text[..], count, c.ring.Length - 1, c.disp.cols, c.erase);
    }
    var done := c.Scroll(t, b, up, count, beyond);
    if !done {
      ghost var h := c.History();
      c.MoveText(t, b, up, count);
      assert c.History() == h;
    }
    c.LiveView();
  }

  method Step(c: Console, op: Terminal.Op, beyond: Rows)
    requires c.Valid() && c.InSync() && c.Behind(beyond)
    requires Terminal.Proper(op, c.disp.rows, c.disp.cols) && Faithful(c, op, beyond)
    modifies c, c.ring, c.disp, c.disp.cells, c.disp.panel.screen, c.text
    ensures c.Valid() && c.InSync()
    ensures Abstract(c) == Terminal.Step(old(Abstract(c)), op, c.disp.cols, c.erase, c.ring.Length - 1)
    ensures c.disp.yscroll == if op.ScrollRegion? then old(c.Window().Next(c.disp.yscroll, op.t, op.b, op.up, op.count))
                              else old(c.disp.yscroll)
  {
    hide Display.Screen, Blanks, ScrolledUp, ScrolledDown, Last, Slice, Console.View, Console.ShowsScroll, Paste, Wipe,
      OneAttribute;
    match op {
      case LookBack(delta) =>
        c.Scrolldelta(delta);
      case ScrollRegion(t, b, up, count) =>
        ScrollStep(c, t, b, up, count, beyond);
        assert old(c.scrolledOff) + [] == old(c.scrolledOff);
      case Write(y, x, run) =>
        c.Write(y, x, run);
      case Erase(y, x, h, w) =>
        c.Erase(y, x, h, w);
    }
  }

  /** Operation n of a run, unless it is a scroll that is not faithful. */
  method TryStep(c: Console, ops: seq<Terminal.Op>, n: nat, beyond: Rows, ghost ys: int) returns (done: bool)
    requires c.Valid() && c.InSync() && c.Behind(beyond) && n < |ops|
    requires Terminal.Proper(ops[n], c.disp.rows, c.disp.cols)
    requires c.disp.yscroll == PositionAfter(c.Window(), ys, ops[..n])
    modifies c, c.ring, c.disp, c.disp.cells, c.disp.panel.screen, c.text
    ensures c.Valid() && c.InSync()
    ensures done ==> c.disp.yscroll == PositionAfter(c.Window(), ys, ops[..n + 1])
    ensures done ==>
              Abstract(c) == Terminal.Step(old(Abstract(c)), ops[n], c.disp.cols, c.erase, c.ring.Length - 1)
    ensures !done ==> !Faithful(c, ops[n], beyond) && !Guarded(c.Window(), ys, ops)
    ensures !done ==> Abstract(c) == old(Abstract(c)) && c.disp.yscroll == old(c.disp.yscroll)
  {
    hide Display.Screen, Terminal.Step, Console.ShowsScroll, Rect, Faithful, Guarded, PositionAfter, Console.Window,
      Panning.Next, Console.InSync, Console.View;
    if Guarded(c.Window(), ys, ops) {
      GuardedIsFaithful(c, ops, n, ys, beyond);
    }
    if !Faithful(c, ops[n], beyond) {
      return false;
    }
    PositionSnoc(c.Window(), ys, ops[..n], ops[n]);
    ProperRegion(ops[n], c.disp.rows, c.disp.cols);
    assert ops[..n] + [ops[n]] == ops[..n + 1];
    Step(c, ops[n], beyond);
    done := true;
  }

  /** Over every run of scrolls, looks back, writes and erasures, in every scroll mode and with anything in the
      memory behind the buffer, the engine is the plain terminal: its buffer, its history and its view are the
      terminal's, and the screen shows the view. The run goes on up to the first scroll that is not faithful, and to
      the end when every scroll is guarded. */
  method Run(c: Console, ops: seq<Terminal.Op>, behind: seq<Rows>) returns (n: nat)
    requires c.Valid() && c.InSync() && |behind| == |ops| && forall m <- behind :: c.Behind(m)
    requires forall op <- ops :: Terminal.Proper(op, c.disp.rows, c.disp.cols)
    modifies c, c.ring, c.disp, c.disp.cells, c.disp.panel.screen, c.text
    ensures c.Valid() && n <= |ops|
    ensures forall op <- ops[..n] :: Terminal.Proper(op, c.disp.rows, c.disp.cols)
    ensures Abstract(c) == Terminal.Run(old(Abstract(c)), ops[..n], c.disp.cols, c.erase, c.ring.Length - 1)
    ensures c.disp.Screen() == Terminal.View(Abstract(c), c.ring.Length - 1)
    ensures c.disp.yscroll == PositionAfter(c.Window(), old(c.disp.yscroll), ops[..n])
    ensures n < |ops| ==> |behind[n]| == c.disp.rows && !Faithful(c, ops[n], behind[n])
    ensures Guarded(c.Window(), old(c.disp.yscroll), ops) ==> n == |ops|
  {
    hide Display.Screen, Terminal.Run, Terminal.Step, Terminal.Proper, Console.ShowsScroll, Rect, Faithful, Guarded,
      PositionAfter, Console.Window, Console.NextYscroll, Panning.Next, Console.InSync, Console.View, Terminal.View,
      Display.Drawn, Last, Slice;
    ghost var p, ys, w := Abstract(c), c.disp.yscroll, c.Window();
    ghost var cap := c.ring.Length - 1;
    assert Rect(p.text, c.disp.cols);
    RunNone(p, c.disp.cols, c.erase, cap);
    NowhereMoved(w, ys);
    n := 0;
    while n < |ops|
      invariant 0 <= n <= |ops|
      invariant c.Valid() && c.InSync()
      invariant c.disp.yscroll == PositionAfter(w, ys, ops[..n])
      invariant forall op <- ops[..n] :: Terminal.Proper(op, |p.text|, c.disp.cols)
      invariant Abstract(c) == Terminal.Run(p, ops[..n], c.disp.cols, c.erase, cap)
    {
      assert ops[n] in ops && behind[n] in behind;
      var done := TryStep(c, ops, n, behind[n], ys);
      if !done {
        ShownIsView(c);
        return;
      }
      Terminal.RunSnoc(p, ops[..n], ops[n], c.disp.cols, c.erase, cap);
      assert ops[..n] + [ops[n]] == ops[..n + 1];
      n := n + 1;
    }
    ShownIsView(c);
  }

  /** A screen in step with the console shows the plain terminal's view. */
  lemma ShownIsView(c: Console)
    requires c.Valid() && c.InSync()
    ensures c.disp.Screen() == Terminal.View(Abstract(c), c.ring.Length - 1)
  {
    hide Display.Screen, Last, Slice;
  }

  lemma NowhereMoved(w: Panning, ys: int)
    ensures PositionAfter(w, ys, []) == ys
  {
  }

  lemma RunNone(p: Terminal.Plain, cols: nat, blank: Cell, cap: nat)
    requires Rect(p.text, cols)
    ensures Terminal.Run(p, [], cols, blank, cap) == p
  {
  }
}
