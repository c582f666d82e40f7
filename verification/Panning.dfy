/** What a scroll does to the hardware window, from the window's position and the scroll alone, and which scrolls of
    the pan-and-redraw mode come out right whatever the screen, the framebuffer and the memory hold. */
module PanningModel {
  import opened Grid
  import opened DisplayModel

  datatype Panning = Panning(mode: ScrollMode, vrows: nat, rows: nat, partial: bool) {

    function Gap(): int { vrows - rows }

    predicate JumpsUp(ys: int, n: nat) { ys + n > Gap() }

    predicate JumpsDown(ys: int, n: nat) { ys < n }

    /** Whether the window is worth moving: enough rows stay, and a wrap or pan of the region is possible. */
    predicate MovesUp(ys: int, t: nat, b: nat, n: nat)
      requires t + n <= b
    {
      if mode.WrapMove? then b - t - n > 3 * rows / 4
      else
        && ys + n <= 2 * Gap()
        && (if partial then b - t - n > 3 * rows / 4 else b - t == rows)
    }

    predicate MovesDown(ys: int, t: nat, b: nat, n: nat)
      requires t + n <= b
    {
      if mode.WrapMove? then b - t - n > 3 * rows / 4
      else
        && ys <= n   // the difference is unsigned: a smaller count never pans
        && n - ys <= Gap()
        && (if partial then b - t - n > 3 * rows / 4 else b - t == rows)
    }

    /** In other words: a wrap or a partial pan asks that more than three quarters of the screen's rows move along, a
        pan without that ability that the whole screen scrolls, and any pan that one jump is enough. */
    lemma MovesWhenMostStays(ys: int, t: nat, b: nat, n: nat)
      requires t + n <= b
      ensures MovesUp(ys, t, b, n) <==>
              (if mode.WrapMove? || partial then 4 * (b - t - n) > 3 * rows else b - t == rows)
              && (mode.WrapMove? || ys + n - Gap() <= Gap())
      ensures MovesDown(ys, t, b, n) <==>
              (if mode.WrapMove? || partial then 4 * (b - t - n) > 3 * rows else b - t == rows)
              && (mode.WrapMove? || (ys <= n && 0 - Gap() <= ys - n))
    {
    }

    /** The window's position after a scroll. */
    function Next(ys: int, t: nat, b: nat, up: bool, n: nat): int
      requires t + n <= b
    {
      if !Moving(mode) then ys
      else if up then if MovesUp(ys, t, b, n) then SlidFrom(mode, vrows, rows, ys, n) else ys
      else if MovesDown(ys, t, b, n) then SlidFrom(mode, vrows, rows, ys, 0 - n) else ys
    }

    predicate Sane(ys: int, t: nat, b: nat, n: nat) {
      0 <= ys <= Gap() && t < b <= rows && 1 <= n <= b - t
    }

    /** The exact condition for a scroll of a screen showing g to be one: what is drawn in the wrong place equals
        what belongs there. */
    predicate ShowsFor(ys: int, g: Rows, hidden: Rows, beyond: Rows, t: nat, b: nat, up: bool, n: nat)
      requires |g| == rows == |beyond| && t < b <= rows && n <= b - t
    {
      mode.PanRedraw? ==>
        if up then MovesUp(ys, t, b, n) && JumpsUp(ys, n) ==> StaleHead(g, hidden, beyond, t, n) == g[..t]
        else MovesDown(ys, t, b, n) ==>
          && g[n..n + t] == g[..t]
          && (JumpsDown(ys, n) ==> g[b - n..rows - n] == g[b..])
    }

    /** The guard over what a caller can see: mode, sizes, position, region, direction and count. */
    predicate AlwaysScrolls(ys: int, t: nat, b: nat, up: bool, n: nat)
      requires t + n <= b
    {
      mode.PanRedraw? ==>
        if up then MovesUp(ys, t, b, n) && JumpsUp(ys, n) ==> t == 0 || (n == Gap() && t <= n)
        else MovesDown(ys, t, b, n) ==> t == 0 && (JumpsDown(ys, n) ==> b == rows)
    }

    /** The same without the position. */
    predicate SafeRegion(t: nat, b: nat, up: bool, n: nat)
      requires t + n <= b
    {
      mode.PanRedraw? ==>
        || !partial || b - t - n <= 3 * rows / 4 || n > 2 * Gap()
        || (if up then t == 0 || (n == Gap() && t <= n) else t == 0 && b == rows)
    }

    /** It holds if and only if the guard does wherever the window stands. */
    lemma SafeAnywhere(t: nat, b: nat, up: bool, n: nat)
      requires Sane(0, t, b, n)
      ensures SafeRegion(t, b, up, n) <==> forall ys :: 0 <= ys <= Gap() ==> AlwaysScrolls(ys, t, b, up, n)
    {
      if !SafeRegion(t, b, up, n) {
        if up {
          assert !AlwaysScrolls(if n <= Gap() then Gap() else 0, t, b, up, n);
        } else {
          assert !AlwaysScrolls(if n <= Gap() then 0 else n - Gap(), t, b, up, n);
        }
      }
    }

    ghost predicate Contents(cols: nat, g: Rows, hidden: Rows, beyond: Rows) {
      |g| == rows == |beyond| && |hidden| == Gap() && Rect(g, cols) && Rect(hidden, cols) && Rect(beyond, cols)
    }

    /** The guard is exact: it holds if and only if the scroll comes out right for every content of screen,
        hidden rows and memory behind the buffer. */
    lemma AlwaysScrollsExactly(ys: int, cols: nat, t: nat, b: nat, up: bool, n: nat)
      requires Sane(ys, t, b, n) && 0 < cols
      ensures AlwaysScrolls(ys, t, b, up, n) <==>
              forall g, hidden, beyond :: Contents(cols, g, hidden, beyond) ==>
                ShowsFor(ys, g, hidden, beyond, t, b, up, n)
    {
      hide Rect, Moving;
      if AlwaysScrolls(ys, t, b, up, n) {
        forall g, hidden, beyond | Contents(cols, g, hidden, beyond)
          ensures ShowsFor(ys, g, hidden, beyond, t, b, up, n)
        {
          GuardSuffices(ys, cols, g, hidden, beyond, t, b, up, n);
        }
      } else {
        var g, hidden, beyond := GuardNeeded(ys, cols, t, b, up, n);
        assert Contents(cols, g, hidden, beyond) && !ShowsFor(ys, g, hidden, beyond, t, b, up, n);
      }
    }

    lemma GuardSuffices(ys: int, cols: nat, g: Rows, hidden: Rows, beyond: Rows, t: nat, b: nat, up: bool, n: nat)
      requires Sane(ys, t, b, n) && Contents(cols, g, hidden, beyond) && AlwaysScrolls(ys, t, b, up, n)
      ensures ShowsFor(ys, g, hidden, beyond, t, b, up, n)
    {
      hide Rect;
      if up && n == Gap() && t <= n {
        HeadStaysFresh(g, hidden, beyond, t);
      }
    }

    /** Contents for which the scroll fails when the guard does. */
    lemma GuardNeeded(ys: int, cols: nat, t: nat, b: nat, up: bool, n: nat)
      returns (g: Rows, hidden: Rows, beyond: Rows)
      requires Sane(ys, t, b, n) && 0 < cols && !AlwaysScrolls(ys, t, b, up, n)
      ensures Contents(cols, g, hidden, beyond) && !ShowsFor(ys, g, hidden, beyond, t, b, up, n)
    {
      hide Moving, SlidFrom;
      hidden, beyond := Blanks(Gap(), cols, 0), Blanks(rows, cols, 2);
      var marked := if up || t > 0 then 0 else b;
      g := Blanks(rows, cols, 0)[marked := Blanks(1, cols, 1)[0]];
      if up {
        HeadGoesStale(g, hidden, beyond, t, n, cols);
      } else if t > 0 {
        assert g[n..n + t][0] == g[n] && g[..t][0] == g[0] && g[n][0] != g[0][0];
      } else {
        assert g[b - n..rows - n][0] == g[b - n] && g[b..][0] == g[b] && g[b - n][0] != g[b][0];
      }
    }
  }

  /** A jump by exactly the spare rows leaves a head no longer than they are where it was. */
  lemma HeadStaysFresh(g: Rows, hidden: Rows, beyond: Rows, t: nat)
    requires |g| == |beyond| && t <= |hidden| && t + |hidden| <= |g|
    ensures StaleHead(g, hidden, beyond, t, |hidden|) == g[..t]
  {
    forall i | 0 <= i < t ensures StaleHead(g, hidden, beyond, t, |hidden|)[i] == g[i] {
    }
  }

  /** Any other jump over a head leaves one that differs for some contents. */
  lemma HeadGoesStale(g: Rows, hidden: Rows, beyond: Rows, t: nat, n: nat, cols: nat)
    requires 0 < cols && 1 <= t && 1 <= n && t + n <= |g| == |beyond| && 1 <= |hidden|
    requires n != |hidden| || t > n
    requires hidden == Blanks(|hidden|, cols, 0) && beyond == Blanks(|g|, cols, 2)
    requires g == Blanks(|g|, cols, 0)[0 := Blanks(1, cols, 1)[0]]
    ensures StaleHead(g, hidden, beyond, t, n) != g[..t]
  {
    var head, gap := StaleHead(g, hidden, beyond, t, n), |hidden|;
    assert g[0][0] == 1;
    if n != gap {
      assert head[0][0] != 1;
    } else {
      assert g[gap][0] == 0 && head[gap][0] != 0;
    }
  }
}
