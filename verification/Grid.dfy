/** Text cells, rows of cells, and the plain meaning of the rectangle
    operations that the console engine asks its blitters for. */
module Grid {

  /** A cell as the text buffer stores it: glyph index in the low bits, colours above. */
  type Cell = bv16
  type Row = seq<Cell>
  type Rows = seq<Row>

  /** The byte the redraw loops compare to cut a row into runs. */
  function Attr(c: Cell): Cell { c & 0xff00 }

  /** What `putcs` puts on the screen for `c`: the glyph of `c` in the colours of the
      first character of the run. With a 512-glyph font bit 8 belongs to the glyph. */
  function Paint(hiFont: bool, c: Cell, first: Cell): Cell {
    if hiFont then (first & 0xfe00) | (c & 0x01ff) else (first & 0xff00) | (c & 0x00ff)
  }

  lemma PaintOwn256(c: Cell, first: Cell)
    requires c & 0xff00 == first & 0xff00
    ensures (first & 0xff00) | (c & 0x00ff) == c
  {
    assert (c & 0xff00) | (c & 0x00ff) == c;
  }

  lemma PaintOwn512(c: Cell, first: Cell)
    requires c & 0xff00 == first & 0xff00
    ensures (first & 0xfe00) | (c & 0x01ff) == c
  {
    assert first & 0xfe00 == (first & 0xff00) & 0xfe00;
    assert c & 0xfe00 == (c & 0xff00) & 0xfe00;
    assert (c & 0xfe00) | (c & 0x01ff) == c;
  }

  /** A character is shown as it is stored when the run's first one has its attribute. */
  lemma PaintOwnAttribute(hiFont: bool, c: Cell, first: Cell)
    requires Attr(c) == Attr(first)
    ensures Paint(hiFont, c, first) == c
  {
    PaintOwn256(c, first);
    PaintOwn512(c, first);
  }

  function PaintRun(hiFont: bool, run: Row): (r: Row)
    requires 0 < |run|
    ensures |r| == |run|
  {
    seq(|run|, k requires 0 <= k < |run| => Paint(hiFont, run[k], run[0]))
  }

  ghost predicate OneAttribute(run: Row) {
    forall j, k :: 0 <= j < |run| && 0 <= k < |run| ==> Attr(run[j]) == Attr(run[k])
  }

  lemma RunHasOneAttribute(src: Row, x: nat, run: Row, attr: Cell)
    requires x + |run| <= |src| && run == src[x..x + |run|]
    requires forall j :: x <= j < x + |run| ==> Attr(src[j]) == attr
    ensures OneAttribute(run)
  {
    hide Attr;
    forall j | 0 <= j < |run| ensures Attr(run[j]) == attr {
      assert run[j] == src[x + j];
    }
  }

  /** `putcs` shows exactly the stored characters of a run with one attribute. */
  lemma PaintUniformRun(hiFont: bool, run: Row)
    requires 0 < |run| && OneAttribute(run)
    ensures PaintRun(hiFont, run) == run
  {
    forall k | 0 <= k < |run| ensures PaintRun(hiFont, run)[k] == run[k] {
      PaintOwnAttribute(hiFont, run[k], run[0]);
    }
  }

  ghost predicate Rect(g: Rows, cols: nat) {
    forall i :: 0 <= i < |g| ==> |g[i]| == cols
  }

  function Paste(dst: Row, x: nat, src: Row): (r: Row)
    requires x + |src| <= |dst|
    ensures |r| == |dst|
  {
    seq(|dst|, j requires 0 <= j < |dst| => if x <= j < x + |src| then src[j - x] else dst[j])
  }

  /** `dst` with w of its cells, from dx on, taken from `src`, from sx on. */
  function Mix(dst: Row, dx: nat, src: Row, sx: nat, w: nat): (r: Row)
    requires dx + w <= |dst| && sx + w <= |src|
    ensures |r| == |dst|
  {
    seq(|dst|, j requires 0 <= j < |dst| => if dx <= j < dx + w then src[sx + (j - dx)] else dst[j])
  }

  function Blanks(n: nat, cols: nat, blank: Cell): (r: Rows)
    ensures |r| == n && Rect(r, cols)
    ensures forall i :: 0 <= i < n ==> r[i] == seq(cols, _ => blank)
  {
    seq(n, _ => seq(cols, _ => blank))
  }

  function BlitRow(g: Rows, cols: nat, sy: nat, sx: nat, dy: nat, dx: nat, h: nat, w: nat, i: nat): (r: Row)
    requires Rect(g, cols) && i < |g|
    requires sy + h <= |g| && dy + h <= |g| && sx + w <= cols && dx + w <= cols
    ensures |r| == cols
  {
    if dy <= i < dy + h then Mix(g[i], dx, g[sy + (i - dy)], sx, w) else g[i]
  }

  /** One overlap-safe move of an h-by-w rectangle: every target row reads the old rows. */
  function Blit(g: Rows, cols: nat, sy: nat, sx: nat, dy: nat, dx: nat, h: nat, w: nat): (r: Rows)
    requires Rect(g, cols)
    requires sy + h <= |g| && dy + h <= |g| && sx + w <= cols && dx + w <= cols
    ensures |r| == |g| && Rect(r, cols)
  {
    seq(|g|, i requires 0 <= i < |g| => BlitRow(g, cols, sy, sx, dy, dx, h, w, i))
  }

  lemma BlitTarget(g: Rows, cols: nat, sy: nat, sx: nat, dy: nat, dx: nat, h: nat, w: nat, k: nat)
    requires Rect(g, cols) && k < h
    requires sy + h <= |g| && dy + h <= |g| && sx + w <= cols && dx + w <= cols
    ensures Blit(g, cols, sy, sx, dy, dx, h, w)[dy + k] == Mix(g[dy + k], dx, g[sy + k], sx, w)
  {
  }

  lemma BlitElsewhere(g: Rows, cols: nat, sy: nat, sx: nat, dy: nat, dx: nat, h: nat, w: nat, i: nat)
    requires Rect(g, cols) && i < |g| && !(dy <= i < dy + h)
    requires sy + h <= |g| && dy + h <= |g| && sx + w <= cols && dx + w <= cols
    ensures Blit(g, cols, sy, sx, dy, dx, h, w)[i] == g[i]
  {
  }

  /** Exactly the cells of the target rectangle change, each to what the source cell held before. */
  lemma BlitCell(g: Rows, cols: nat, sy: nat, sx: nat, dy: nat, dx: nat, h: nat, w: nat, i: nat, j: nat)
    requires Rect(g, cols) && i < |g| && j < cols
    requires sy + h <= |g| && dy + h <= |g| && sx + w <= cols && dx + w <= cols
    ensures Blit(g, cols, sy, sx, dy, dx, h, w)[i][j] ==
            if dy <= i < dy + h && dx <= j < dx + w then g[i + sy - dy][j + sx - dx] else g[i][j]
  {
    if dy <= i < dy + h {
      BlitTarget(g, cols, sy, sx, dy, dx, h, w, i - dy);
    } else {
      BlitElsewhere(g, cols, sy, sx, dy, dx, h, w, i);
    }
  }

  /** An h-by-w rectangle overwritten with blanks. */
  function Wipe(g: Rows, cols: nat, sy: nat, sx: nat, h: nat, w: nat, blank: Cell): (r: Rows)
    requires Rect(g, cols) && sy + h <= |g| && sx + w <= cols
    ensures |r| == |g| && Rect(r, cols)
  {
    seq(|g|, i requires 0 <= i < |g| =>
      if sy <= i < sy + h then Paste(g[i], sx, seq(w, _ => blank)) else g[i])
  }

  /** Exactly the cells of the rectangle are blanked: none to its left or right, above or below. */
  lemma WipeCell(g: Rows, cols: nat, sy: nat, sx: nat, h: nat, w: nat, blank: Cell, i: nat, j: nat)
    requires Rect(g, cols) && sy + h <= |g| && sx + w <= cols && i < |g| && j < cols
    ensures Wipe(g, cols, sy, sx, h, w, blank)[i][j] ==
            if sy <= i < sy + h && sx <= j < sx + w then blank else g[i][j]
  {
  }

  lemma PasteCell(dst: Row, x: nat, src: Row, j: nat)
    requires x + |src| <= |dst| && j < |dst|
    ensures Paste(dst, x, src)[j] == if x <= j < x + |src| then src[j - x] else dst[j]
  {
  }

  /** Whole rows [d, d+h) replaced by the old rows [s, s+h). */
  function MoveRows(g: Rows, s: nat, d: nat, h: nat): (r: Rows)
    requires s + h <= |g| && d + h <= |g|
    ensures |r| == |g|
  {
    seq(|g|, i requires 0 <= i < |g| => if d <= i < d + h then g[s + i - d] else g[i])
  }

  /** A full-width move is a move of rows. */
  lemma FullWidthBlit(g: Rows, cols: nat, s: nat, d: nat, h: nat)
    requires Rect(g, cols) && s + h <= |g| && d + h <= |g|
    ensures Blit(g, cols, s, 0, d, 0, h, cols) == MoveRows(g, s, d, h)
  {
    forall i | 0 <= i < |g| ensures Blit(g, cols, s, 0, d, 0, h, cols)[i] == MoveRows(g, s, d, h)[i] {
      if d <= i < d + h {
        assert |g[s + i - d]| == cols;
      }
    }
  }

  /** A full-width wipe leaves blank rows. */
  lemma FullWidthWipe(g: Rows, cols: nat, s: nat, h: nat, blank: Cell)
    requires Rect(g, cols) && s + h <= |g|
    ensures Wipe(g, cols, s, 0, h, cols, blank) == g[..s] + Blanks(h, cols, blank) + g[s + h..]
  {
    var r := Wipe(g, cols, s, 0, h, cols, blank);
    forall i | 0 <= i < |g| ensures r[i] == (g[..s] + Blanks(h, cols, blank) + g[s + h..])[i] {
      assert |g[i]| == cols;
    }
  }

  /** A row drawn as far as cell k. */
  function Merge(src: Row, was: Row, k: nat): (r: Row)
    requires |src| == |was| && k <= |src|
    ensures |r| == |src|
  {
    src[..k] + was[k..]
  }

  lemma MergeEnds(src: Row, was: Row)
    requires |src| == |was|
    ensures Merge(src, was, 0) == was && Merge(src, was, |src|) == src
  {
  }

  lemma MergeStep(src: Row, was: Row, k: nat)
    requires |src| == |was| && k < |src|
    ensures Merge(src, was, k)[k] == was[k]
    ensures Merge(src, was, k)[k := src[k]] == Merge(src, was, k + 1)
    ensures src[k] == was[k] ==> Merge(src, was, k) == Merge(src, was, k + 1)
  {
  }

  lemma MoveInPrefix(g: Rows, n: nat, s: nat, d: nat, h: nat)
    requires n <= |g| && s + h <= n && d + h <= n
    ensures MoveRows(g, s, d, h)[..n] == MoveRows(g[..n], s, d, h)
  {
  }

  lemma WipeInPrefix(g: Rows, n: nat, cols: nat, sy: nat, sx: nat, h: nat, w: nat, blank: Cell)
    requires n <= |g| && sy + h <= n && sx + w <= cols && Rect(g, cols)
    ensures Wipe(g, cols, sy, sx, h, w, blank)[..n] == Wipe(g[..n], cols, sy, sx, h, w, blank)
  {
  }

  /** Moving one more row, working upwards or downwards. */
  lemma MoveOneMore(g: Rows, s: nat, d: nat, k: nat)
    requires s + k < |g| && d + k < |g|
    ensures MoveRows(g, s, d, k)[d + k := g[s + k]] == MoveRows(g, s, d, k + 1)
    ensures MoveRows(g, s + 1, d + 1, k)[d := g[s]] == MoveRows(g, s, d, k + 1)
  {
  }

  /** `count` rows from `line` on, downwards when step > 0 and upwards otherwise, replaced by
      the old rows `step` away. */
  function Shifted(g: Rows, line: int, count: nat, step: int): (r: Rows)
    requires step > 0 ==> 0 <= line && line + count + step <= |g|
    requires step <= 0 ==> line < |g| && 0 <= line - count + 1 + step
    ensures |r| == |g|
  {
    if step > 0 then MoveRows(g, line + step, line, count)
    else MoveRows(g, line - count + 1 + step, line - count + 1, count)
  }

  lemma ShiftedNone(g: Rows, line: int, step: int)
    requires step > 0 ==> 0 <= line && line + step <= |g|
    requires step <= 0 ==> line < |g| && 0 <= line + 1 + step
    ensures Shifted(g, line, 0, step) == g
  {
  }

  /** The next row in that order still reads an old row. */
  lemma ShiftedStep(g: Rows, line: int, k: nat, step: int, at: int)
    requires step != 0 && at == if step > 0 then line + k else line - k
    requires step > 0 ==> 0 <= line && line + k + 1 + step <= |g|
    requires step < 0 ==> line < |g| && 0 <= line - k + step
    ensures Shifted(g, line, k, step)[at + step] == g[at + step]
    ensures Shifted(g, line, k, step)[at] == g[at]
    ensures Shifted(g, line, k, step)[at := g[at + step]] == Shifted(g, line, k + 1, step)
  {
    hide MoveRows;
    if step > 0 {
      MoveOneMore(g, line + step, line, k);
      MoveRowsElsewhere(g, line + step, line, k, at);
      MoveRowsElsewhere(g, line + step, line, k, at + step);
    } else {
      MoveOneMore(g, at + step, at, k);
      MoveRowsElsewhere(g, at + step + 1, at + 1, k, at);
      MoveRowsElsewhere(g, at + step + 1, at + 1, k, at + step);
    }
  }

  lemma MoveRowsElsewhere(g: Rows, s: nat, d: nat, h: nat, i: nat)
    requires s + h <= |g| && d + h <= |g| && i < |g| && !(d <= i < d + h)
    ensures MoveRows(g, s, d, h)[i] == g[i]
  {
  }

  // --- The plain meaning of a scroll -------------------------------------------------

  /** Rows [t, b) shift up by n, the n vacated rows at the bottom of the region are blank. */
  function ScrolledUp(g: Rows, cols: nat, t: nat, b: nat, n: nat, blank: Cell): (r: Rows)
    requires t <= b <= |g| && n <= b - t
    ensures |r| == |g|
  {
    g[..t] + g[t + n..b] + Blanks(n, cols, blank) + g[b..]
  }

  /** Rows [t, b) shift down by n, the n vacated rows at the top of the region are blank. */
  function ScrolledDown(g: Rows, cols: nat, t: nat, b: nat, n: nat, blank: Cell): (r: Rows)
    requires t <= b <= |g| && n <= b - t
    ensures |r| == |g|
  {
    g[..t] + Blanks(n, cols, blank) + g[t..b - n] + g[b..]
  }

  lemma ScrolledUpAt(g: Rows, cols: nat, t: nat, b: nat, n: nat, blank: Cell, i: nat)
    requires t <= b <= |g| && n <= b - t && i < |g|
    ensures ScrolledUp(g, cols, t, b, n, blank)[i] ==
            if i < t || b <= i then g[i] else if i < b - n then g[i + n] else seq(cols, _ => blank)
  {
    var up := ScrolledUp(g, cols, t, b, n, blank);
    if i < t {
      assert up[i] == g[..t][i];
    } else if i < b - n {
      assert up[i] == g[t + n..b][i - t];
    } else if i < b {
      assert up[i] == Blanks(n, cols, blank)[i - (b - n)];
    } else {
      assert up[i] == g[b..][i - b];
    }
  }

  lemma ScrolledDownAt(g: Rows, cols: nat, t: nat, b: nat, n: nat, blank: Cell, i: nat)
    requires t <= b <= |g| && n <= b - t && i < |g|
    ensures ScrolledDown(g, cols, t, b, n, blank)[i] ==
            if i < t || b <= i then g[i] else if i < t + n then seq(cols, _ => blank) else g[i - n]
  {
    var down := ScrolledDown(g, cols, t, b, n, blank);
    if i < t {
      assert down[i] == g[..t][i];
    } else if i < t + n {
      assert down[i] == Blanks(n, cols, blank)[i - t];
    } else if i < b {
      assert down[i] == g[t..b - n][i - t - n];
    } else {
      assert down[i] == g[b..][i - b];
    }
  }

  lemma MovedAt(g: Rows, s: nat, d: nat, h: nat, i: nat)
    requires s + h <= |g| && d + h <= |g| && i < |g|
    ensures MoveRows(g, s, d, h)[i] == if d <= i < d + h then g[s + i - d] else g[i]
  {
  }

  /** Rows of a screen with a blank gap of n rows at `from`. */
  lemma GapAt(m: Rows, from: nat, n: nat, cols: nat, blank: Cell, i: nat)
    requires from + n <= |m| && i < |m|
    ensures (m[..from] + Blanks(n, cols, blank) + m[from + n..])[i] ==
            if from <= i < from + n then seq(cols, _ => blank) else m[i]
  {
  }

  /** Moving the head rows down, sliding the whole window by n, moving the tail rows back
      and blanking the gap is a scroll of [t, b), whatever rows the slide brings in. */
  lemma SlideUpIsScroll(g: Rows, v: Rows, cols: nat, t: nat, b: nat, n: nat, blank: Cell)
    requires t < b <= |g| == |v| && n <= b - t
    requires v[..|g| - n] == MoveRows(g, 0, n, t)[n..]
    ensures var moved := MoveRows(v, b - n, b, |g| - b);
            moved[..b - n] + Blanks(n, cols, blank) + moved[b..] == ScrolledUp(g, cols, t, b, n, blank)
  {
    hide MoveRows, ScrolledUp, Blanks;
    var moved := MoveRows(v, b - n, b, |g| - b);
    var out, want := moved[..b - n] + Blanks(n, cols, blank) + moved[b..], ScrolledUp(g, cols, t, b, n, blank);
    forall i | 0 <= i < |g| ensures out[i] == want[i] {
      ScrolledUpAt(g, cols, t, b, n, blank, i);
      GapAt(moved, b - n, n, cols, blank, i);
      MovedAt(v, b - n, b, |g| - b, i);
      var j := if i < b then i else i - n;
      if j < |g| - n {
        assert v[j] == v[..|g| - n][j];
        MovedAt(g, 0, n, t, j + n);
      }
    }
  }

  /** The same for sliding the window down. */
  lemma SlideDownIsScroll(g: Rows, v: Rows, cols: nat, t: nat, b: nat, n: nat, blank: Cell)
    requires t < b <= |g| == |v| && n <= b - t
    requires v[n..] == MoveRows(g, b, b - n, |g| - b)[..|g| - n]
    ensures var moved := MoveRows(v, n, 0, t);
            moved[..t] + Blanks(n, cols, blank) + moved[t + n..] == ScrolledDown(g, cols, t, b, n, blank)
  {
    hide MoveRows, ScrolledDown, Blanks;
    var moved := MoveRows(v, n, 0, t);
    var out, want := moved[..t] + Blanks(n, cols, blank) + moved[t + n..], ScrolledDown(g, cols, t, b, n, blank);
    forall i | 0 <= i < |g| ensures out[i] == want[i] {
      ScrolledDownAt(g, cols, t, b, n, blank, i);
      GapAt(moved, t, n, cols, blank, i);
      MovedAt(v, n, 0, t, i);
      var j := if i < t then i + n else i;
      if n <= j {
        assert v[j] == v[n..][j - n];
        MovedAt(g, b, b - n, |g| - b, j - n);
      }
    }
  }

  /** Rows [d, d+|src|) replaced. */
  function PutRows(g: Rows, d: nat, src: Rows): (r: Rows)
    requires d + |src| <= |g|
    ensures |r| == |g|
  {
    g[..d] + src + g[d + |src|..]
  }

  lemma PutNone(g: Rows, d: nat)
    requires d <= |g|
    ensures PutRows(g, d, []) == g
  {
  }

  /** On a screen that shows the buffer, drawing buffer rows elsewhere is moving them. */
  lemma DrawnIsMoved(g: Rows, s: nat, d: nat, h: nat)
    requires s + h <= |g| && d + h <= |g|
    ensures PutRows(g, d, g[s..s + h]) == MoveRows(g, s, d, h)
  {
  }

  /** Redrawing the tail from the buffer after a slide is moving it back. */
  lemma TailAfterSlide(g: Rows, v: Rows, t: nat, b: nat, n: nat)
    requires t < b <= |g| == |v| && n <= b - t
    requires v[..|g| - n] == MoveRows(g, 0, n, t)[n..]
    ensures PutRows(v, b, g[b..]) == MoveRows(v, b - n, b, |g| - b)
  {
    forall i | b <= i < |g| ensures v[i - n] == g[i] {
      assert v[..|g| - n][i - n] == MoveRows(g, 0, n, t)[n..][i - n];
    }
  }

  lemma PutHead(g: Rows, src: Rows, from: nat)
    requires |src| <= from <= |g|
    ensures PutRows(g, 0, src)[..|src|] == src && PutRows(g, 0, src)[from..] == g[from..]
  {
  }

  lemma PutTail(g: Rows, src: Rows, from: nat)
    requires from + |src| == |g|
    ensures PutRows(g, from, src)[..from] == g[..from] && PutRows(g, from, src)[from..] == src
  {
  }

  /** Tail rows drawn n lines higher are back in place once the window has slid down by n. */
  lemma TailDrawnThenSlid(g: Rows, drawn: Rows, v: Rows, cols: nat, t: nat, b: nat, n: nat, blank: Cell)
    requires t < b <= |g| == |v| && n <= b - t
    requires drawn == PutRows(g, b - n, g[b..])
    requires v[n..] == drawn[..|g| - n]
    ensures v[t + n..] == ScrolledDown(g, cols, t, b, n, blank)[t + n..]
  {
    var want := ScrolledDown(g, cols, t, b, n, blank);
    forall i | t + n <= i < |g| ensures v[i] == want[i] {
      assert v[n..][i - n] == drawn[i - n];
    }
  }

  lemma PutThenBlank(g: Rows, s: Rows, cols: nat, t: nat, b: nat, n: nat, blank: Cell)
    requires t < b <= |g| == |s| && n <= b - t
    requires s[..t] == g[n..n + t] && s[t + n..] == ScrolledDown(g, cols, t, b, n, blank)[t + n..]
    ensures s[..t] + Blanks(n, cols, blank) + s[t + n..]
         == PutRows(ScrolledDown(g, cols, t, b, n, blank), 0, g[n..n + t])
  {
    var want := ScrolledDown(g, cols, t, b, n, blank);
    assert want == want[..t] + Blanks(n, cols, blank) + want[t + n..];
  }

  /** Overwriting rows of a screen changes it exactly when they differ. */
  lemma PutSame(g: Rows, d: nat, src: Rows)
    requires d + |src| <= |g|
    ensures PutRows(g, d, src) == g <==> src == g[d..d + |src|]
  {
    var got := PutRows(g, d, src);
    assert got[d..d + |src|] == src;
    if src == g[d..d + |src|] {
      assert g == g[..d] + g[d..d + |src|] + g[d + |src|..];
    }
  }

  /** The same for a tail and a head overwritten one after the other. */
  lemma PutEndsSame(g: Rows, b: nat, tail: Rows, head: Rows)
    requires |head| <= b && b + |tail| == |g|
    ensures PutRows(PutRows(g, b, tail), 0, head) == g <==> tail == g[b..] && head == g[..|head|]
  {
    var got := PutRows(PutRows(g, b, tail), 0, head);
    assert got[..|head|] == head && got[b..] == tail;
    PutSame(g, b, tail);
    PutSame(g, 0, head);
  }

  /** Rows above and below the region stay in place. */
  lemma EndsOfScroll(g: Rows, cols: nat, t: nat, b: nat, n: nat, blank: Cell)
    requires t <= b <= |g| && n <= b - t
    ensures ScrolledUp(g, cols, t, b, n, blank)[..t] == g[..t]
    ensures ScrolledDown(g, cols, t, b, n, blank)[..t] == g[..t]
    ensures ScrolledDown(g, cols, t, b, n, blank)[b..] == g[b..]
  {
  }

  /** A screen whose region and tail are in place and whose head shows `head`, its gap cleared. */
  lemma HeadThenBlank(g: Rows, s: Rows, cols: nat, t: nat, b: nat, n: nat, blank: Cell, head: Rows)
    requires t < b <= |g| == |s| && n <= b - t && |head| == t
    requires s[..t] == head && s[b..] == g[b..]
    requires forall i :: t <= i < b - n ==> s[i] == g[i + n]
    ensures s[..b - n] + Blanks(n, cols, blank) + s[b..] == PutRows(ScrolledUp(g, cols, t, b, n, blank), 0, head)
  {
    hide ScrolledUp, Blanks;
    var want := ScrolledUp(g, cols, t, b, n, blank);
    var got := s[..b - n] + Blanks(n, cols, blank) + s[b..];
    forall i | 0 <= i < |g| ensures got[i] == PutRows(want, 0, head)[i] {
      GapAt(s, b - n, n, cols, blank, i);
      ScrolledUpAt(g, cols, t, b, n, blank, i);
      if i < t { assert s[i] == s[..t][i]; }
      if i >= b { assert s[i] == s[b..][i - b]; }
    }
  }

  /** A screen redrawn n lines lower from row t on, with a head drawn from n rows too far down, its gap cleared. */
  lemma JumpedThenBlank(g: Rows, s: Rows, cols: nat, t: nat, b: nat, n: nat, blank: Cell)
    requires t < b <= |g| == |s| && n <= b - t
    requires s[..t] == g[n..n + t] && s[t + n..] == g[t..|g| - n]
    ensures s[..t] + Blanks(n, cols, blank) + s[t + n..]
         == PutRows(PutRows(ScrolledDown(g, cols, t, b, n, blank), b, g[b - n..|g| - n]), 0, g[n..n + t])
  {
    hide ScrolledDown, Blanks;
    var want := ScrolledDown(g, cols, t, b, n, blank);
    var got := s[..t] + Blanks(n, cols, blank) + s[t + n..];
    var tail := PutRows(want, b, g[b - n..|g| - n]);
    forall i | 0 <= i < |g| ensures got[i] == PutRows(tail, 0, g[n..n + t])[i] {
      GapAt(s, t, n, cols, blank, i);
      ScrolledDownAt(g, cols, t, b, n, blank, i);
      if i < t { assert s[i] == s[..t][i]; }
      if i >= t + n { assert s[i] == s[t + n..][i - t - n] == g[i - n]; }
    }
  }

  /** Both outcomes of a window moving down. */
  lemma MovedThenBlank(g: Rows, s: Rows, cols: nat, t: nat, b: nat, n: nat, blank: Cell, jumps: bool)
    requires t < b <= |g| == |s| && n <= b - t && s[..t] == g[n..n + t]
    requires s[t + n..] == if jumps then g[t..|g| - n] else ScrolledDown(g, cols, t, b, n, blank)[t + n..]
    ensures var want := ScrolledDown(g, cols, t, b, n, blank);
            s[..t] + Blanks(n, cols, blank) + s[t + n..] ==
            PutRows(if jumps then PutRows(want, b, g[b - n..|g| - n]) else want, 0, g[n..n + t])
  {
    hide ScrolledDown, Blanks, PutRows;
    if jumps {
      JumpedThenBlank(g, s, cols, t, b, n, blank);
    } else {
      PutThenBlank(g, s, cols, t, b, n, blank);
    }
  }

  // --- Drawing that may leave the screen -----------------------------------------------------

  /** Rows drawn from display line d on; lines past the last physical row start over. */
  function DrawnAt(g: Rows, d: nat, src: Rows): (r: Rows)
    requires |src| <= |g|
    ensures |r| == |g|
  {
    seq(|g|, i requires 0 <= i < |g| =>
      if d <= i < d + |src| then src[i - d]
      else if d <= i + |g| < d + |src| then src[i + |g| - d] else g[i])
  }

  function LineOn(g: nat, y: nat): int { if y < g then y else y - g }

  lemma DrawnNone(g: Rows, d: nat)
    ensures DrawnAt(g, d, []) == g
  {
  }

  lemma DrawnOneMore(g: Rows, d: nat, src: Rows, row: Row)
    requires |src| < |g| && d + |src| < 2 * |g|
    ensures DrawnAt(g, d, src)[LineOn(|g|, d + |src|) := row] == DrawnAt(g, d, src + [row])
  {
  }

  /** On the screen it is replacing lines. */
  lemma DrawnInside(g: Rows, rows: nat, d: nat, src: Rows)
    requires d + |src| <= rows <= |g|
    ensures DrawnAt(g, d, src)[..rows] == PutRows(g[..rows], d, src)
    ensures DrawnAt(g, d, src)[rows..] == g[rows..]
  {
  }

  /** Rows drawn n lines lower, from those of a buffer and the memory behind it. */
  lemma DrawnLower(g: Rows, text: Rows, beyond: Rows, t: nat, n: nat)
    requires n <= |text| == |beyond| <= |g| && t + n <= |text|
    ensures DrawnAt(g, t + n, (text + beyond)[t..t + |text| - n])[t + n..|text|] == text[t..|text| - n]
  {
    var src := (text + beyond)[t..t + |text| - n];
    var low := DrawnAt(g, t + n, src)[t + n..|text|];
    forall i | 0 <= i < |low| ensures low[i] == text[t..|text| - n][i] {
      assert src[i] == (text + beyond)[t + i] == text[t + i];
    }
  }

  /** What the first t lines show after the pan window has jumped to the top over a screen that showed `g`:
      the window's new rows, of which only those below are drawn anew. `hidden` are the framebuffer's rows
      that were not shown, `beyond` is the memory behind the text buffer. */
  function StaleHead(g: Rows, hidden: Rows, beyond: Rows, t: nat, n: nat): (r: Rows)
    requires t + n <= |g| == |beyond|
    ensures |r| == t
  {
    var gap := |hidden|;
    seq(t, i requires 0 <= i < t =>
      if i + gap + n < t then beyond[i + gap + n]
      else if i >= gap then g[i - gap]
      else if i + n >= gap then g[i + n - gap]
      else hidden[i + n])
  }

  /** The screen after the window has jumped to the top and rows t + n and on of `mem` have been drawn from line t
      on. `all` is the framebuffer in display order before. */
  function AfterJump(all: Rows, mem: Rows, rows: nat, t: nat, n: nat): (r: Rows)
    requires rows <= |all| && |mem| == 2 * rows && t + n <= rows && n <= 2 * (|all| - rows)
    ensures |r| == rows
  {
    var gap := |all| - rows;
    seq(rows, i requires 0 <= i < rows =>
      if t <= i < t + rows - n then mem[i + n]
      else if i + gap + n < t then mem[rows + i + gap + n]
      else all[if i + n >= gap then i + n - gap else rows + i + n])
  }

  lemma JumpThenDraw(phys: Rows, ys: nat, mem: Rows, rows: nat, t: nat, n: nat)
    requires rows <= |phys| && ys <= |phys| - rows < ys + n <= 2 * (|phys| - rows)
    requires |mem| == 2 * rows && t + n <= rows
    ensures DrawnAt(Unwrapped(phys, ys + n - (|phys| - rows)), t, mem[t + n..t + rows])[..rows]
         == AfterJump(Unwrapped(phys, ys), mem, rows, t, n)
  {
    hide Unwrapped;
    var ys' := ys + n - (|phys| - rows);
    var got := DrawnAt(Unwrapped(phys, ys'), t, mem[t + n..t + rows]);
    forall i | 0 <= i < rows ensures got[i] == AfterJump(Unwrapped(phys, ys), mem, rows, t, n)[i] {
      WindowJumps(phys, ys, ys', i);
    }
  }

  /** After the head was drawn n lines lower and the window jumped, the head is stale and the region in place. */
  lemma JumpedUp(g: Rows, all: Rows, beyond: Rows, t: nat, b: nat, n: nat)
    requires t < b <= |g| == |beyond| <= |all| && n <= b - t && n <= 2 * (|all| - |g|) && all[..|g|] == g
    ensures var v := AfterJump(DrawnAt(all, n, g[..t]), g + beyond, |g|, t, n);
            && v[..t] == StaleHead(g, all[|g|..], beyond, t, n)
            && forall i :: t <= i < b - n ==> v[i] == g[i + n]
  {
    hide AfterJump, DrawnAt, StaleHead;
    JumpedRegion(g, all, beyond, t, b, n);
    var v := AfterJump(DrawnAt(all, n, g[..t]), g + beyond, |g|, t, n);
    forall i | 0 <= i < t ensures v[i] == StaleHead(g, all[|g|..], beyond, t, n)[i] {
      JumpedHeadRow(g, all, beyond, t, n, i);
    }
  }

  lemma JumpedHeadRow(g: Rows, all: Rows, beyond: Rows, t: nat, n: nat, i: nat)
    requires t + n <= |g| == |beyond| <= |all| && n <= 2 * (|all| - |g|) && all[..|g|] == g && i < t
    ensures AfterJump(DrawnAt(all, n, g[..t]), g + beyond, |g|, t, n)[i] ==
            StaleHead(g, all[|g|..], beyond, t, n)[i]
  {
    var gap := |all| - |g|;
    if i < gap && i + n >= gap {
      assert all[i + n - gap] == all[..|g|][i + n - gap];
    }
  }

  lemma JumpedRegion(g: Rows, all: Rows, beyond: Rows, t: nat, b: nat, n: nat)
    requires t < b <= |g| == |beyond| <= |all| && n <= b - t && n <= 2 * (|all| - |g|) && all[..|g|] == g
    ensures var v := AfterJump(DrawnAt(all, n, g[..t]), g + beyond, |g|, t, n);
            forall i :: t <= i < b - n ==> v[i] == g[i + n]
  {
    hide DrawnAt;
  }

  /** Moving the surviving rows and blanking the vacated ones is a scroll. */
  lemma MoveThenBlank(g: Rows, cols: nat, t: nat, b: nat, n: nat, blank: Cell)
    requires t < b <= |g| && n <= b - t
    ensures var up := MoveRows(g, t + n, t, b - t - n);
            up[..b - n] + Blanks(n, cols, blank) + up[b..] == ScrolledUp(g, cols, t, b, n, blank)
    ensures var down := MoveRows(g, t, t + n, b - t - n);
            down[..t] + Blanks(n, cols, blank) + down[t + n..] == ScrolledDown(g, cols, t, b, n, blank)
  {
  }

  // --- The wrapped or panned framebuffer ----------------------------------------------

  /** Row i of the display is physical row `RealY(vrows, yscroll, i)`. */
  function RealY(vrows: int, yscroll: int, y: int): int {
    if y + yscroll < vrows then y + yscroll else y + yscroll - vrows
  }

  /** The physical rows in display order. */
  function Unwrapped(phys: Rows, yscroll: nat): (r: Rows)
    requires yscroll <= |phys|
    ensures |r| == |phys|
  {
    phys[yscroll..] + phys[..yscroll]
  }

  lemma UnwrappedAt(phys: Rows, yscroll: nat, i: nat)
    requires yscroll < |phys| && i < |phys|
    ensures 0 <= RealY(|phys|, yscroll, i) < |phys|
    ensures Unwrapped(phys, yscroll)[i] == phys[RealY(|phys|, yscroll, i)]
  {
  }

  /** Sizes survive the change of order. */
  lemma UnwrappedRect(phys: Rows, yscroll: nat, cols: nat)
    requires yscroll < |phys| && Rect(phys, cols)
    ensures Rect(Unwrapped(phys, yscroll), cols)
  {
  }

  /** Whether rows [y, y+h) of the display straddle the physical end. */
  predicate Crosses(y: nat, h: nat, yBreak: nat) { y < yBreak < y + h }

  function Ord(b: bool): nat { if b then 1 else 0 }

  /** Rows that do not straddle the physical end are consecutive there too. */
  lemma StraightRange(vrows: nat, ys: nat, y: nat, h: nat)
    requires ys < vrows && 0 < h && y + h <= vrows && !Crosses(y, h, vrows - ys)
    ensures 0 <= RealY(vrows, ys, y) && RealY(vrows, ys, y) + h <= vrows
  {
  }

  lemma StraightRow(vrows: nat, ys: nat, y: nat, h: nat, i: nat)
    requires ys < vrows && 0 < h && y + h <= vrows && !Crosses(y, h, vrows - ys) && i < vrows
    ensures y <= i < y + h <==> RealY(vrows, ys, y) <= RealY(vrows, ys, i) < RealY(vrows, ys, y) + h
    ensures y <= i < y + h ==> RealY(vrows, ys, i) == RealY(vrows, ys, y) + (i - y)
  {
  }

  lemma StraightBlitRow(phys: Rows, cols: nat, ys: nat, sy: nat, sx: nat, dy: nat, dx: nat, h: nat, w: nat, i: nat)
    requires ys < |phys| && Rect(phys, cols) && 0 < h && Rect(Unwrapped(phys, ys), cols)
    requires sy + h <= |phys| && dy + h <= |phys| && sx + w <= cols && dx + w <= cols
    requires 0 <= RealY(|phys|, ys, sy) && RealY(|phys|, ys, sy) + h <= |phys|
    requires 0 <= RealY(|phys|, ys, dy) && RealY(|phys|, ys, dy) + h <= |phys|
    requires !Crosses(sy, h, |phys| - ys) && !Crosses(dy, h, |phys| - ys) && i < |phys|
    ensures 0 <= RealY(|phys|, ys, i) < |phys|
    ensures Blit(phys, cols, RealY(|phys|, ys, sy), sx, RealY(|phys|, ys, dy), dx, h, w)[RealY(|phys|, ys, i)]
         == Blit(Unwrapped(phys, ys), cols, sy, sx, dy, dx, h, w)[i]
  {
    UnwrappedAt(phys, ys, i);
    StraightRow(|phys|, ys, dy, h, i);
    if dy <= i < dy + h {
      StraightRow(|phys|, ys, sy, h, sy + (i - dy));
      UnwrappedAt(phys, ys, sy + (i - dy));
      SameTarget(phys, Unwrapped(phys, ys), cols, RealY(|phys|, ys, sy), sy, sx, RealY(|phys|, ys, dy), dy, dx,
                 h, w, i - dy);
    }
  }

  lemma SameTarget(g: Rows, u: Rows, cols: nat, gs: nat, us: nat, sx: nat, gd: nat, ud: nat, dx: nat, h: nat, w: nat,
                   k: nat)
    requires Rect(g, cols) && Rect(u, cols) && k < h && sx + w <= cols && dx + w <= cols
    requires gs + h <= |g| && gd + h <= |g| && us + h <= |u| && ud + h <= |u|
    requires g[gs + k] == u[us + k] && g[gd + k] == u[ud + k]
    ensures Blit(g, cols, gs, sx, gd, dx, h, w)[gd + k] == Blit(u, cols, us, sx, ud, dx, h, w)[ud + k]
  {
    BlitTarget(g, cols, gs, sx, gd, dx, h, w, k);
    BlitTarget(u, cols, us, sx, ud, dx, h, w, k);
  }

  /** A move that straddles the physical end neither in its source nor in its target is the
      same move on display rows and on physical rows. */
  lemma StraightBlit(phys: Rows, cols: nat, ys: nat, sy: nat, sx: nat, dy: nat, dx: nat, h: nat, w: nat)
    requires ys < |phys| && Rect(phys, cols) && 0 < h
    requires sy + h <= |phys| && dy + h <= |phys| && sx + w <= cols && dx + w <= cols
    requires !Crosses(sy, h, |phys| - ys) && !Crosses(dy, h, |phys| - ys)
    ensures Rect(Unwrapped(phys, ys), cols)
    ensures 0 <= RealY(|phys|, ys, sy) && RealY(|phys|, ys, sy) + h <= |phys|
    ensures 0 <= RealY(|phys|, ys, dy) && RealY(|phys|, ys, dy) + h <= |phys|
    ensures Unwrapped(Blit(phys, cols, RealY(|phys|, ys, sy), sx, RealY(|phys|, ys, dy), dx, h, w), ys)
         == Blit(Unwrapped(phys, ys), cols, sy, sx, dy, dx, h, w)
  {
    UnwrappedRect(phys, ys, cols);
    StraightRange(|phys|, ys, sy, h);
    StraightRange(|phys|, ys, dy, h);
    var p' := Blit(phys, cols, RealY(|phys|, ys, sy), sx, RealY(|phys|, ys, dy), dx, h, w);
    var u' := Blit(Unwrapped(phys, ys), cols, sy, sx, dy, dx, h, w);
    forall i | 0 <= i < |phys| ensures Unwrapped(p', ys)[i] == u'[i] {
      StraightBlitRow(phys, cols, ys, sy, sx, dy, dx, h, w, i);
      UnwrappedAt(p', ys, i);
    }
  }

  /** The same for wiping. */
  lemma StraightWipe(phys: Rows, cols: nat, ys: nat, sy: nat, sx: nat, h: nat, w: nat, blank: Cell)
    requires ys < |phys| && Rect(phys, cols) && 0 < h
    requires sy + h <= |phys| && sx + w <= cols && !Crosses(sy, h, |phys| - ys)
    ensures Rect(Unwrapped(phys, ys), cols)
    ensures 0 <= RealY(|phys|, ys, sy) && RealY(|phys|, ys, sy) + h <= |phys|
    ensures Unwrapped(Wipe(phys, cols, RealY(|phys|, ys, sy), sx, h, w, blank), ys)
         == Wipe(Unwrapped(phys, ys), cols, sy, sx, h, w, blank)
  {
    UnwrappedRect(phys, ys, cols);
    var n := |phys|;
    var p' := Wipe(phys, cols, RealY(n, ys, sy), sx, h, w, blank);
    var u := Unwrapped(phys, ys);
    forall i | 0 <= i < n ensures Unwrapped(p', ys)[i] == Wipe(u, cols, sy, sx, h, w, blank)[i] {
      UnwrappedAt(p', ys, i);
      UnwrappedAt(phys, ys, i);
    }
  }

  lemma CutBlitUpRow(g: Rows, cols: nat, sy: nat, sx: nat, dy: nat, dx: nat, h: nat, w: nat, b: nat, i: nat)
    requires Rect(g, cols) && b <= h && dy < sy && i < |g|
    requires sy + h <= |g| && dy + h <= |g| && sx + w <= cols && dx + w <= cols
    ensures Blit(Blit(g, cols, sy, sx, dy, dx, b, w), cols, sy + b, sx, dy + b, dx, h - b, w)[i]
         == Blit(g, cols, sy, sx, dy, dx, h, w)[i]
  {
    hide Blit, Mix;
    var m := Blit(g, cols, sy, sx, dy, dx, b, w);
    if dy <= i < dy + b {
      BlitTarget(g, cols, sy, sx, dy, dx, b, w, i - dy);
      BlitElsewhere(m, cols, sy + b, sx, dy + b, dx, h - b, w, i);
      BlitTarget(g, cols, sy, sx, dy, dx, h, w, i - dy);
    } else if dy + b <= i < dy + h {
      BlitElsewhere(g, cols, sy, sx, dy, dx, b, w, i);
      BlitElsewhere(g, cols, sy, sx, dy, dx, b, w, sy + (i - dy));
      BlitTarget(m, cols, sy + b, sx, dy + b, dx, h - b, w, i - dy - b);
      BlitTarget(g, cols, sy, sx, dy, dx, h, w, i - dy);
    } else {
      BlitElsewhere(g, cols, sy, sx, dy, dx, b, w, i);
      BlitElsewhere(m, cols, sy + b, sx, dy + b, dx, h - b, w, i);
      BlitElsewhere(g, cols, sy, sx, dy, dx, h, w, i);
    }
  }

  lemma CutWipe(g: Rows, cols: nat, sy: nat, sx: nat, h: nat, w: nat, b: nat, blank: Cell)
    requires Rect(g, cols) && b <= h && sy + h <= |g| && sx + w <= cols
    ensures Wipe(Wipe(g, cols, sy, sx, b, w, blank), cols, sy + b, sx, h - b, w, blank)
         == Wipe(g, cols, sy, sx, h, w, blank)
  {
  }

  /** Writing a physical row writes the display row it shows. */
  lemma UnwrappedUpdate(phys: Rows, ys: nat, y: nat, row: Row)
    requires ys < |phys| && y < |phys|
    ensures 0 <= RealY(|phys|, ys, y) < |phys|
    ensures Unwrapped(phys[RealY(|phys|, ys, y) := row], ys) == Unwrapped(phys, ys)[y := row]
  {
  }

  /** Cutting a move after its first b rows keeps its meaning when the first piece done
      overwrites no row that the second one reads: upwards the top piece goes first. */
  lemma CutBlitUp(g: Rows, cols: nat, sy: nat, sx: nat, dy: nat, dx: nat, h: nat, w: nat, b: nat)
    requires Rect(g, cols) && b <= h && dy < sy
    requires sy + h <= |g| && dy + h <= |g| && sx + w <= cols && dx + w <= cols
    ensures Blit(Blit(g, cols, sy, sx, dy, dx, b, w), cols, sy + b, sx, dy + b, dx, h - b, w)
         == Blit(g, cols, sy, sx, dy, dx, h, w)
  {
    forall i | 0 <= i < |g|
      ensures Blit(Blit(g, cols, sy, sx, dy, dx, b, w), cols, sy + b, sx, dy + b, dx, h - b, w)[i]
           == Blit(g, cols, sy, sx, dy, dx, h, w)[i]
    {
      CutBlitUpRow(g, cols, sy, sx, dy, dx, h, w, b, i);
    }
  }

  lemma CutBlitDownRow(g: Rows, cols: nat, sy: nat, sx: nat, dy: nat, dx: nat, h: nat, w: nat, b: nat, i: nat)
    requires Rect(g, cols) && b <= h && sy <= dy && i < |g|
    requires sy + h <= |g| && dy + h <= |g| && sx + w <= cols && dx + w <= cols
    ensures Blit(Blit(g, cols, sy + b, sx, dy + b, dx, h - b, w), cols, sy, sx, dy, dx, b, w)[i]
         == Blit(g, cols, sy, sx, dy, dx, h, w)[i]
  {
    hide Blit, Mix;
    var m := Blit(g, cols, sy + b, sx, dy + b, dx, h - b, w);
    if dy <= i < dy + b {
      BlitElsewhere(g, cols, sy + b, sx, dy + b, dx, h - b, w, i);
      BlitElsewhere(g, cols, sy + b, sx, dy + b, dx, h - b, w, sy + (i - dy));
      BlitTarget(m, cols, sy, sx, dy, dx, b, w, i - dy);
      BlitTarget(g, cols, sy, sx, dy, dx, h, w, i - dy);
    } else if dy + b <= i < dy + h {
      BlitTarget(g, cols, sy + b, sx, dy + b, dx, h - b, w, i - dy - b);
      BlitElsewhere(m, cols, sy, sx, dy, dx, b, w, i);
      BlitTarget(g, cols, sy, sx, dy, dx, h, w, i - dy);
    } else {
      BlitElsewhere(g, cols, sy + b, sx, dy + b, dx, h - b, w, i);
      BlitElsewhere(m, cols, sy, sx, dy, dx, b, w, i);
      BlitElsewhere(g, cols, sy, sx, dy, dx, h, w, i);
    }
  }

  /** Downwards the bottom piece goes first. */
  lemma CutBlitDown(g: Rows, cols: nat, sy: nat, sx: nat, dy: nat, dx: nat, h: nat, w: nat, b: nat)
    requires Rect(g, cols) && b <= h && sy <= dy
    requires sy + h <= |g| && dy + h <= |g| && sx + w <= cols && dx + w <= cols
    ensures Blit(Blit(g, cols, sy + b, sx, dy + b, dx, h - b, w), cols, sy, sx, dy, dx, b, w)
         == Blit(g, cols, sy, sx, dy, dx, h, w)
  {
    forall i | 0 <= i < |g|
      ensures Blit(Blit(g, cols, sy + b, sx, dy + b, dx, h - b, w), cols, sy, sx, dy, dx, b, w)[i]
           == Blit(g, cols, sy, sx, dy, dx, h, w)[i]
    {
      CutBlitDownRow(g, cols, sy, sx, dy, dx, h, w, b, i);
    }
  }

  /** Each cut removes one crossing, so the pieces need no more moves than the whole. */
  lemma CutCounts(sy: nat, dy: nat, h: nat, yBreak: nat, b: nat)
    requires 0 < b < h
    requires b == yBreak - sy || (!Crosses(sy, h, yBreak) && b == yBreak - dy)
    ensures 2 + Ord(Crosses(sy, b, yBreak)) + Ord(Crosses(dy, b, yBreak))
              + Ord(Crosses(sy + b, h - b, yBreak)) + Ord(Crosses(dy + b, h - b, yBreak))
            <= 1 + Ord(Crosses(sy, h, yBreak)) + Ord(Crosses(dy, h, yBreak))
  {
  }

  /** An empty rectangle moves or wipes nothing. */
  lemma EmptyRectangle(g: Rows, cols: nat, sy: nat, sx: nat, dy: nat, dx: nat, h: nat, w: nat, blank: Cell)
    requires Rect(g, cols) && (h == 0 || w == 0)
    requires sy + h <= |g| && dy + h <= |g| && sx + w <= cols && dx + w <= cols
    ensures Blit(g, cols, sy, sx, dy, dx, h, w) == g
    ensures Wipe(g, cols, sy, sx, h, w, blank) == g
  {
    forall i | 0 <= i < |g| ensures Blit(g, cols, sy, sx, dy, dx, h, w)[i] == g[i] {
    }
    forall i | 0 <= i < |g| ensures Wipe(g, cols, sy, sx, h, w, blank)[i] == g[i] {
    }
  }

  // --- Moving the window -----------------------------------------------------------------

  /** The first rows of the framebuffer, seen from two scroll positions n rows apart on the ring. */
  lemma WindowSlides(phys: Rows, rows: nat, ys: nat, ys': nat, n: nat)
    requires ys < |phys| && ys' < |phys| && n <= rows <= |phys|
    requires ys' == ys + n || ys' == ys + n - |phys|
    ensures Unwrapped(phys, ys')[..rows][..rows - n] == Unwrapped(phys, ys)[..rows][n..]
  {
    var after, before := Unwrapped(phys, ys'), Unwrapped(phys, ys);
    forall i | 0 <= i < rows - n ensures after[i] == before[i + n] {
      UnwrappedAt(phys, ys', i);
      UnwrappedAt(phys, ys, i + n);
    }
  }

  /** One framebuffer seen from two scroll positions. */
  lemma WindowJumps(phys: Rows, ys: nat, ys': nat, i: nat)
    requires ys < |phys| && ys' < |phys| && i + ys' < |phys|
    ensures Unwrapped(phys, ys')[i] ==
            Unwrapped(phys, ys)[if i + ys' >= ys then i + ys' - ys else |phys| + i + ys' - ys]
  {
    UnwrappedAt(phys, ys', i);
    UnwrappedAt(phys, ys, if i + ys' >= ys then i + ys' - ys else |phys| + i + ys' - ys);
  }

  /** Panning past the end: the last window position is copied to the top and the window follows. */
  lemma PanUpWindow(phys: Rows, rows: nat, ys: nat, n: nat)
    requires n <= rows <= |phys|
    requires ys <= |phys| - rows < ys + n <= 2 * (|phys| - rows) && ys < |phys|
    ensures var gap := |phys| - rows;
            Unwrapped(MoveRows(phys, gap, 0, rows), ys + n - gap)[..rows][..rows - n]
              == Unwrapped(phys, ys)[..rows][n..]
  {
    var gap := |phys| - rows;
    var moved := MoveRows(phys, gap, 0, rows);
    var after, before := Unwrapped(moved, ys + n - gap), Unwrapped(phys, ys);
    forall i | 0 <= i < rows - n ensures after[i] == before[i + n] {
      UnwrappedAt(moved, ys + n - gap, i);
      UnwrappedAt(phys, ys, i + n);
    }
  }

  /** Panning before the start: the first window position is copied to the bottom. */
  lemma PanDownWindow(phys: Rows, rows: nat, ys: nat, n: nat)
    requires n <= rows <= |phys|
    requires ys <= |phys| - rows && ys < n && n - ys <= |phys| - rows && ys < |phys|
    ensures var gap := |phys| - rows;
            Unwrapped(MoveRows(phys, 0, gap, rows), ys + gap - n)[..rows][n..]
              == Unwrapped(phys, ys)[..rows][..rows - n]
  {
    var gap := |phys| - rows;
    var moved := MoveRows(phys, 0, gap, rows);
    var after, before := Unwrapped(moved, ys + gap - n), Unwrapped(phys, ys);
    forall i | 0 <= i < rows - n ensures after[i + n] == before[i] {
      UnwrappedAt(moved, ys + gap - n, i + n);
      UnwrappedAt(phys, ys, i);
    }
  }
}
