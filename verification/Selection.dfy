/** `fbcon_invert_region`: highlighting cells of a view that may start in the ring and end in
    the live screen. */
module Selection {
  import opened Grid
  import opened RowArithmetic
  import opened Scrollback
  import opened ConsoleModel

  // --- One cell --------------------------------------------------------------------------

  function Swap512(a: Cell): Cell { (a & 0x11ff) | ((a & 0xe000) >> 4) | ((a & 0x0e00) << 4) }

  function Swap256(a: Cell): Cell { (a & 0x88ff) | ((a & 0x7000) >> 4) | ((a & 0x0700) << 4) }

  /** Swaps foreground and background colours; a monochrome cell has one reverse bit. */
  function Inverted(color: bool, hiFont: bool, a: Cell): Cell {
    if !color then a ^ 0x0800 else if hiFont then Swap512(a) else Swap256(a)
  }

  lemma Swap512Twice(a: Cell)
    ensures Swap512(Swap512(a)) == a
  {
  }

  lemma Swap256Twice(a: Cell)
    ensures Swap256(Swap256(a)) == a
  {
  }

  lemma ReverseTwice(a: Cell)
    ensures (a ^ 0x0800) ^ 0x0800 == a
  {
  }

  lemma InvertedTwice(color: bool, hiFont: bool, a: Cell)
    ensures Inverted(color, hiFont, Inverted(color, hiFont, a)) == a
  {
    hide Swap512, Swap256;
    ReverseTwice(a);
    Swap512Twice(a);
    Swap256Twice(a);
  }

  lemma Swapped256(glyph: Cell, fg: Cell, bg: Cell)
    requires glyph < 0x100 && fg < 0x10 && bg < 0x10
    ensures Swap256(glyph | (fg << 8) | (bg << 12)) ==
            glyph | (((bg & 7) | (fg & 8)) << 8) | (((fg & 7) | (bg & 8)) << 12)
  {
  }

  lemma Swapped512(glyph: Cell, fg: Cell, bg: Cell)
    requires glyph < 0x200 && fg < 0x10 && bg < 0x8
    ensures Swap512(glyph | (fg << 9) | (bg << 13)) == glyph | ((bg | (fg & 8)) << 9) | ((fg & 7) << 13)
  {
  }

  /** In colour the glyph stays, foreground and background exchange their hues, brightness and blinking stay where they
      are. A monochrome cell has its reverse bit flipped and nothing else. */
  lemma InvertedColours(hiFont: bool, c: Cell, glyph: Cell, fg: Cell, bg: Cell)
    requires if hiFont then glyph < 0x200 && fg < 0x10 && bg < 0x8 && c == glyph | (fg << 9) | (bg << 13)
             else glyph < 0x100 && fg < 0x10 && bg < 0x10 && c == glyph | (fg << 8) | (bg << 12)
    ensures Inverted(true, hiFont, c) ==
            if hiFont then glyph | ((bg | (fg & 8)) << 9) | ((fg & 7) << 13)
            else glyph | (((bg & 7) | (fg & 8)) << 8) | (((fg & 7) | (bg & 8)) << 12)
    ensures Inverted(false, hiFont, c) & 0xf7ff == c & 0xf7ff && Inverted(false, hiFont, c) & 0x0800 != c & 0x0800
  {
    hide Swap256, Swap512;
    if hiFont {
      Swapped512(glyph, fg, bg);
    } else {
      Swapped256(glyph, fg, bg);
    }
    Reversed(c);
  }

  lemma Reversed(c: Cell)
    ensures (c ^ 0x0800) & 0xf7ff == c & 0xf7ff && (c ^ 0x0800) & 0x0800 != c & 0x0800
  {
  }

  // --- A run of cells of a page, in reading order ------------------------------------------

  function Index(cols: nat, k: nat, x: nat): nat { k * cols + x }

  /** The page with n cells inverted from cell x of row k on. */
  function InvertedRun(page: Rows, cols: nat, color: bool, hiFont: bool, k: nat, x: nat, n: nat): (r: Rows)
    requires Rect(page, cols) && x < cols && Index(cols, k, x) + n <= |page| * cols
    ensures |r| == |page| && Rect(r, cols)
    decreases n
  {
    if n == 0 then page
    else
      RowInside(cols, k, x, n, |page|);
      var page' := page[k := page[k][x := Inverted(color, hiFont, page[k][x])]];
      if x + 1 == cols then InvertedRun(page', cols, color, hiFont, k + 1, 0, n - 1)
      else InvertedRun(page', cols, color, hiFont, k, x + 1, n - 1)
  }

  lemma RowInside(cols: nat, k: nat, x: nat, n: nat, rows: nat)
    requires x < cols && Index(cols, k, x) + n <= rows * cols && 0 < n
    ensures k < rows
    ensures x + 1 == cols ==> Index(cols, k + 1, 0) == Index(cols, k, x) + 1
  {
    if rows <= k {
      MulMono(rows, k, cols);
    }
    RowOrder(k, k + 1, cols, 0);
  }

  /** Exactly the cells between the two ends are inverted. */
  lemma {:induction false} InvertedRunAt(page: Rows, cols: nat, color: bool, hiFont: bool,
                                         k: nat, x: nat, n: nat, i: nat, j: nat)
    requires Rect(page, cols) && x < cols && Index(cols, k, x) + n <= |page| * cols
    requires i < |page| && j < cols
    ensures InvertedRun(page, cols, color, hiFont, k, x, n)[i][j]
         == if Index(cols, k, x) <= Index(cols, i, j) < Index(cols, k, x) + n
            then Inverted(color, hiFont, page[i][j]) else page[i][j]
    decreases n
  {
    hide Inverted;
    if n > 0 {
      RowInside(cols, k, x, n, |page|);
      var page' := page[k := page[k][x := Inverted(color, hiFont, page[k][x])]];
      SameIndex(cols, k, x, i, j);
      if x + 1 == cols {
        InvertedRunAt(page', cols, color, hiFont, k + 1, 0, n - 1, i, j);
      } else {
        InvertedRunAt(page', cols, color, hiFont, k, x + 1, n - 1, i, j);
      }
    }
  }

  lemma SameIndex(cols: nat, k: nat, x: nat, i: nat, j: nat)
    requires x < cols && j < cols
    ensures Index(cols, k, x) == Index(cols, i, j) <==> k == i && x == j
  {
    RowOrder(k, i, cols, x);
    RowOrder(i, k, cols, j);
  }

  /** Highlighting the same run again takes the highlight away. */
  lemma InvertedRunTwice(page: Rows, cols: nat, color: bool, hiFont: bool, k: nat, x: nat, n: nat)
    requires Rect(page, cols) && x < cols && Index(cols, k, x) + n <= |page| * cols
    ensures InvertedRun(InvertedRun(page, cols, color, hiFont, k, x, n), cols, color, hiFont, k, x, n) == page
  {
    hide Inverted, InvertedRun;
    var once := InvertedRun(page, cols, color, hiFont, k, x, n);
    var twice := InvertedRun(once, cols, color, hiFont, k, x, n);
    forall i | 0 <= i < |page| ensures twice[i] == page[i] {
      forall j | 0 <= j < cols ensures twice[i][j] == page[i][j] {
        InvertedRunAt(page, cols, color, hiFont, k, x, n, i, j);
        InvertedRunAt(once, cols, color, hiFont, k, x, n, i, j);
        InvertedTwice(color, hiFont, page[i][j]);
      }
    }
  }

  // --- The walk over ring and screen ----------------------------------------------------------

  method InvertCell(c: Console, p: Line, x: nat, color: bool, hiFont: bool, ghost k: nat)
    requires c.Shape() && x < c.disp.cols && k < |c.Page()|
    requires p == LineOf(c.ring.Length, c.softTop, c.softIn, k)
    modifies c.ring, c.text
    ensures c.Shape()
    ensures var page := old(c.Page());
            c.Page() == page[k := page[k][x := Inverted(color, hiFont, page[k][x])]]
    ensures forall i :: 0 <= i < c.ring.Length && !Kept(c.ring.Length, c.softTop, c.softIn, i) ==>
              c.ring[i] == old(c.ring[i])
  {
    hide Inverted, Slice, Kept;
    ghost var ring, text, h := c.ring[..], c.text[..], c.History();
    LineOfPage(ring, text, c.softTop, c.softIn, k);
    match p {
      case OnRing(i) =>
        c.ring[i] := c.ring[i][x := Inverted(color, hiFont, c.ring[i][x])];
        SliceUpdate(ring, c.softTop, c.softIn, k, c.ring[i]);
        assert c.ring[..] == ring[i := c.ring[i]];
      case OnText(r) =>
        c.text[r] := c.text[r][x := Inverted(color, hiFont, c.text[r][x])];
        assert c.text[..] == text[r := c.text[r]];
    }
  }

  /** `fbcon_invert_region` from cell x of page row k on: exactly the next cnt cells in reading
      order change, history first and then the live screen; the rest of the ring does not. */
  method InvertRegion(c: Console, from: Line, x0: nat, cnt: nat, color: bool, hiFont: bool, ghost k0: nat)
    requires c.Shape() && x0 < c.disp.cols
    requires from == LineOf(c.ring.Length, c.softTop, c.softIn, k0)
    requires Index(c.disp.cols, k0, x0) + cnt <= |c.Page()| * c.disp.cols
    modifies c.ring, c.text
    ensures c.Shape()
    ensures c.Page() == InvertedRun(old(c.Page()), c.disp.cols, color, hiFont, k0, x0, cnt)
    ensures forall i :: 0 <= i < c.ring.Length && !Kept(c.ring.Length, c.softTop, c.softIn, i) ==>
              c.ring[i] == old(c.ring[i])
  {
    hide Inverted, Kept, Slice, LineOf, NextLine, Index;
    ghost var page, cols, k := c.Page(), c.disp.cols, k0;
    var p, x, n := from, x0, cnt;
    while n > 0
      invariant 0 <= n <= cnt && x < cols
      invariant c.Shape() && |c.Page()| == |page|
      invariant p == LineOf(c.ring.Length, c.softTop, c.softIn, k)
      invariant Index(cols, k, x) + n <= |page| * cols
      invariant InvertedRun(c.Page(), cols, color, hiFont, k, x, n)
             == InvertedRun(page, cols, color, hiFont, k0, x0, cnt)
      invariant forall i :: 0 <= i < c.ring.Length && !Kept(c.ring.Length, c.softTop, c.softIn, i) ==>
                  c.ring[i] == old(c.ring[i])
    {
      RowInside(cols, k, x, n, |page|);
      InvertCell(c, p, x, color, hiFont, k);
      NextIndex(cols, k, x);
      x := x + 1;
      if x == c.disp.cols {
        NextLineOf(c.ring.Length, c.softTop, c.softIn, k);
        p, x, k := NextLine(c.ring.Length, c.softIn, p), 0, k + 1;
      }
      n := n - 1;
    }
  }

  lemma NextIndex(cols: nat, k: nat, x: nat)
    ensures Index(cols, k, x + 1) == Index(cols, k, x) + 1
  {
  }

  /** Highlighting a selection twice leaves all memory as it was. */
  method InvertRegionTwice(c: Console, from: Line, x0: nat, cnt: nat, color: bool, hiFont: bool, ghost k0: nat)
    requires c.Shape() && x0 < c.disp.cols
    requires from == LineOf(c.ring.Length, c.softTop, c.softIn, k0)
    requires Index(c.disp.cols, k0, x0) + cnt <= |c.Page()| * c.disp.cols
    modifies c.ring, c.text
    ensures c.ring[..] == old(c.ring[..]) && c.text[..] == old(c.text[..])
  {
    hide Kept, Slice, InvertedRun, Index;
    ghost var page, ring := c.Page(), c.ring[..];
    InvertRegion(c, from, x0, cnt, color, hiFont, k0);
    InvertRegion(c, from, x0, cnt, color, hiFont, k0);
    InvertedRunTwice(page, c.disp.cols, color, hiFont, k0, x0, cnt);
    ghost var n := |c.History()|;
    assert c.History() == page[..n] && c.text[..] == page[n..];
    SameRing(c.ring[..], ring, c.softTop, c.softIn);
  }
}
