/** The four drawing back ends, upright and turned by 90, 180 and 270 degrees, down to the pixel. What each
    draws is described on the picture as the user sees it: column and row of a dot, whatever the rotation. */
module Blitters {
  import opened RowArithmetic

  datatype Rotation = UR | CW | UD | CCW

  datatype Area = Area(dx: int, dy: int, width: int, height: int)

  datatype Color = Palette(index: bv16)
  type Char = bv16

  class Blitter {
    const fw: nat                             // vc_font.width
    const fh: nat                             // vc_font.height
    const vx: nat                             // GETVXRES
    const vy: nat                             // GETVYRES
    const xres: nat                           // info->var.xres, the part of it that is visible
    const yres: nat                           // info->var.yres
    const maxCnt: nat                         // pixmap.size / cellsize
    const scanAlign: nat                      // pixmap.scan_align
    const hiFont: bool                        // vc_hi_font_mask
    const font: (Char, int, int) -> bool      // upright: glyph, column, row
    const screen: array2<Color>

    /** A panel of one colour. */
    constructor (fw: nat, fh: nat, vx: nat, vy: nat, xres: nat, yres: nat, maxCnt: nat, scanAlign: nat, hiFont: bool,
                 font: (Char, int, int) -> bool, color: Color)
      requires 0 < fw && 0 < fh && 0 < maxCnt && 0 < scanAlign && xres <= vx && yres <= vy
      ensures Valid() && fresh(screen)
      ensures this.fw == fw && this.fh == fh && this.vx == vx && this.vy == vy && this.xres == xres
      ensures this.yres == yres && this.maxCnt == maxCnt && this.scanAlign == scanAlign
      ensures this.hiFont == hiFont && this.font == font
      ensures forall rot, lx, ly :: InView(rot, lx, ly) ==> Seen(rot, lx, ly) == color
    {
      this.fw, this.fh, this.vx, this.vy, this.xres, this.yres := fw, fh, vx, vy, xres, yres;
      this.maxCnt, this.scanAlign, this.hiFont, this.font := maxCnt, scanAlign, hiFont, font;
      screen := new Color[vx, vy]((_, _) => color);
    }

    ghost predicate Valid() {
      && 0 < fw && 0 < fh && 0 < maxCnt && 0 < scanAlign
      && xres <= vx && yres <= vy
      && screen.Length0 == vx && screen.Length1 == vy
    }

    /** The glyph a character selects: the bits under charmask. */
    function Glyph(ch: Char, x: int, y: int): bool { font(ch & if hiFont then 0x01ff else 0x00ff, x, y) }

    /** A character without a dot, as an erase character is. */
    ghost predicate NoInk(ch: Char) { forall x, y :: !Glyph(ch, x, y) }

    /** Where the dot the user sees at (lx, ly) is on the panel. */
    function PX(rot: Rotation, lx: int, ly: int): int {
      match rot case UR => lx case CW => vx - 1 - ly case UD => vx - 1 - lx case CCW => ly
    }

    function PY(rot: Rotation, lx: int, ly: int): int {
      match rot case UR => ly case CW => lx case UD => vy - 1 - ly case CCW => vy - 1 - lx
    }

    function ViewWidth(rot: Rotation): nat { if rot == UR || rot == UD then vx else vy }

    function ViewHeight(rot: Rotation): nat { if rot == UR || rot == UD then vy else vx }

    predicate InView(rot: Rotation, lx: int, ly: int) {
      0 <= lx < ViewWidth(rot) && 0 <= ly < ViewHeight(rot)
    }

    function Seen(rot: Rotation, lx: int, ly: int): Color
      requires Valid() && InView(rot, lx, ly)
      reads screen
    {
      screen[PX(rot, lx, ly), PY(rot, lx, ly)]
    }

    /** The dot belongs to one of the character cells in rows y..y+h, columns x..x+w. */
    predicate InCells(lx: int, ly: int, y: int, x: int, h: int, w: int) {
      y * fh <= ly < (y + h) * fh && x * fw <= lx < (x + w) * fw
    }

    /** The same place in a cell n columns or rows on. */
    function Over(lx: int, n: int): int { lx + n * fw }

    function Below(ly: int, n: int): int { ly + n * fh }

    predicate Fits(rot: Rotation, y: int, x: int, h: int, w: int) {
      && 0 <= y && 0 <= x && 0 <= h && 0 <= w
      && (y + h) * fh <= ViewHeight(rot) && (x + w) * fw <= ViewWidth(rot)
    }

    /** The panel rectangle that `clear`, both ends of `bmove` and the cursor compute for a block of cells. */
    function Block(rot: Rotation, y: int, x: int, h: int, w: int): Area {
      match rot
      case UR => Area(x * fw, y * fh, w * fw, h * fh)
      case CW => Area(vx - (y + h) * fh, x * fw, h * fh, w * fw)
      case UD => Area(vx - (x + w) * fw, vy - (y + h) * fh, w * fw, h * fh)
      case CCW => Area(y * fh, vy - (x + w) * fw, h * fh, w * fw)
    }

    predicate InArea(a: Area, px: int, py: int) {
      a.dx <= px < a.dx + a.width && a.dy <= py < a.dy + a.height
    }

    predicate OnPanel(a: Area) {
      0 <= a.dx && 0 <= a.dy && 0 <= a.width && 0 <= a.height && a.dx + a.width <= vx && a.dy + a.height <= vy
    }

    lemma Spread(a: int, b: int, d: int)
      ensures (a + b) * d == a * d + b * d
    {
    }

    lemma NonNegative(a: int, d: nat)
      ensures 0 <= a ==> 0 <= a * d
    {
    }

    /** In every rotation that rectangle covers exactly the block's dots. */
    lemma BlockIsCells(rot: Rotation, y: int, x: int, h: int, w: int, lx: int, ly: int)
      requires Fits(rot, y, x, h, w) && InView(rot, lx, ly)
      ensures OnPanel(Block(rot, y, x, h, w))
      ensures InArea(Block(rot, y, x, h, w), PX(rot, lx, ly), PY(rot, lx, ly)) <==> InCells(lx, ly, y, x, h, w)
    {
      Spread(y, h, fh);
      Spread(x, w, fw);
      NonNegative(y, fh);
      NonNegative(h, fh);
      NonNegative(x, fw);
      NonNegative(w, fw);
    }

    /** No two dots of the picture share a panel pixel, and every panel pixel is a dot. */
    lemma ViewIsPanel(rot: Rotation, lx: int, ly: int, mx: int, my: int)
      ensures InView(rot, lx, ly) <==> 0 <= PX(rot, lx, ly) < vx && 0 <= PY(rot, lx, ly) < vy
      ensures PX(rot, lx, ly) == PX(rot, mx, my) && PY(rot, lx, ly) == PY(rot, mx, my) ==> lx == mx && ly == my
    {
    }

    /** Going right and down on the picture is going right and down on the upright panel, and each turn clockwise turns
        both on: down and left, left and up, up and right. */
    lemma Turned(rot: Rotation, lx: int, ly: int)
      ensures var right := (PX(rot, lx + 1, ly) - PX(rot, lx, ly), PY(rot, lx + 1, ly) - PY(rot, lx, ly));
              var down := (PX(rot, lx, ly + 1) - PX(rot, lx, ly), PY(rot, lx, ly + 1) - PY(rot, lx, ly));
              match rot
              case UR => right == (1, 0) && down == (0, 1)
              case CW => right == (0, 1) && down == (-1, 0)
              case UD => right == (-1, 0) && down == (0, -1)
              case CCW => right == (0, -1) && down == (1, 0)
    {
    }

    // ---- the frame buffer driver's operations, known by their contracts

    method FillRect(a: Area, color: Color)
      requires Valid() && OnPanel(a)
      modifies screen
      ensures forall px, py :: 0 <= px < vx && 0 <= py < vy ==>
                screen[px, py] == if InArea(a, px, py) then color else old(screen[px, py])
    {
      forall px, py | a.dx <= px < a.dx + a.width && a.dy <= py < a.dy + a.height {
        screen[px, py] := color;
      }
    }

    method CopyArea(a: Area, sx: int, sy: int)
      requires Valid() && OnPanel(a) && OnPanel(Area(sx, sy, a.width, a.height))
      modifies screen
      ensures forall px, py :: 0 <= px < vx && 0 <= py < vy ==>
                screen[px, py] ==
                if InArea(a, px, py) then old(screen[px - a.dx + sx, py - a.dy + sy]) else old(screen[px, py])
    {
      forall px, py | a.dx <= px < a.dx + a.width && a.dy <= py < a.dy + a.height {
        screen[px, py] := screen[px - a.dx + sx, py - a.dy + sy];
      }
    }

    method ImageBlit(img: array2<bool>, a: Area, fg: Color, bg: Color)
      requires Valid() && OnPanel(a) && a.width <= img.Length0 && a.height <= img.Length1
      modifies screen
      ensures forall px, py :: 0 <= px < vx && 0 <= py < vy ==>
                screen[px, py] ==
                if InArea(a, px, py) then if img[px - a.dx, py - a.dy] then fg else bg else old(screen[px, py])
    {
      forall px, py | a.dx <= px < a.dx + a.width && a.dy <= py < a.dy + a.height {
        screen[px, py] := if img[px - a.dx, py - a.dy] then fg else bg;
      }
    }

    // ---- clear, bmove and cursor

    method Clear(rot: Rotation, sy: int, sx: int, height: int, width: int, color: Color)
      requires Valid() && Fits(rot, sy, sx, height, width)
      modifies screen
      ensures forall lx, ly :: InView(rot, lx, ly) ==>
                Seen(rot, lx, ly) == if InCells(lx, ly, sy, sx, height, width) then color else old(Seen(rot, lx, ly))
    {
      hide InCells, InArea, OnPanel, Block, Fits;
      if vx == 0 || vy == 0 {
        return;
      }
      assert OnPanel(Block(rot, sy, sx, height, width)) by { BlockIsCells(rot, sy, sx, height, width, 0, 0); }
      FillRect(Block(rot, sy, sx, height, width), color);
      forall lx, ly | InView(rot, lx, ly)
        ensures Seen(rot, lx, ly) ==
                if InCells(lx, ly, sy, sx, height, width) then color else old(Seen(rot, lx, ly))
      {
        BlockIsCells(rot, sy, sx, height, width, lx, ly);
      }
    }

    /** The move on the picture is the move on the panel, also when source and target overlap. */
    method Bmove(rot: Rotation, sy: int, sx: int, dy: int, dx: int, height: int, width: int)
      requires Valid() && Fits(rot, sy, sx, height, width) && Fits(rot, dy, dx, height, width)
      modifies screen
      ensures forall lx, ly {:trigger Seen(rot, lx, ly)} ::
                InView(rot, lx, ly) && !InCells(lx, ly, dy, dx, height, width) ==>
                Seen(rot, lx, ly) == old(Seen(rot, lx, ly))
      ensures forall lx, ly {:trigger Seen(rot, lx, ly)} ::
                InView(rot, lx, ly) && InCells(lx, ly, dy, dx, height, width) ==>
                && InView(rot, Over(lx, sx - dx), Below(ly, sy - dy))
                && Seen(rot, lx, ly) == old(Seen(rot, Over(lx, sx - dx), Below(ly, sy - dy)))
    {
      hide InCells, InArea, OnPanel, Block, Fits;
      if vx == 0 || vy == 0 {
        assert forall lx, ly :: !InView(rot, lx, ly);
        return;
      }
      var from, to := Block(rot, sy, sx, height, width), Block(rot, dy, dx, height, width);
      assert OnPanel(from) && OnPanel(to) && from.width == to.width && from.height == to.height by {
        BlockIsCells(rot, sy, sx, height, width, 0, 0);
        BlockIsCells(rot, dy, dx, height, width, 0, 0);
        SameSize(rot, sy, sx, dy, dx, height, width);
      }
      CopyArea(to, from.dx, from.dy);
      forall lx, ly | InView(rot, lx, ly)
        ensures !InCells(lx, ly, dy, dx, height, width) ==> Seen(rot, lx, ly) == old(Seen(rot, lx, ly))
        ensures InCells(lx, ly, dy, dx, height, width) ==>
                  && InView(rot, Over(lx, sx - dx), Below(ly, sy - dy))
                  && Seen(rot, lx, ly) == old(Seen(rot, Over(lx, sx - dx), Below(ly, sy - dy)))
      {
        BlockIsCells(rot, dy, dx, height, width, lx, ly);
        if InCells(lx, ly, dy, dx, height, width) {
          SourceDot(rot, sy, sx, dy, dx, height, width, lx, ly);
        }
      }
    }

    lemma SameSize(rot: Rotation, sy: int, sx: int, dy: int, dx: int, h: int, w: int)
      ensures Block(rot, sy, sx, h, w).width == Block(rot, dy, dx, h, w).width
      ensures Block(rot, sy, sx, h, w).height == Block(rot, dy, dx, h, w).height
    {
    }

    /** The panel offset between two blocks is the picture's offset, turned. */
    lemma SourceDot(rot: Rotation, sy: int, sx: int, dy: int, dx: int, h: int, w: int, lx: int, ly: int)
      requires Fits(rot, sy, sx, h, w) && Fits(rot, dy, dx, h, w)
      requires InView(rot, lx, ly) && InCells(lx, ly, dy, dx, h, w)
      ensures var mx, my := Over(lx, sx - dx), Below(ly, sy - dy);
              var from, to := Block(rot, sy, sx, h, w), Block(rot, dy, dx, h, w);
              && InView(rot, mx, my) && InCells(mx, my, sy, sx, h, w)
              && PX(rot, mx, my) == PX(rot, lx, ly) - to.dx + from.dx
              && PY(rot, mx, my) == PY(rot, lx, ly) - to.dy + from.dy
    {
      Spread(sy, h, fh);
      Spread(dy, h, fh);
      Spread(sx, w, fw);
      Spread(dx, w, fw);
      Spread(sx, 0 - dx, fw);
      Spread(sy, 0 - dy, fh);
      NonNegative(sy, fh);
      NonNegative(sx, fw);
      assert (0 - dx) * fw == 0 - dx * fw && (0 - dy) * fh == 0 - dy * fh;
    }

    /** The cursor lies on the cell `clear` would clear. */
    lemma CursorOnCell(rot: Rotation, y: int, x: int)
      ensures Block(rot, y, x, 1, 1) ==
              match rot
              case UR => Area(fw * x, fh * y, fw, fh)
              case CW => Area(vx - (y * fh + fh), x * fw, fh, fw)
              case UD => Area(vx - (x * fw + fw), vy - (y * fh + fh), fw, fh)
              case CCW => Area(y * fh, vy - (x + 1) * fw, fh, fw)
    {
      Spread(y, 1, fh);
      Spread(x, 1, fw);
    }

    // ---- putcs

    /** Text runs against the panel's own axis and is drawn from its last character back. */
    predicate Backward(rot: Rotation) { rot == UD || rot == CCW }

    predicate Sideways(rot: Rotation) { rot == CW || rot == CCW }

    function Walk(rot: Rotation, p: int, k: int): int { if Backward(rot) then p - k else p + k }

    /** The character a dot `d` columns into a text belongs to, and its column there. */
    function Cell(d: int): (q: int)
      requires Valid()
      ensures 0 <= d ==> 0 <= q
    {
      d / fw
    }

    function InCell(d: int): int
      requires Valid()
    {
      d % fw
    }

    lemma CellSplit(q: nat, c: nat)
      requires Valid() && c < fw
      ensures Cell(q * fw + c) == q && InCell(q * fw + c) == c
    {
      DivRow(q, fw, c);
    }

    lemma CellJoin(d: nat, n: nat)
      requires Valid()
      ensures d == Cell(d) * fw + InCell(d) && 0 <= InCell(d) < fw
      ensures d < n * fw <==> Cell(d) < n
    {
      if Cell(d) >= n {
        MulMono(n, Cell(d), fw);
      } else {
        MulMono(Cell(d) + 1, n, fw);
      }
    }

    /** The font buffer keeps each glyph turned with the screen: column `c` along the text, `b` across it. */
    function Stored(rot: Rotation, ch: Char, c: int, b: int): bool {
      Glyph(ch, if Backward(rot) then fw - 1 - c else c, if rot == UD || rot == CW then fh - 1 - b else b)
    }

    /** Extent of a chunk's image along the text. */
    function Along(img: array2<bool>, rot: Rotation): nat { if Sideways(rot) then img.Length1 else img.Length0 }

    /** Bit of a chunk's image, by its place along and across the text. */
    function Bit(img: array2<bool>, rot: Rotation, a: int, b: int): bool
      requires 0 <= a < Along(img, rot)
      requires 0 <= b < (if Sideways(rot) then img.Length0 else img.Length1)
      reads img
    {
      if Sideways(rot) then img[b, a] else img[a, b]
    }

    /** Room for a chunk of `cnt` characters. */
    predicate Holds(img: array2<bool>, rot: Rotation, cnt: nat) {
      cnt * fw <= Along(img, rot) && fh <= if Sideways(rot) then img.Length0 else img.Length1
    }

    /** The first `k` characters from `p` on are in the image. */
    ghost predicate Packed(img: array2<bool>, rot: Rotation, s: seq<Char>, p: int, k: nat)
      requires Valid() && Holds(img, rot, 0)
      requires k > 0 ==> 0 <= p < |s| && 0 <= Walk(rot, p, k - 1) < |s|
      reads img
    {
      forall a, b :: 0 <= a < Along(img, rot) && 0 <= b < fh && Cell(a) < k ==>
        Bit(img, rot, a, b) == Stored(rot, s[Walk(rot, p, Cell(a))], InCell(a), b)
    }

    /** `fb_pad_aligned_buffer` and `fb_pad_unaligned_buffer` for one glyph: what was put before it stays, what
        follows it may change. Along the text, `pos` is a bit of each line or a line of the image. */
    method Pad(img: array2<bool>, rot: Rotation, pos: nat, ch: Char)
      requires Holds(img, rot, 0)
      requires pos + fw <= Along(img, rot)
      modifies img
      ensures forall a, b :: 0 <= a < pos && 0 <= b < fh ==> Bit(img, rot, a, b) == old(Bit(img, rot, a, b))
      ensures forall a, b :: pos <= a < pos + fw && 0 <= b < fh ==>
                Bit(img, rot, a, b) == Stored(rot, ch, a - pos, b)
    {
      if Sideways(rot) {
        forall a, b | pos <= a < pos + fw && 0 <= b < fh {
          img[b, a] := Stored(rot, ch, a - pos, b);
        }
      } else {
        forall a, b | pos <= a < pos + fw && 0 <= b < fh {
          img[a, b] := Stored(rot, ch, a - pos, b);
        }
      }
    }

    /** One more glyph behind the `k` packed ones. */
    method PackOne(img: array2<bool>, rot: Rotation, pos: nat, ch: Char,
                   ghost s: seq<Char>, ghost p: int, ghost k: nat, ghost cnt: nat)
      requires Valid() && Holds(img, rot, cnt) && k < cnt
      requires 0 <= p < |s| && 0 <= Walk(rot, p, cnt - 1) < |s|
      requires pos == k * fw && Packed(img, rot, s, p, k) && ch == s[Walk(rot, p, k)]
      modifies img
      ensures (k + 1) * fw == k * fw + fw && Packed(img, rot, s, p, k + 1)
    {
      hide Stored, Cell, InCell;
      MulMono(k + 1, cnt, fw);
      Spread(k, 1, fw);
      Pad(img, rot, pos, ch);
      forall a, b | 0 <= a < Along(img, rot) && 0 <= b < fh && Cell(a) < k + 1
        ensures Bit(img, rot, a, b) == Stored(rot, s[Walk(rot, p, Cell(a))], InCell(a), b)
      {
        CellJoin(a, k);
        CellJoin(a, k + 1);
        if Cell(a) < k {
          assert old(Bit(img, rot, a, b)) == Stored(rot, s[Walk(rot, p, Cell(a))], InCell(a), b);
        }
      }
    }

    /** The next glyph's place, as the unaligned packers step to it. */
    lemma NextPlace(dst: nat, shiftLow: nat)
      requires Valid() && shiftLow < 8
      ensures var mod, width := fw % 8, (fw + 7) / 8;
              var low := shiftLow + mod;
              && (mod == 0 ==> 8 * (dst + width) + shiftLow == 8 * dst + shiftLow + fw)
              && (mod != 0 ==> 8 * (dst + if low >= 8 then width else width - 1) + low % 8 == 8 * dst + shiftLow + fw)
    {
    }

    lemma PackedNone(img: array2<bool>, rot: Rotation, s: seq<Char>, p: int)
      requires Valid() && Holds(img, rot, 0)
      ensures Packed(img, rot, s, p, 0)
    {
    }

    /** The packers of `bit_putcs` and `ud_putcs`: 8 * dst + shift_low is always the next glyph's bit. */
    method PackRow(img: array2<bool>, rot: Rotation, s: seq<Char>, p: int, cnt: nat)
      requires Valid() && !Sideways(rot) && Holds(img, rot, cnt) && 0 < cnt
      requires 0 <= p < |s| && 0 <= Walk(rot, p, cnt - 1) < |s|
      modifies img
      ensures Packed(img, rot, s, p, cnt)
    {
      hide Stored, Bit, Cell, InCell, Packed;
      var mod, width := fw % 8, (fw + 7) / 8;
      var dst: nat, shiftLow: nat, q := 0, 0, p;
      PackedNone(img, rot, s, p);
      for k := 0 to cnt
        invariant shiftLow < 8 && 8 * dst + shiftLow == k * fw && q == Walk(rot, p, k)
        invariant Packed(img, rot, s, p, k)
      {
        PackOne(img, rot, 8 * dst + shiftLow, s[q], s, p, k, cnt);
        NextPlace(dst, shiftLow);
        q := if Backward(rot) then q - 1 else q + 1;
        if mod == 0 {
          dst := dst + width;
        } else {
          shiftLow := shiftLow + mod;
          dst := dst + if shiftLow >= 8 then width else width - 1;
          shiftLow := shiftLow % 8;
        }
      }
    }

    /** The packers of `cw_putcs` and `ccw_putcs`: a glyph takes `fw` lines. */
    method PackColumn(img: array2<bool>, rot: Rotation, s: seq<Char>, p: int, cnt: nat)
      requires Valid() && Sideways(rot) && Holds(img, rot, cnt) && 0 < cnt
      requires 0 <= p < |s| && 0 <= Walk(rot, p, cnt - 1) < |s|
      modifies img
      ensures Packed(img, rot, s, p, cnt)
    {
      hide Stored, Bit, Cell, InCell, Packed;
      var line: nat, q := 0, p;
      PackedNone(img, rot, s, p);
      for k := 0 to cnt
        invariant line == k * fw && q == Walk(rot, p, k)
        invariant Packed(img, rot, s, p, k)
      {
        PackOne(img, rot, line, s[q], s, p, k, cnt);
        q := if Backward(rot) then q - 1 else q + 1;
        line := line + fw;
      }
    }

    function RoundUp(n: nat, align: nat): (r: nat)
      requires 0 < align
      ensures n <= r
    {
      (n + align - 1) / align * align
    }

    /** Place of a panel pixel along and across a chunk drawn at `a`. */
    function AlongOf(rot: Rotation, a: Area, px: int, py: int): int { if Sideways(rot) then py - a.dy else px - a.dx }

    function AcrossOf(rot: Rotation, a: Area, px: int, py: int): int { if Sideways(rot) then px - a.dx else py - a.dy }

    function ImageArea(rot: Rotation, dx: int, dy: int, cnt: nat): Area {
      if Sideways(rot) then Area(dx, dy, fh, cnt * fw) else Area(dx, dy, cnt * fw, fh)
    }

    /** One chunk: packed into a buffer of its own and blitted at (dx, dy). */
    method PutChunk(rot: Rotation, s: seq<Char>, p: int, cnt: nat, dx: int, dy: int, fg: Color, bg: Color)
      requires Valid() && 0 < cnt && 0 <= p < |s| && 0 <= Walk(rot, p, cnt - 1) < |s|
      requires OnPanel(ImageArea(rot, dx, dy, cnt))
      modifies screen
      ensures var a := ImageArea(rot, dx, dy, cnt);
              forall px, py :: 0 <= px < vx && 0 <= py < vy ==>
                if InArea(a, px, py) && Cell(AlongOf(rot, a, px, py)) < cnt then
                  screen[px, py] == if Stored(rot, s[Walk(rot, p, Cell(AlongOf(rot, a, px, py)))],
                                              InCell(AlongOf(rot, a, px, py)), AcrossOf(rot, a, px, py)) then fg else bg
                else InArea(a, px, py) || screen[px, py] == old(screen[px, py])
    {
      hide Stored, Cell, InCell, OnPanel;
      var a := ImageArea(rot, dx, dy, cnt);
      NonNegative(cnt, fw);
      var img;
      if Sideways(rot) {
        img := new bool[8 * RoundUp((fh + 7) / 8, scanAlign), cnt * fw];
        PackColumn(img, rot, s, p, cnt);
      } else {
        img := new bool[8 * RoundUp((cnt * fw + 7) / 8, scanAlign), fh];
        PackRow(img, rot, s, p, cnt);
      }
      label packed:
      ImageBlit(img, a, fg, bg);
      forall px, py | 0 <= px < vx && 0 <= py < vy && InArea(a, px, py) && Cell(AlongOf(rot, a, px, py)) < cnt
        ensures screen[px, py] == if Stored(rot, s[Walk(rot, p, Cell(AlongOf(rot, a, px, py)))],
                                            InCell(AlongOf(rot, a, px, py)), AcrossOf(rot, a, px, py)) then fg else bg
      {
        assert old@packed(Bit(img, rot, AlongOf(rot, a, px, py), AcrossOf(rot, a, px, py))) ==
               img[px - a.dx, py - a.dy];
      }
    }

    /** Columns of the part already drawn, of the next chunk and of all that is left. */
    function DrawnFrom(rot: Rotation, xx: int, total: nat, n: nat): int { if Backward(rot) then xx + total - n else xx }

    function LeftFrom(rot: Rotation, xx: int, n: nat): int { if Backward(rot) then xx else xx + n }

    function ChunkFrom(rot: Rotation, xx: int, total: nat, n: nat, cnt: nat): int {
      if Backward(rot) then xx + total - n - cnt else xx + n
    }

    /** A chunk's image falls on the cells of its characters, where what is left began. */
    lemma ChunkIsBlock(rot: Rotation, yy: int, xx: int, total: nat, n: nat, cnt: nat)
      requires n + cnt <= total
      ensures var left := Block(rot, yy, LeftFrom(rot, xx, n), 1, total - n);
              var rest := Block(rot, yy, LeftFrom(rot, xx, n + cnt), 1, total - n - cnt);
              && Block(rot, yy, ChunkFrom(rot, xx, total, n, cnt), 1, cnt) == ImageArea(rot, left.dx, left.dy, cnt)
              && rest.dx == left.dx + (if Sideways(rot) then 0 else cnt * fw)
              && rest.dy == left.dy + (if Sideways(rot) then cnt * fw else 0)
    {
      Spread(xx + n, cnt, fw);
      Spread(xx + total - n - cnt, cnt, fw);
      Spread(yy, 1, fh);
    }

    lemma ForwardCell(d: int, a: nat, n: nat)
      requires Valid() && d == a + n * fw
      ensures 0 <= d && Cell(d) == n + Cell(a) && InCell(d) == InCell(a)
    {
      hide Cell, InCell;
      CellJoin(a, 0);
      Spread(n, Cell(a), fw);
      NonNegative(n, fw);
      CellSplit(n + Cell(a), InCell(a));
    }

    lemma BackwardCell(d: int, a: nat, m: nat)
      requires Valid() && d == m * fw - 1 - a && Cell(a) < m
      ensures 0 <= d && Cell(d) == m - 1 - Cell(a) && InCell(d) == fw - 1 - InCell(a)
    {
      hide Cell, InCell;
      CellJoin(a, 0);
      var q := m - 1 - Cell(a);
      Spread(q, Cell(a) + 1, fw);
      Spread(Cell(a), 1, fw);
      NonNegative(q, fw);
      CellSplit(q, fw - 1 - InCell(a));
    }

    /** Where a dot of the chunk lies in the chunk's image. */
    lemma PlaceInChunk(rot: Rotation, yy: int, from: int, cnt: nat, lx: int, ly: int)
      requires Valid() && InCells(lx, ly, yy, from, 1, cnt)
      ensures var blk := Block(rot, yy, from, 1, cnt);
              var a := AlongOf(rot, blk, PX(rot, lx, ly), PY(rot, lx, ly));
              var b := AcrossOf(rot, blk, PX(rot, lx, ly), PY(rot, lx, ly));
              && a == (if Backward(rot) then (from + cnt) * fw - 1 - lx else lx - from * fw)
              && b == (if rot == UD || rot == CW then fh - 1 - (ly - yy * fh) else ly - yy * fh)
              && 0 <= a < cnt * fw
    {
      Spread(yy, 1, fh);
      Spread(from, cnt, fw);
    }

    /** The bit under a dot of the chunk is the dot of the glyph that belongs there, upright. */
    lemma ChunkDot(rot: Rotation, s: seq<Char>, yy: int, xx: int, n: nat, cnt: nat, lx: int, ly: int)
      requires Valid() && n + cnt <= |s|
      requires InCells(lx, ly, yy, ChunkFrom(rot, xx, |s|, n, cnt), 1, cnt)
      ensures var blk := Block(rot, yy, ChunkFrom(rot, xx, |s|, n, cnt), 1, cnt);
              var a := AlongOf(rot, blk, PX(rot, lx, ly), PY(rot, lx, ly));
              var b := AcrossOf(rot, blk, PX(rot, lx, ly), PY(rot, lx, ly));
              var d := lx - xx * fw;
              && 0 <= a && Cell(a) < cnt && 0 <= d && 0 <= Cell(d) < |s|
              && Walk(rot, if Backward(rot) then |s| - 1 - n else n, Cell(a)) == Cell(d)
              && Stored(rot, s[Cell(d)], InCell(a), b) == Glyph(s[Cell(d)], InCell(d), ly - yy * fh)
    {
      hide Cell, InCell, Block, InCells, PX, PY;
      var from := ChunkFrom(rot, xx, |s|, n, cnt);
      var blk := Block(rot, yy, from, 1, cnt);
      var a := AlongOf(rot, blk, PX(rot, lx, ly), PY(rot, lx, ly));
      PlaceInChunk(rot, yy, from, cnt, lx, ly);
      CellJoin(a, cnt);
      if Backward(rot) {
        Spread(xx, |s| - n, fw);
        BackwardCell(lx - xx * fw, a, |s| - n);
      } else {
        Spread(xx, n, fw);
        ForwardCell(lx - xx * fw, a, n);
      }
    }

    lemma PartFits(rot: Rotation, yy: int, xx: int, total: nat, from: int, cnt: nat)
      requires Fits(rot, yy, xx, 1, total) && xx <= from && from + cnt <= xx + total
      ensures Fits(rot, yy, from, 1, cnt)
    {
      MulMono(from + cnt, xx + total, fw);
    }

    /** The drawn part grows by exactly the chunk's cells. */
    lemma DrawnGrows(rot: Rotation, yy: int, xx: int, total: nat, n: nat, cnt: nat, lx: int, ly: int)
      requires n + cnt <= total && 0 <= xx
      ensures InCells(lx, ly, yy, DrawnFrom(rot, xx, total, n + cnt), 1, n + cnt) <==>
              InCells(lx, ly, yy, DrawnFrom(rot, xx, total, n), 1, n) ||
              InCells(lx, ly, yy, ChunkFrom(rot, xx, total, n, cnt), 1, cnt)
    {
      var from := ChunkFrom(rot, xx, total, n, cnt);
      MulMono(from, from + cnt, fw);
      if Backward(rot) {
        MulMono(from + cnt, xx + total, fw);
      } else {
        MulMono(xx, from, fw);
      }
    }

    /** Colour of a text's dot: `a` columns from its start, `b` rows down. */
    function Ink(s: seq<Char>, a: int, b: int, fg: Color, bg: Color): Color
      requires Valid() && 0 <= Cell(a) < |s|
    {
      if Glyph(s[Cell(a)], InCell(a), b) then fg else bg
    }

    /** A chunk as the user sees it. */
    method PutSpan(rot: Rotation, s: seq<Char>, p: int, cnt: nat, dx: int, dy: int, fg: Color, bg: Color,
                   ghost yy: int, ghost xx: int, ghost n: nat)
      requires Valid() && Fits(rot, yy, xx, 1, |s|) && n + cnt <= |s| && 0 < cnt
      requires p == if Backward(rot) then |s| - 1 - n else n
      requires var left := Block(rot, yy, LeftFrom(rot, xx, n), 1, |s| - n); dx == left.dx && dy == left.dy
      modifies screen
      ensures forall lx, ly :: InView(rot, lx, ly) ==>
                if InCells(lx, ly, yy, ChunkFrom(rot, xx, |s|, n, cnt), 1, cnt) then
                  && 0 <= Cell(lx - xx * fw) < |s|
                  && Seen(rot, lx, ly) == Ink(s, lx - xx * fw, ly - yy * fh, fg, bg)
                else Seen(rot, lx, ly) == old(Seen(rot, lx, ly))
    {
      hide Cell, InCell, Block, InCells, Fits, OnPanel, InArea, Stored, AlongOf, AcrossOf;
      ghost var from := ChunkFrom(rot, xx, |s|, n, cnt);
      ChunkIsBlock(rot, yy, xx, |s|, n, cnt);
      PartFits(rot, yy, xx, |s|, from, cnt);
      if vx == 0 || vy == 0 {
        return;
      }
      BlockIsCells(rot, yy, from, 1, cnt, 0, 0);
      PutChunk(rot, s, p, cnt, dx, dy, fg, bg);
      forall lx, ly | InView(rot, lx, ly)
        ensures if InCells(lx, ly, yy, from, 1, cnt) then
                  && 0 <= Cell(lx - xx * fw) < |s|
                  && Seen(rot, lx, ly) == Ink(s, lx - xx * fw, ly - yy * fh, fg, bg)
                else Seen(rot, lx, ly) == old(Seen(rot, lx, ly))
      {
        BlockIsCells(rot, yy, from, 1, cnt, lx, ly);
        if InCells(lx, ly, yy, from, 1, cnt) {
          ChunkDot(rot, s, yy, xx, n, cnt, lx, ly);
        }
      }
    }

    /** `bit_putcs`, `cw_putcs`, `ud_putcs` and `ccw_putcs`: in every rotation, whatever the buffer holds, the
        user sees the characters upright in cells xx, xx + 1 and so on of row yy, and nothing else changed. */
    method Putcs(rot: Rotation, s: seq<Char>, yy: int, xx: int, fg: Color, bg: Color)
      requires Valid() && Fits(rot, yy, xx, 1, |s|)
      modifies screen
      ensures forall lx, ly :: InView(rot, lx, ly) ==>
                if InCells(lx, ly, yy, xx, 1, |s|) then
                  && 0 <= Cell(lx - xx * fw) < |s|
                  && Seen(rot, lx, ly) == Ink(s, lx - xx * fw, ly - yy * fh, fg, bg)
                else Seen(rot, lx, ly) == old(Seen(rot, lx, ly))
    {
      assert 0 <= xx;
      hide Cell, InCell, InCells, Seen, InView, Ink, Fits;
      var count := |s|;
      var dx, dy;
      match rot {
        case UR => dx, dy := xx * fw, yy * fh;
        case CW => dx, dy := vx - (yy + 1) * fh, xx * fw;
        case UD => dx, dy := vx - (xx + count) * fw, vy - (yy * fh + fh);
        case CCW => dx, dy := yy * fh, vy - (xx + count) * fw;
      }
      var p := if Backward(rot) then count - 1 else 0;
      Spread(yy, 1, fh);
      NothingDrawn(rot, yy, xx, |s|);
      while count > 0
        invariant 0 <= count <= |s| && p == if Backward(rot) then count - 1 else |s| - count
        invariant var left := Block(rot, yy, LeftFrom(rot, xx, |s| - count), 1, count); dx == left.dx && dy == left.dy
        invariant forall lx, ly :: InView(rot, lx, ly) ==>
                    if InCells(lx, ly, yy, DrawnFrom(rot, xx, |s|, |s| - count), 1, |s| - count) then
                      && 0 <= Cell(lx - xx * fw) < |s|
                      && Seen(rot, lx, ly) == Ink(s, lx - xx * fw, ly - yy * fh, fg, bg)
                    else Seen(rot, lx, ly) == old(Seen(rot, lx, ly))
      {
        var cnt := if count > maxCnt then maxCnt else count;
        ghost var n := |s| - count;
        ChunkIsBlock(rot, yy, xx, |s|, n, cnt);
        PutSpan(rot, s, p, cnt, dx, dy, fg, bg, yy, xx, n);
        forall lx, ly | InView(rot, lx, ly)
          ensures InCells(lx, ly, yy, DrawnFrom(rot, xx, |s|, n + cnt), 1, n + cnt) <==>
                  InCells(lx, ly, yy, DrawnFrom(rot, xx, |s|, n), 1, n) ||
                  InCells(lx, ly, yy, ChunkFrom(rot, xx, |s|, n, cnt), 1, cnt)
        {
          DrawnGrows(rot, yy, xx, |s|, n, cnt, lx, ly);
        }
        if Sideways(rot) {
          dy := dy + cnt * fw;
        } else {
          dx := dx + cnt * fw;
        }
        count := count - cnt;
        p := if Backward(rot) then p - cnt else p + cnt;
      }
    }

    lemma NothingDrawn(rot: Rotation, yy: int, xx: int, total: nat)
      ensures forall lx, ly :: !InCells(lx, ly, yy, DrawnFrom(rot, xx, total, 0), 1, 0)
    {
    }

    // ---- update_start

    function GlassWidth(rot: Rotation): nat { if Sideways(rot) then yres else xres }

    function GlassHeight(rot: Rotation): nat { if Sideways(rot) then xres else yres }

    predicate OnGlass(rot: Rotation, u: int, v: int) { 0 <= u < GlassWidth(rot) && 0 <= v < GlassHeight(rot) }

    /** The place on the glass, as the hardware counts it, where the user looks at (u, v). */
    function GX(rot: Rotation, u: int, v: int): int {
      match rot case UR => u case CW => xres - 1 - v case UD => xres - 1 - u case CCW => v
    }

    function GY(rot: Rotation, u: int, v: int): int {
      match rot case UR => v case CW => u case UD => yres - 1 - v case CCW => yres - 1 - u
    }

    /** What the hardware shows there from the panel offsets on; its lines wrap around. */
    predicate Scans(xoffset: int, yoffset: int) { 0 <= xoffset && xoffset + xres <= vx && 0 <= yoffset < vy }

    function Scanned(rot: Rotation, xoffset: int, yoffset: int, u: int, v: int): Color
      requires Valid() && Scans(xoffset, yoffset) && OnGlass(rot, u, v)
      reads screen
    {
      screen[xoffset + GX(rot, u, v), Around(yoffset + GY(rot, u, v), vy)]
    }

    function Around(ly: int, n: nat): int { if ly >= n then ly - n else ly }

    /** The window of the picture starts at line `top`. Panned, it ends within the picture; wrapped, which the hardware
        does along its own lines alone, it goes on at the first line. */
    predicate Visible(rot: Rotation, top: int) {
      && 0 <= top < ViewHeight(rot)
      && (top + GlassHeight(rot) <= ViewHeight(rot) || !Sideways(rot))
    }

    /** `bit_update_start`, `cw_update_start`, `ud_update_start` and `ccw_update_start`, called with offset 0 along
        the text: in every rotation the user sees the picture from line `top` on. */
    method UpdateStart(rot: Rotation, top: int) returns (xoffset: int, yoffset: int)
      requires Valid() && Visible(rot, top) && 0 < xres && 0 < yres
      ensures Scans(xoffset, yoffset)
      ensures forall u, v :: OnGlass(rot, u, v) ==>
                && InView(rot, u, Around(top + v, ViewHeight(rot)))
                && Scanned(rot, xoffset, yoffset, u, v) == Seen(rot, u, Around(top + v, ViewHeight(rot)))
    {
      xoffset, yoffset := 0, top;
      match rot {
        case UR =>
        case CW =>
          xoffset := vx - (xres + yoffset);
          yoffset := 0;
        case UD =>
          xoffset := vx - xres - xoffset;
          yoffset := vy - yres - yoffset;
          if yoffset < 0 {
            yoffset := yoffset + vy;
          }
        case CCW =>
          xoffset, yoffset := yoffset, vy - yres - xoffset;
      }
    }
  }
}
