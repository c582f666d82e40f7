/** A terminal as its user thinks of it: a grid of rows, everything that ever scrolled off its
    top, and how far the view is scrolled back. The console engine is shown to be one. */
module Terminal {
  import opened Grid
  import opened Scrollback

  datatype Plain = Plain(text: Rows, log: Rows, lines: nat)

  datatype Op =
    | ScrollRegion(t: nat, b: nat, up: bool, count: nat)
    | LookBack(delta: int)   // negative: towards older rows
    | Write(y: nat, x: nat, run: Row)
    | Erase(y: nat, x: nat, h: nat, w: nat)

  ghost predicate Proper(op: Op, rows: nat, cols: nat) {
    match op
    case ScrollRegion(t, b, up, count) => t < b <= rows && 1 <= count <= b - t
    case LookBack(delta) => true
    case Write(y, x, run) => y < rows && 0 < |run| && x + |run| <= cols && OneAttribute(run)
    case Erase(y, x, h, w) => y + h <= rows && x + w <= cols
  }

  /** Rows still available to look back at, of which `cap` are kept. */
  function Clamp(n: int, cap: nat): nat { if n < 0 then 0 else if n > cap then cap else n }

  ghost function Step(p: Plain, op: Op, cols: nat, blank: Cell, cap: nat): (p': Plain)
    requires Rect(p.text, cols) && Proper(op, |p.text|, cols)
    ensures |p'.text| == |p.text| && Rect(p'.text, cols)
  {
    match op
    case ScrollRegion(t, b, up, n) =>
      if up then Plain(ScrolledUp(p.text, cols, t, b, n, blank), p.log + p.text[t..t + n], 0)
      else Plain(ScrolledDown(p.text, cols, t, b, n, blank), p.log, 0)
    case LookBack(delta) =>
      p.(lines := Clamp(p.lines - delta, |Last(p.log, cap)|))
    case Write(y, x, run) =>
      Plain(p.text[y := Paste(p.text[y], x, run)], p.log, 0)
    case Erase(y, x, h, w) =>
      Plain(Wipe(p.text, cols, y, x, h, w, blank), p.log, 0)
  }

  ghost function Run(p: Plain, ops: seq<Op>, cols: nat, blank: Cell, cap: nat): (p': Plain)
    requires Rect(p.text, cols) && forall op <- ops :: Proper(op, |p.text|, cols)
    ensures |p'.text| == |p.text| && Rect(p'.text, cols)
  {
    if ops == [] then p
    else
      assert ops[|ops| - 1] in ops;
      Step(Run(p, ops[..|ops| - 1], cols, blank, cap), ops[|ops| - 1], cols, blank, cap)
  }

  lemma RunSnoc(p: Plain, ops: seq<Op>, op: Op, cols: nat, blank: Cell, cap: nat)
    requires Rect(p.text, cols) && forall o <- ops :: Proper(o, |p.text|, cols)
    requires Proper(op, |p.text|, cols)
    ensures forall o <- ops + [op] :: Proper(o, |p.text|, cols)
    ensures Run(p, ops + [op], cols, blank, cap) == Step(Run(p, ops, cols, blank, cap), op, cols, blank, cap)
  {
    assert (ops + [op])[..|ops|] == ops;
  }

  /** What a step makes of every cell. */
  lemma StepCell(p: Plain, op: Op, cols: nat, blank: Cell, cap: nat, i: nat, j: nat)
    requires Rect(p.text, cols) && Proper(op, |p.text|, cols) && i < |p.text| && j < cols
    ensures Step(p, op, cols, blank, cap).text[i][j] ==
            match op
            case ScrollRegion(t, b, up, n) =>
              if i < t || b <= i then p.text[i][j]
              else if up then if i + n < b then p.text[i + n][j] else blank
              else if t + n <= i then p.text[i - n][j] else blank
            case LookBack(_) => p.text[i][j]
            case Write(y, x, run) => if i == y && x <= j < x + |run| then run[j - x] else p.text[i][j]
            case Erase(y, x, h, w) => if y <= i < y + h && x <= j < x + w then blank else p.text[i][j]
  {
    hide ScrolledUp, ScrolledDown, Paste, Wipe, OneAttribute;
    match op
    case ScrollRegion(t, b, up, n) =>
      if up { ScrolledUpAt(p.text, cols, t, b, n, blank, i); } else { ScrolledDownAt(p.text, cols, t, b, n, blank, i); }
    case Write(y, x, run) => PasteCell(p.text[y], x, run, j);
    case Erase(y, x, h, w) => WipeCell(p.text, cols, y, x, h, w, blank, i, j);
    case _ =>
  }

  /** What it makes of the history: the rows scrolled off the top of the region are appended, oldest first, and any
      change of the screen ends looking back, which moves by delta as far as rows are kept. */
  lemma StepHistory(p: Plain, op: Op, cols: nat, blank: Cell, cap: nat)
    requires Rect(p.text, cols) && Proper(op, |p.text|, cols)
    ensures var p', kept := Step(p, op, cols, blank, cap), if |p.log| < cap then |p.log| else cap;
            && |p'.log| == |p.log| + (if op.ScrollRegion? && op.up then op.count else 0)
            && (forall k :: 0 <= k < |p.log| ==> p'.log[k] == p.log[k])
            && (forall k :: |p.log| <= k < |p'.log| ==> p'.log[k] == p.text[op.t + k - |p.log|])
            && (!op.LookBack? ==> p'.lines == 0)
            && (op.LookBack? ==>
                  && 0 <= p'.lines <= kept
                  && (p'.lines < kept ==> p.lines - op.delta <= p'.lines)
                  && (0 < p'.lines ==> p'.lines <= p.lines - op.delta))
  {
  }

  /** What the screen shows: the rows from `lines` above the live screen on. */
  function View(p: Plain, cap: nat): Rows
    requires p.lines <= |Last(p.log, cap)|
  {
    var h := Last(p.log, cap);
    (h + p.text)[|h| - p.lines..][..|p.text|]
  }

  /** Row by row: the last `lines` rows scrolled off, then the top of the live screen. */
  lemma ViewRow(p: Plain, cap: nat, i: nat)
    requires p.lines <= |Last(p.log, cap)| && i < |p.text|
    ensures |View(p, cap)| == |p.text| && p.lines <= |p.log|
    ensures View(p, cap)[i] == if i < p.lines then p.log[|p.log| - p.lines + i] else p.text[i - p.lines]
  {
  }
}
