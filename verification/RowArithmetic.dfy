/** Products with a row length, kept away from the proofs that use them. */
module RowArithmetic {
  lemma DivRow(y: nat, d: nat, r: nat)
    requires r < d
    ensures (y * d + r) / d == y && (y * d + r) % d == r
  {
    var q, m := (y * d + r) / d, (y * d + r) % d;
    assert q * d + m == y * d + r;
    if q > y {
      assert (q - y) * d >= d by { MulMono(1, q - y, d); }
    } else if q < y {
      assert (y - q) * d >= d by { MulMono(1, y - q, d); }
    }
  }

  lemma MulMono(a: nat, b: nat, d: nat)
    requires a <= b
    ensures a * d <= b * d
  {
  }

  /** Rows i and j of one array compare as their addresses do. */
  lemma RowOrder(i: nat, j: nat, d: nat, r: nat)
    requires r < d
    ensures i * d + r < j * d <==> i < j
    ensures i * d == j * d <==> i == j
    ensures (i + 1) * d == i * d + d
  {
    if i < j { MulMono(i + 1, j, d); }
    if j < i { MulMono(j + 1, i, d); }
  }
}
