/** Row-major layout shared by both matrix engines: cell (i, j) of a
    matrix with c columns lives at position i * c + j of its buffer. */
module Layout {

  /** The buffer position `row * _columns + column` that both headers compute. */
  function Index(i: nat, j: nat, c: nat): nat
  {
    i * c + j
  }

  /** Multiplying by a non-negative factor keeps the order. Stated as an
      implication so that calling it in a branch proves nothing on its own. */
  lemma MulMono(a: int, b: int, c: int)
    ensures 0 <= c && a <= b ==> a * c <= b * c
  {
    if 0 <= c && a <= b {
      assert b * c == a * c + (b - a) * c;
    }
  }

  /** The last cell of row i ends no later than the buffer of r rows. */
  lemma RowFits(i: nat, r: nat, c: nat)
    requires i < r
    ensures Index(i, c, c) <= r * c
  {
    MulMono(i + 1, r, c);
  }

  /** Every cell inside an r x c grid has a position inside an r * c buffer. */
  lemma IndexBelow(i: nat, j: nat, r: nat, c: nat)
    requires i < r && j < c
    ensures Index(i, j, c) < r * c
  {
    RowFits(i, r, c);
  }

  lemma GridFits(r: nat, c: nat)
    ensures forall i: nat, j: nat :: i < r && j < c ==> Index(i, j, c) < r * c
  {
    forall i: nat, j: nat | i < r && j < c
      ensures Index(i, j, c) < r * c
    {
      IndexBelow(i, j, r, c);
    }
  }

  /** Row and column are recovered from a position by division and remainder. */
  lemma IndexInverse(i: nat, j: nat, c: nat)
    requires j < c
    ensures Index(i, j, c) / c == i && Index(i, j, c) % c == j
  {
    var k := Index(i, j, c);
    var q, m := k / c, k % c;
    assert k == q * c + m && 0 <= m < c;
    if q < i {
      MulMono(q + 1, i, c);
      assert false;
    } else if q > i {
      MulMono(i + 1, q, c);
      assert false;
    }
  }

  /** Every position of an r x c buffer is some cell of the grid. */
  lemma CellOfIndex(t: nat, r: nat, c: nat)
    requires t < r * c
    ensures 0 < c && t / c < r && t % c < c && Index(t / c, t % c, c) == t
  {
    var q := t / c;
    if q >= r {
      MulMono(r, q, c);
      assert false;
    }
  }
}
