/** Row-major flat indices of a `size`-by-`size` grid and Python's `divmod` on them. */
module FlatIndex {

  /** The flat index of cell (r, c) in a grid with `size` columns. */
  function Flatten(r: nat, c: nat, size: nat): nat
  {
    r * size + c
  }

  /** Python's `divmod(idx, size)` for a non-negative index and a positive divisor:
      the quotient is the row and the remainder the column. */
  function DivMod(idx: nat, size: nat): (rc: (nat, nat))
    requires size > 0
    ensures Flatten(rc.0, rc.1, size) == idx
    ensures rc.1 < size
    ensures idx < size * size ==> rc.0 < size
  {
    var q, m := idx / size, idx % size;
    assert idx < size * size ==> q < size by {
      if q >= size {
        QuotientBound(q, m, size);
      }
    }
    (q, m)
  }

  /** A quotient of at least `size` gives a flat index of at least `size * size`. */
  lemma QuotientBound(q: nat, m: nat, size: nat)
    requires q >= size
    ensures q * size + m >= size * size
  {
  }

  /** Multiplying by the same factor keeps the order. */
  lemma MulMonotone(a: nat, b: nat, k: nat)
    requires a <= b
    ensures a * k <= b * k
  {
  }

  /** Row-major flattening is injective on cells whose column is below `size`:
      the (row, column) pair is recovered from the flat index alone. */
  lemma FlattenInjective(r1: nat, c1: nat, r2: nat, c2: nat, size: nat)
    requires c1 < size && c2 < size
    requires Flatten(r1, c1, size) == Flatten(r2, c2, size)
    ensures r1 == r2 && c1 == c2
  {
    if r1 < r2 {
      MulMonotone(r1 + 1, r2, size);
      assert false;
    } else if r2 < r1 {
      MulMonotone(r2 + 1, r1, size);
      assert false;
    }
  }

  /** `divmod` followed by flattening, and flattening followed by `divmod`, are both
      the identity: flat indices below `size * size` and cells of the grid are in
      one-to-one correspondence. */
  lemma DivModFlattenRoundTrip(r: nat, c: nat, size: nat)
    requires r < size && c < size
    ensures Flatten(r, c, size) < size * size
    ensures DivMod(Flatten(r, c, size), size) == (r, c)
  {
    MulMonotone(r + 1, size, size);
    var rc := DivMod(Flatten(r, c, size), size);
    FlattenInjective(rc.0, rc.1, r, c, size);
  }

  /** Distinct flat indices land on distinct cells. */
  lemma DistinctIndicesDistinctCells(i: nat, j: nat, size: nat)
    requires size > 0
    requires i != j
    ensures DivMod(i, size) != DivMod(j, size)
  {
  }
}
