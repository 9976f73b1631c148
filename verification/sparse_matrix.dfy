/** The sparse interaction-matrix builder: a `size`-by-`size` grid that starts all
    missing and receives one rating at each of `numValues` distinct sampled cells.
    The random draws are inputs: the flat indices `np.random.choice` returned and
    the ratings `np.random.randint` returned, in the order the loop consumes them. */
module SparseMatrix {

  import opened Cells
  import opened FlatIndex
  import opened Results

  type Grid = seq<seq<Cell>>

  /** Why building a matrix fails (each is a `ValueError` raised by numpy). */
  datatype Error =
    | SampleLargerThanPopulation  // choice(size*size, numValues, replace=False) with numValues > size*size
    | EmptyRatingRange            // randint(1, maxValue + 1) with maxValue < 1

  /** The random draws of one call, in consumption order. */
  datatype Draws = Draws(indices: seq<nat>, ratings: seq<int>)

  predicate IsSquare(g: Grid, size: nat)
  {
    |g| == size && forall r :: 0 <= r < size ==> |g[r]| == size
  }

  predicate Distinct(s: seq<nat>)
  {
    forall i, j :: 0 <= i < j < |s| ==> s[i] != s[j]
  }

  /** What `choice(population, count, replace=False)` returns: `count` pairwise
      distinct values below `population`. */
  predicate IsSampleWithoutReplacement(indices: seq<nat>, population: nat, count: nat)
  {
    && |indices| == count
    && Distinct(indices)
    && forall j :: 0 <= j < |indices| ==> indices[j] < population
  }

  /** What `count` calls of `randint(1, maxValue + 1)` return: integers in
      1..maxValue, the upper bound of `randint` being exclusive. */
  predicate AreRatings(ratings: seq<int>, count: nat, maxValue: int)
  {
    && |ratings| == count
    && forall j :: 0 <= j < |ratings| ==> 1 <= ratings[j] <= maxValue
  }

  /** The draws succeed: enough cells to sample from without replacement, and a
      non-empty rating range whenever a rating is drawn. */
  predicate Feasible(size: nat, numValues: nat, maxValue: int)
  {
    numValues <= size * size && (numValues == 0 || 1 <= maxValue)
  }

  /** The cells of `g` that hold a rating, as (row, column) pairs. */
  function FilledPositions(g: Grid): set<(nat, nat)>
  {
    set r: nat, c: nat | r < |g| && c < |g[r]| && g[r][c].Rated? :: (r, c)
  }

  /** Every rated cell of `g` is on the scale 1..maxValue. */
  predicate RatingsInScale(g: Grid, maxValue: int)
  {
    forall r, c :: 0 <= r < |g| && 0 <= c < |g[r]| ==> InScale(g[r][c], maxValue)
  }

  /** The cell at flat index `idx`, found through `divmod`, holds `cell`. */
  predicate CellAtIndex(g: Grid, size: nat, idx: nat, cell: Cell)
  {
    size > 0 &&
    var (r, c) := DivMod(idx, size);
    r < |g| && c < |g[r]| && g[r][c] == cell
  }

  /** Two square grids with the same cells are the same grid. */
  lemma SquareGridsEqual(g: Grid, h: Grid, size: nat)
    requires IsSquare(g, size) && IsSquare(h, size)
    requires forall r, c :: 0 <= r < size && 0 <= c < size ==> g[r][c] == h[r][c]
    ensures g == h
  {
    forall r | 0 <= r < size
      ensures g[r] == h[r]
    {
      assert forall c :: 0 <= c < size ==> g[r][c] == h[r][c];
    }
  }

  /** `np.full((size, size), np.nan)`: the all-missing grid. */
  function Full(size: nat): (g: Grid)
    ensures IsSquare(g, size)
    ensures forall r, c :: 0 <= r < size && 0 <= c < size ==> g[r][c] == Missing
    ensures FilledPositions(g) == {}
  {
    seq(size, _ => seq(size, _ => Missing))
  }

  /** `matrix[r, c] = v`: cell (r, c) becomes `v`; every other cell and the
      shape are unchanged. */
  function WriteCell(g: Grid, r: nat, c: nat, v: Cell): (g': Grid)
    requires r < |g| && c < |g[r]|
    ensures |g'| == |g|
    ensures forall i :: 0 <= i < |g| ==> |g'[i]| == |g[i]|
    ensures g'[r][c] == v
    ensures forall i, j :: 0 <= i < |g| && 0 <= j < |g[i]| && (i, j) != (r, c) ==> g'[i][j] == g[i][j]
  {
    g[r := g[r][c := v]]
  }

  /** Writing a rating into a missing cell adds exactly that cell to the filled ones. */
  lemma WriteMissingCellAddsOne(g: Grid, r: nat, c: nat, v: Cell)
    requires r < |g| && c < |g[r]|
    requires g[r][c] == Missing && v.Rated?
    ensures (r, c) !in FilledPositions(g)
    ensures FilledPositions(WriteCell(g, r, c, v)) == FilledPositions(g) + {(r, c)}
    ensures |FilledPositions(WriteCell(g, r, c, v))| == |FilledPositions(g)| + 1
  {
  }

  /** The cell at flat index `k` after the writes of `indices`/`ratings` in order:
      the last write to `k` wins, and an index never written stays missing. */
  function CellOf(indices: seq<nat>, ratings: seq<int>, k: nat): Cell
    requires |indices| == |ratings|
    decreases |indices|
  {
    if |indices| == 0 then Missing
    else if indices[|indices| - 1] == k then Rated(ratings[|indices| - 1])
    else CellOf(indices[..|indices| - 1], ratings[..|indices| - 1], k)
  }

  /** A cell is written by some draw exactly when its flat index was drawn, and
      then it holds a drawn rating for that index. */
  lemma {:induction false} CellOfWritten(indices: seq<nat>, ratings: seq<int>, k: nat)
    requires |indices| == |ratings|
    ensures CellOf(indices, ratings, k).Missing? <==> k !in indices
    ensures CellOf(indices, ratings, k).Rated? ==>
              exists j :: 0 <= j < |indices| && indices[j] == k && CellOf(indices, ratings, k) == Rated(ratings[j])
    decreases |indices|
  {
    if |indices| > 0 {
      var n := |indices| - 1;
      if indices[n] != k {
        CellOfWritten(indices[..n], ratings[..n], k);
        assert indices == indices[..n] + [indices[n]];
        if CellOf(indices, ratings, k).Rated? {
          var j :| 0 <= j < n && indices[..n][j] == k && CellOf(indices, ratings, k) == Rated(ratings[..n][j]);
          assert indices[j] == k && ratings[j] == ratings[..n][j];
        }
      }
    }
  }

  /** With distinct indices, the cell at the j-th drawn index holds the j-th rating. */
  lemma {:induction false} CellOfDistinct(indices: seq<nat>, ratings: seq<int>, j: nat)
    requires |indices| == |ratings|
    requires Distinct(indices)
    requires j < |indices|
    ensures CellOf(indices, ratings, indices[j]) == Rated(ratings[j])
    decreases |indices|
  {
    var n := |indices| - 1;
    if j < n {
      assert indices[n] != indices[j];
      assert indices[..n][j] == indices[j] && ratings[..n][j] == ratings[j];
      CellOfDistinct(indices[..n], ratings[..n], j);
    }
  }

  /** The grid the builder produces, defined cell by cell. */
  function Reference(size: nat, draws: Draws): (g: Grid)
    requires |draws.indices| == |draws.ratings|
    ensures IsSquare(g, size)
    ensures forall r, c :: 0 <= r < size && 0 <= c < size ==>
              g[r][c] == CellOf(draws.indices, draws.ratings, Flatten(r, c, size))
  {
    seq(size, r requires 0 <= r < size =>
      seq(size, c requires 0 <= c < size => CellOf(draws.indices, draws.ratings, Flatten(r, c, size))))
  }

  /** `int(size * size * density)` with the density given as a whole percentage:
      the floor of the expected number of filled cells. */
  function NumValues(size: nat, densityPercent: nat): (n: nat)
    ensures n * 100 <= size * size * densityPercent < (n + 1) * 100
    ensures densityPercent <= 100 ==> n <= size * size
  {
    size * size * densityPercent / 100
  }

  /** One loop iteration: the grid after the first i + 1 draws is the grid after
      the first i draws with only the cell of the (i+1)-th index overwritten. */
  lemma ReferenceStep(size: nat, draws: Draws, i: nat)
    requires |draws.indices| == |draws.ratings|
    requires i < |draws.indices| && draws.indices[i] < size * size
    ensures size > 0
    ensures DivMod(draws.indices[i], size).0 < size
    ensures var (r, c) := DivMod(draws.indices[i], size);
            Reference(size, Prefix(draws, i + 1))
            == WriteCell(Reference(size, Prefix(draws, i)), r, c, Rated(draws.ratings[i]))
  {
    var idx := draws.indices[i];
    var (r, c) := DivMod(idx, size);
    var before, after := Prefix(draws, i), Prefix(draws, i + 1);
    assert after.indices[..i] == before.indices && after.ratings[..i] == before.ratings;
    var g := WriteCell(Reference(size, before), r, c, Rated(draws.ratings[i]));
    var h := Reference(size, after);
    forall r', c' | 0 <= r' < size && 0 <= c' < size
      ensures h[r'][c'] == g[r'][c']
    {
      if (r', c') != (r, c) && Flatten(r', c', size) == idx {
        FlattenInjective(r', c', r, c, size);
      }
    }
    SquareGridsEqual(h, g, size);
  }

  /** The first n draws. */
  function Prefix(draws: Draws, n: nat): (p: Draws)
    requires n <= |draws.indices| && n <= |draws.ratings|
    ensures |p.indices| == |p.ratings| == n
  {
    Draws(draws.indices[..n], draws.ratings[..n])
  }

  /** The finished grid puts the j-th rating at the cell of the j-th index, leaves
      exactly the undrawn cells missing, and keeps every rating on the scale. */
  lemma ReferenceContents(size: nat, numValues: nat, maxValue: int, draws: Draws)
    requires IsSampleWithoutReplacement(draws.indices, size * size, numValues)
    requires AreRatings(draws.ratings, numValues, maxValue)
    ensures forall j :: 0 <= j < numValues ==>
              CellAtIndex(Reference(size, draws), size, draws.indices[j], Rated(draws.ratings[j]))
    ensures forall r, c :: 0 <= r < size && 0 <= c < size ==>
              (Reference(size, draws)[r][c] == Missing <==> Flatten(r, c, size) !in draws.indices)
    ensures RatingsInScale(Reference(size, draws), maxValue)
  {
    var g := Reference(size, draws);
    forall j | 0 <= j < numValues
      ensures CellAtIndex(g, size, draws.indices[j], Rated(draws.ratings[j]))
    {
      CellOfDistinct(draws.indices, draws.ratings, j);
    }
    forall r, c | 0 <= r < size && 0 <= c < size
      ensures g[r][c] == Missing <==> Flatten(r, c, size) !in draws.indices
      ensures InScale(g[r][c], maxValue)
    {
      CellOfWritten(draws.indices, draws.ratings, Flatten(r, c, size));
    }
  }

  /** `create_sparse_matrix(size, density, max_value)` with the density given as a
      whole percentage and the random draws given. */
  method CreateSparseMatrix(size: nat, densityPercent: nat, maxValue: int, draws: Draws)
    returns (result: Result<Grid, Error>)
    requires NumValues(size, densityPercent) <= size * size ==>
               IsSampleWithoutReplacement(draws.indices, size * size, NumValues(size, densityPercent))
    requires Feasible(size, NumValues(size, densityPercent), maxValue) ==>
               AreRatings(draws.ratings, NumValues(size, densityPercent), maxValue)
    ensures result.Ok? <==> Feasible(size, NumValues(size, densityPercent), maxValue)
    ensures NumValues(size, densityPercent) > size * size ==> result == Err(SampleLargerThanPopulation)
    ensures 0 < NumValues(size, densityPercent) <= size * size && maxValue < 1 ==>
              result == Err(EmptyRatingRange)
    ensures result.Ok? ==> result.value == Reference(size, draws)
    ensures result.Ok? ==> IsSquare(result.value, size)
    ensures result.Ok? ==> forall j :: 0 <= j < |draws.indices| ==>
              CellAtIndex(result.value, size, draws.indices[j], Rated(draws.ratings[j]))
    ensures result.Ok? ==> forall r, c :: 0 <= r < size && 0 <= c < size ==>
              (result.value[r][c] == Missing <==> Flatten(r, c, size) !in draws.indices)
    ensures result.Ok? ==> RatingsInScale(result.value, maxValue)
    ensures result.Ok? ==> |FilledPositions(result.value)| == NumValues(size, densityPercent)
    ensures result.Ok? ==>
              var filled := |FilledPositions(result.value)|;
              filled * 100 <= size * size * densityPercent < (filled + 1) * 100
  {
    var numValues := NumValues(size, densityPercent);
    if numValues > size * size {
      return Err(SampleLargerThanPopulation);
    }
    if numValues > 0 && maxValue < 1 {
      return Err(EmptyRatingRange);
    }
    var g := Full(size);
    var i := 0;
    SquareGridsEqual(g, Reference(size, Prefix(draws, 0)), size);
    while i < numValues
      invariant 0 <= i <= numValues
      invariant g == Reference(size, Prefix(draws, i))
      invariant |FilledPositions(g)| == i
    {
      var idx := draws.indices[i];
      var (r, c) := DivMod(idx, size);
      ReferenceStep(size, draws, i);
      assert g[r][c] == Missing by {
        assert idx !in draws.indices[..i];
        CellOfWritten(draws.indices[..i], draws.ratings[..i], idx);
      }
      WriteMissingCellAddsOne(g, r, c, Rated(draws.ratings[i]));
      g := WriteCell(g, r, c, Rated(draws.ratings[i]));
      i := i + 1;
    }
    assert Prefix(draws, i) == draws;
    ReferenceContents(size, numValues, maxValue, draws);
    return Ok(g);
  }
}
