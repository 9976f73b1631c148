/** The display step of `plot_matrix`: `np.nan_to_num(data, nan=0)` turns every
    missing cell into 0 and leaves ratings as they are, so the matrix can be shown
    against a colour map whose first entry (gray) stands for 0 and whose next five
    entries (greens) stand for the ratings 1..5. */
module Display {

  import opened Cells
  import opened SparseMatrix

  /** Entries of the listed colour map: one gray for missing, five greens. */
  const PaletteSize: nat := 6

  /** The value drawn for a missing cell. */
  const MissingCode: int := 0

  /** The encoded value of one cell. */
  function Encode(cell: Cell): (v: int)
  {
    match cell
    case Missing => MissingCode
    case Rated(x) => x
  }

  /** Reads an encoded value back as a cell: 0 is missing, anything else a rating. */
  function Decode(v: int): Cell
  {
    if v == MissingCode then Missing else Rated(v)
  }

  /** On a cell of the scale 1..maxValue the encoding is in 0..maxValue, is 0 exactly
      for a missing cell, and decoding gives the cell back. */
  lemma EncodeCell(cell: Cell, maxValue: int)
    requires InScale(cell, maxValue)
    ensures 0 <= Encode(cell) && (cell.Rated? ==> Encode(cell) <= maxValue)
    ensures Encode(cell) == MissingCode <==> cell == Missing
    ensures Decode(Encode(cell)) == cell
  {
  }

  /** Encoding does not merge two cells of the scale: missing never shares a value
      with a rating, and different ratings keep different values. */
  lemma EncodeInjective(a: Cell, b: Cell, maxValue: int)
    requires InScale(a, maxValue) && InScale(b, maxValue)
    requires Encode(a) == Encode(b)
    ensures a == b
  {
  }

  /** `np.nan_to_num(data, nan=0)` applied to a whole grid. */
  function EncodeGrid(g: Grid): (m: seq<seq<int>>)
    ensures |m| == |g|
    ensures forall r :: 0 <= r < |g| ==> |m[r]| == |g[r]|
    ensures forall r, c :: 0 <= r < |g| && 0 <= c < |g[r]| ==> m[r][c] == Encode(g[r][c])
  {
    seq(|g|, r requires 0 <= r < |g| => seq(|g[r]|, c requires 0 <= c < |g[r]| => Encode(g[r][c])))
  }

  function DecodeGrid(m: seq<seq<int>>): (g: Grid)
    ensures |g| == |m|
    ensures forall r :: 0 <= r < |m| ==> |g[r]| == |m[r]|
    ensures forall r, c :: 0 <= r < |m| && 0 <= c < |m[r]| ==> g[r][c] == Decode(m[r][c])
  {
    seq(|m|, r requires 0 <= r < |m| => seq(|m[r]|, c requires 0 <= c < |m[r]| => Decode(m[r][c])))
  }

  /** The encoded matrix of a grid whose ratings are on the scale 1..maxValue
      holds only values in 0..maxValue, has a 0 exactly where the grid has a
      missing cell, and loses nothing: decoding it gives the grid back. */
  lemma EncodeGridRoundTrip(g: Grid, maxValue: int)
    requires 0 <= maxValue
    requires RatingsInScale(g, maxValue)
    ensures forall r, c :: 0 <= r < |g| && 0 <= c < |g[r]| ==> 0 <= EncodeGrid(g)[r][c] <= maxValue
    ensures forall r, c :: 0 <= r < |g| && 0 <= c < |g[r]| ==>
              (EncodeGrid(g)[r][c] == MissingCode <==> g[r][c] == Missing)
    ensures DecodeGrid(EncodeGrid(g)) == g
  {
    var m := EncodeGrid(g);
    var h := DecodeGrid(m);
    forall r, c | 0 <= r < |g| && 0 <= c < |g[r]|
      ensures 0 <= m[r][c] <= maxValue
      ensures m[r][c] == MissingCode <==> g[r][c] == Missing
      ensures h[r][c] == g[r][c]
    {
      EncodeCell(g[r][c], maxValue);
    }
    forall r | 0 <= r < |g|
      ensures h[r] == g[r]
    {
      assert forall c :: 0 <= c < |g[r]| ==> h[r][c] == g[r][c];
    }
  }

  /** With the five-step rating scale the colour map is built for, every encoded
      cell selects one of the six palette entries, and two cells of the scale
      select the same entry only when they are the same cell. */
  lemma EncodeSelectsPaletteEntry(a: Cell, b: Cell)
    requires InScale(a, PaletteSize - 1) && InScale(b, PaletteSize - 1)
    ensures 0 <= Encode(a) < PaletteSize
    ensures Encode(a) == Encode(b) <==> a == b
  {
  }
}
