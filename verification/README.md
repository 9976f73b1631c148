# Sparse user–item interaction matrices

A Dafny model of the matrix generator of the movie/book/music/product
recommendation demo (`movie_RCM.py`). `create_sparse_matrix(size, density,
max_value)` starts from a `size`×`size` grid of NaN, samples
`int(size*size*density)` distinct flat cell indices without replacement, turns
each into a (row, column) pair with `divmod(idx, size)`, and writes a rating
drawn from `randint(1, max_value + 1)` there. `plot_matrix` then replaces NaN
by 0 (`np.nan_to_num`) before drawing the grid with a six-entry colour map
(gray for missing, five greens for the ratings 1..5).

The model has five modules:

- `Cells`: a cell is `Missing` (NaN) or `Rated(rating)`.
- `FlatIndex`: row-major flattening and Python's `divmod` on non-negative
  indices, proved to be a bijection between flat indices below `size*size` and
  the cells of the grid.
- `SparseMatrix`: the grid (`seq<seq<Cell>>`), the all-missing grid, the
  single-cell write, a cell-by-cell reference definition of the finished grid
  (`Reference`, last write wins), and the builder `CreateSparseMatrix`. That
  method mirrors the source's loop over the sampled indices.
- `Display`: the missing→0 encoding of one cell and of a whole grid, and its
  inverse.
- `Results`: the `Ok`/`Err` value used for numpy's `ValueError`s.

The random draws are inputs (`Draws(indices, ratings)`), in the order the
source consumes them. The predicates `IsSampleWithoutReplacement` and
`AreRatings` state what `np.random.choice(..., replace=False)` and
`np.random.randint(1, max_value + 1)` promise about them. The two ways the
source fails are returned as errors rather than excluded:

- `SampleLargerThanPopulation`: more samples than cells.
- `EmptyRatingRange`: a rating is drawn but `max_value < 1`.

## Model

| member | source | states |
|---|---|---|
| FlatIndex.DivMod | movie_RCM.py:30 | `divmod(idx, size)` gives a row and column with `row*size + column == idx` and `column < size`; for `idx < size*size` the row is below `size` too |
| FlatIndex.FlattenInjective | movie_RCM.py:30 | two cells whose columns are below `size` and whose flat indices agree are the same cell |
| FlatIndex.DivModFlattenRoundTrip | movie_RCM.py:30 | every cell (r, c) of the grid has a flat index below `size*size`, and `divmod` of that index returns (r, c): flat index ↔ cell is a bijection |
| FlatIndex.DistinctIndicesDistinctCells | movie_RCM.py:28-30 | distinct flat indices are sent to distinct cells by `divmod` |
| SparseMatrix.Full | movie_RCM.py:26 | the initial grid is `size`×`size`, every cell is missing, and no cell is filled |
| SparseMatrix.WriteCell | movie_RCM.py:31 | `matrix[r, c] = v` sets cell (r, c) to `v` and keeps the shape and every other cell |
| SparseMatrix.WriteMissingCellAddsOne | movie_RCM.py:29-31 | writing a rating into a missing cell adds exactly that cell to the set of filled cells, so the filled count grows by one |
| SparseMatrix.CellOfWritten | movie_RCM.py:29-31 | after the writes, a cell is missing exactly when its flat index was never drawn, and a written cell holds a rating drawn for its index |
| SparseMatrix.CellOfDistinct | movie_RCM.py:28-31 | with indices sampled without replacement, the cell of the j-th index holds the j-th rating |
| SparseMatrix.ReferenceStep | movie_RCM.py:29-31 | one loop iteration changes only the cell `divmod` gives for the current index; the grid after i+1 draws is the grid after i draws with that one cell overwritten |
| SparseMatrix.ReferenceContents | movie_RCM.py:28-31 | the finished grid holds each drawn rating at its drawn cell, leaves exactly the undrawn cells missing, and keeps every rating in 1..max_value |
| SparseMatrix.NumValues | movie_RCM.py:27 | the number of values is the floor of `size*size*density`, and a density of at most 100% never asks for more values than cells |
| SparseMatrix.CreateSparseMatrix | movie_RCM.py:25-32 | with `num_values` the floor of `size*size*density`, fails with `SampleLargerThanPopulation` when more values than cells are requested. Fails with `EmptyRatingRange` when a rating must be drawn from an empty range. Otherwise returns the reference grid: `size`×`size`, drawn ratings at their drawn cells, undrawn cells missing, ratings in 1..max_value, and exactly `num_values` filled cells |
| Display.EncodeGrid | movie_RCM.py:49 | `np.nan_to_num(data, nan=0)` keeps the grid's shape, and each entry is the cell's `Display.Encode` value: 0 for a missing cell, the rating itself otherwise |
| Display.EncodeCell | movie_RCM.py:49 | an encoded cell lies in 0..max_value, is 0 exactly when the cell is missing, and decodes back to the cell |
| Display.EncodeInjective | movie_RCM.py:49 | two cells on the rating scale with the same encoded value are the same cell: missing never collides with a rating |
| Display.EncodeGridRoundTrip | movie_RCM.py:49 | the encoded matrix holds only values in 0..max_value, has 0 exactly at the missing cells, and decoding it gives the grid back |
| Display.EncodeSelectsPaletteEntry | movie_RCM.py:43-50 | with ratings in 1..5, every encoded cell is an index below the six colour-map entries, and two cells share an index exactly when they are equal |

## Left out

- The random number generator (`np.random.seed`, `choice`, `randint`): the draws are inputs. Determinism under a fixed seed follows from the model being a function of its inputs.
- NumValues: the density is a whole percentage, so the floating-point product `size * size * density` is not modelled. Python's float rounding can give one less than the percentage suggests, e.g. `int(100 * 0.29) == 28`.
- CreateSparseMatrix: the `randint` error is reported before the loop starts. In the source it is raised at the first loop iteration. The outcome is the same, because the loop runs at least once whenever a rating is drawn.
- CreateSparseMatrix: negative sizes and densities are excluded by the `nat` parameter types. For a negative size numpy raises `ValueError`. For a density with `-1 < size*size*density < 0`, `int()` truncates to 0 samples and the source returns an all-missing grid. For a more negative density, numpy rejects the negative sample count.
- CreateSparseMatrix: ratings are unbounded integers, not numpy's int64 draws stored in a float64 matrix. The source's `randint` raises `ValueError` once `max_value + 1` is out of the int64 range, and the model returns `Ok` there. Ratings above 2^53 would be rounded when written into the float64 matrix, and the model keeps them exact.
- The colour map's floating-point RGBA values and matplotlib's value-to-colour normalisation are not modelled. Only the fact that the encoded values index the six entries is stated.
- All matplotlib drawing (figure, subplots, titles, ticks, labels, grid lines, layout, `show`) and the hard-coded label lists and four fixed calls are script wiring with no stateable logic.
