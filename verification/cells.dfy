/** One cell of an interaction matrix: NaN in the source, or an observed rating. */
module Cells {

  /** `Missing` is the NaN the matrix starts with; `Rated` holds a written rating. */
  datatype Cell = Missing | Rated(rating: int)

  /** A cell is admissible for a rating scale 1..maxValue when it is missing or
      holds a rating on that scale. */
  predicate InScale(cell: Cell, maxValue: int)
  {
    cell.Rated? ==> 1 <= cell.rating <= maxValue
  }
}
