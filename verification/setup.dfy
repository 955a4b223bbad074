/**
 * Validation of the board-size answer (width, height, mines), with the order
 * in which the diagnostics are chosen. Reading and splitting the console line
 * and converting its tokens to integers are not part of this model.
 */
module Setup {
  import opened Counting

  /** Largest allowed width and height. */
  const MaxSize := 100
  /** The board must have more than this many cells per mine. */
  const MaxMineFactor := 2

  datatype SizeCheck =
    | Accepted
    | BadDimension     // "Dimension is too big or too small."
    | TooFewMines      // "At least 1 mine must be present."
    | TooManyMines     // "Too many mines."

  /** The smallest of three, as the size test's safe-zone margin uses it. */
  function Min3(a: int, b: int, c: int): int {
    Min(a, Min(b, c))
  }

  /** The dimension test comes first, then the lower mine bound, then the two upper ones. */
  function CheckSize(width: int, height: int, mines: int): (v: SizeCheck)
    ensures v == BadDimension <==> !(0 < width <= MaxSize && 0 < height <= MaxSize)
    ensures v == TooFewMines <==> 0 < width <= MaxSize && 0 < height <= MaxSize && mines < 1
    ensures v == Accepted <==>
              && 1 <= width <= MaxSize && 1 <= height <= MaxSize
              && 1 <= mines && MaxMineFactor * mines < width * height
              && mines + 3 * Min3(3, width, height) <= width * height
  {
    if 0 < width <= MaxSize && 0 < height <= MaxSize then
      if mines >= 1 then
        if width * height > mines * MaxMineFactor && mines <= width * height - 3 * Min3(3, width, height) then
          Accepted
        else
          TooManyMines
      else
        TooFewMines
    else
      BadDimension
  }
}
