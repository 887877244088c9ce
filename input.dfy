/** The checks `save_input` applies to the three integers typed into the
    start window, in the order they fire, and a corrected check. */
module Input {
  import opened Grid

  /** What pressing "Play" leads to: the window closes, or one of the two
      error messages is shown. */
  datatype InputCheck = Accepted | TooManyMines | FieldsRequired | NotPositive

  /** `save_input` as written: more mines than tiles is refused first, then
      any field that is zero (Python's falsy test). Nothing else is checked. */
  function SaveInput(mineAmount: int, sizeX: int, sizeY: int): (r: InputCheck)
    ensures r != NotPositive
    ensures r == TooManyMines <==> mineAmount > sizeX * sizeY
    ensures r == Accepted <==>
      mineAmount <= sizeX * sizeY && mineAmount != 0 && sizeX != 0 && sizeY != 0
  {
    if mineAmount > sizeX * sizeY then TooManyMines
    else if sizeX == 0 || sizeY == 0 || mineAmount == 0 then FieldsRequired
    else Accepted
  }

  /** The mine-count test comes first: with either size zero, any positive
      mine amount is reported as too many mines, not as a missing field. */
  lemma MineCountCheckedFirst(mineAmount: int, sizeX: int, sizeY: int)
    requires mineAmount > 0
    ensures SaveInput(mineAmount, 0, sizeY) == TooManyMines
    ensures SaveInput(mineAmount, sizeX, 0) == TooManyMines
  {
  }

  /** Zero mines are refused like an empty field. */
  lemma ZeroMinesRefused(sizeX: int, sizeY: int)
    requires sizeX * sizeY >= 0
    ensures SaveInput(0, sizeX, sizeY) == FieldsRequired
  {
  }

  /** An accepted input passes the `ValueError` guard of the constructor. */
  lemma AcceptedPassesGuard(mineAmount: int, sizeX: int, sizeY: int)
    requires SaveInput(mineAmount, sizeX, sizeY) == Accepted
    ensures mineAmount <= sizeX * sizeY
  {
  }

  /** Negative sizes are accepted: with one mine and both sizes -1 the
      product is 1, so neither test fires, yet the grid built from these
      sizes has no tile at all. */
  lemma NegativeSizesAccepted()
    ensures SaveInput(1, -1, -1) == Accepted
    ensures NumTiles(-1, -1) == 0
  {
  }

  /** A negative mine amount is accepted too. */
  lemma NegativeMinesAccepted()
    ensures SaveInput(-1, 3, 3) == Accepted
  {
  }

  /** The check with the evidently intended ranges: the sizes and the mine
      amount must be positive as well. The source's two tests keep their
      order and their messages; the new test comes last. */
  function CheckedInput(mineAmount: int, sizeX: int, sizeY: int): (r: InputCheck)
    ensures r == Accepted ==> SaveInput(mineAmount, sizeX, sizeY) == Accepted
    ensures SaveInput(mineAmount, sizeX, sizeY) != Accepted ==> r == SaveInput(mineAmount, sizeX, sizeY)
  {
    var r := SaveInput(mineAmount, sizeX, sizeY);
    if r != Accepted then r
    else if sizeX < 0 || sizeY < 0 || mineAmount < 0 then NotPositive
    else Accepted
  }

  /** The corrected check accepts exactly the inputs for which the grid has
      `sizeX * sizeY` tiles and the mine amount lies between 1 and that. */
  lemma CheckedInputExact(mineAmount: int, sizeX: int, sizeY: int)
    ensures CheckedInput(mineAmount, sizeX, sizeY) == Accepted <==>
      0 < sizeX && 0 < sizeY && 0 < mineAmount <= sizeX * sizeY
    ensures CheckedInput(mineAmount, sizeX, sizeY) == Accepted ==>
      NumTiles(sizeX, sizeY) == sizeX * sizeY && Span(mineAmount) == mineAmount
  {
    if 0 < sizeX && 0 < sizeY && 0 < mineAmount <= sizeX * sizeY {
      assert SaveInput(mineAmount, sizeX, sizeY) == Accepted;
    }
    if CheckedInput(mineAmount, sizeX, sizeY) == Accepted {
      assert 0 <= sizeX && 0 <= sizeY;
      assert sizeX != 0 && sizeY != 0;
    }
  }
}
