/** The cell record of the board (Connect4Blazor/Client/Data/Chip.cs). */
module Data {

  /** The colours a chip can show. `White` is the colour of a cell no piece occupies;
      the two players' pieces are `Red` and `Yellow`. */
  datatype Color = White | Red | Yellow

  /** The colour of an empty cell. */
  const DefaultColor: Color := White

  /** One cell of the board. Row and Column are fixed when the chip is made (nothing
      reassigns them once the board is built); the colour changes as pieces are
      dropped and the board is cleared. Nothing in the chip itself ties its position
      to where it sits in the board. */
  class Chip {
    const Row: int
    const Column: int
    var Color: Color

    /** `new Chip { Row = row, Column = column }`: the position as supplied, unchecked,
        and the default colour, so a new chip is an empty cell. */
    constructor (row: int, column: int)
      ensures Row == row && Column == column && Color == DefaultColor
    {
      Row := row;
      Column := column;
      Color := DefaultColor;
    }
  }
}
