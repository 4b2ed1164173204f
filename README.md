# Connect Four view model in Dafny

This project models the game engine of the Connect4Blazor web application: the
view model `Connect4ViewModel` and the cell record `Chip`. It proves that the engine
follows the rules of Connect Four. The board has 6 rows and 7 columns, 42 chips in
row-major order, with row 0 at the top. Red (player 0) moves first. A click on a column
drops the active player's piece onto the lowest empty cell of that column. Four in a
line horizontally, vertically or on either diagonal ends the game, and the winner
stays the active player. Any other move passes the turn. Reset clears the board.

The model has three modules, one per file:

- `Data` (`chip.dfy`) covers `Chip.cs`. It holds the colours (`White` for an empty
  cell, `Red`, `Yellow`), the constant `DefaultColor`, and the class `Chip` with its
  position and mutable colour.
- `Rules` (`rules.dfy`) is a declarative statement of the game over a sequence of 42
  colours (`Grid`). It defines:
  - the index map;
  - four in a line in each direction;
  - maximal runs along a diagonal;
  - gravity (`Stacked`);
  - the landing row of a drop and the board after it (`Drop`);
  - the game state `Game`, its invariant `Settled`, and the effect of one click
    (`Click`).
- `ViewModels` (`connect4.dfy`) is the class `Connect4ViewModel`. It keeps the
  source's fields `ClickedColumn`, `ActivePlayer`, `GameOver` and `Chips` and all of
  its methods except `GetChipIndex`, and adds a ghost `Board` that follows the chips'
  colours. The source's members `Rows`, `Columns`, `Players` and `GetChipIndex` never
  change, so they are constants and a function of the module `Rules`.
  Each method is proved against the `Rules` definitions. `MouseClick` does exactly
  what `Click` says, and the object invariant `Valid()` is kept by the constructor,
  `MouseClick` and `Reset`. `Valid()` consists of:
  - the chips record their own positions;
  - `Board` matches the chips;
  - gravity holds;
  - the game is over exactly when the active player has four in a line;
  - while it is not over, nobody has four in a line.

The loop in `MouseClick` (source lines 48-61) and the steps after it (lines 62-68) are
written as the helper methods `DropPiece`, `TryLand`, `SetColor` and `EndTurn`. The
helpers keep the source's statements in the same order, including the paint-then-wipe
step of the drop loop.

The model follows the code in these points:

- a click returns no result code;
- `Reset` keeps the active player and the remembered column as they were;
- the diagonal checks compare the run with `== 4`, and the model proves that this still
  finds runs of five or six.

## Model

| member | source | states |
|---|---|---|
| Data.Chip.constructor | Connect4Blazor/Client/Data/Chip.cs:11-26 | a new chip stores the row and column it is given, and its colour is the default colour (an empty cell) |
| Rules.GetChipIndex | Connect4Blazor/Client/ViewModels/Connect4ViewModel.cs:231-234 | every cell of the 6 x 7 board has its row-major index in 0..41 |
| Rules.IndexMapIsBijection | Connect4Blazor/Client/ViewModels/Connect4ViewModel.cs:231-234 | the index map is a bijection: row and column are read back from the index, and every index 0..41 belongs to exactly one cell |
| Rules.LandingFrom | Connect4Blazor/Client/ViewModels/Connect4ViewModel.cs:48-61 | scanning a column down from an empty cell stops at the last empty cell, the one above an occupied cell or the bottom row; every cell passed is empty |
| Rules.LandingRow | Connect4Blazor/Client/ViewModels/Connect4ViewModel.cs:48-61 | a piece dropped into a column whose top cell is empty comes to rest on an empty cell that is the bottom row or rests on a piece, with every cell above it empty |
| Rules.Click | Connect4Blazor/Client/ViewModels/Connect4ViewModel.cs:38-70 | a game that is over keeps its active player; a game that is not over still has a valid active player afterwards |
| Rules.ClickOutcome | Connect4Blazor/Client/ViewModels/Connect4ViewModel.cs:46-68 | from a settled game, dropping the mover's piece, ending the game if the mover has four in a line and otherwise passing the turn to (turn + 1) % 2, yields exactly the game `Click` describes, and that game is settled |
| Rules.ClickKeepsSettled | Connect4Blazor/Client/ViewModels/Connect4ViewModel.cs:38-70 | every click keeps gravity and the game-over invariant: over exactly when the player to move has four in a line, otherwise nobody has |
| Rules.DropIsGravityPlacement | Connect4Blazor/Client/ViewModels/Connect4ViewModel.cs:46-61 | a drop onto a stacked board changes exactly one cell, the lowest empty cell of the column, from empty to the piece's colour; cells above it are empty and cells below it occupied |
| Rules.DropKeepsStacked | Connect4Blazor/Client/ViewModels/Connect4ViewModel.cs:48-61 | dropping a piece keeps every column stacked from the bottom up |
| Rules.EmptyGridIsSettled | Connect4Blazor/Client/ViewModels/Connect4ViewModel.cs:22-36 | the empty board with the game not over satisfies the game invariant for either player to move |
| Rules.PlacingKeepsOthersLineless | Connect4Blazor/Client/ViewModels/Connect4ViewModel.cs:62-68 | placing a piece of one colour never gives the other colour four in a line, so only the mover can have won |
| Rules.AllDirectionsCovered | Connect4Blazor/Client/ViewModels/Connect4ViewModel.cs:90-98 | four in a line in any of the eight directions is found by one of the four scanned directions |
| Rules.MaximalRunUnique | Connect4Blazor/Client/ViewModels/Connect4ViewModel.cs:176-190 | from a given cell and direction there is only one maximal run length |
| Rules.MaximalFourIsLine | Connect4Blazor/Client/ViewModels/Connect4ViewModel.cs:154-174 | a maximal diagonal run of exactly four is four in a line |
| Rules.LineEndsInMaximalFour | Connect4Blazor/Client/ViewModels/Connect4ViewModel.cs:154-174 | a diagonal line of four of any length ends in a start cell from which the run is exactly four, so the `== 4` test finds runs longer than four |
| Rules.DiagonalRunsMatchLines | Connect4Blazor/Client/ViewModels/Connect4ViewModel.cs:154-212 | some start cell has a maximal diagonal run of exactly four if and only if there are four in a line along that diagonal |
| ViewModels.Connect4ViewModel.ChipsAreDistinct | Connect4Blazor/Client/ViewModels/Connect4ViewModel.cs:22-36 | chips that record their own distinct positions are distinct objects |
| ViewModels.Connect4ViewModel.constructor | Connect4Blazor/Client/ViewModels/Connect4ViewModel.cs:9-36 | 42 fresh chips, each recording the row and column of its index and empty; red to move; game not over; remembered column 8; object invariant established |
| ViewModels.Connect4ViewModel.MouseClick | Connect4Blazor/Client/ViewModels/Connect4ViewModel.cs:38-70 | the new board, game-over flag and active player are those of `Click`: no change when the game is over; only the remembered column changes when the column is full; otherwise one piece lands on the lowest empty cell and the game ends on four in a line or the turn passes; the object invariant is kept |
| ViewModels.Connect4ViewModel.EndTurn | Connect4Blazor/Client/ViewModels/Connect4ViewModel.cs:62-68 | the game is over exactly when the mover has four in a line; the active player is kept on a win and becomes (old + 1) % 2 otherwise |
| ViewModels.Connect4ViewModel.SetColor | Connect4Blazor/Client/ViewModels/Connect4ViewModel.cs:51 | setting one chip's colour changes exactly that cell of the board |
| ViewModels.Connect4ViewModel.TryLand | Connect4Blazor/Client/ViewModels/Connect4ViewModel.cs:50-59 | one pass of the drop loop leaves the piece on the cell exactly when the cell below is off the board or occupied, and leaves the board as it was otherwise |
| ViewModels.Connect4ViewModel.DropPiece | Connect4Blazor/Client/ViewModels/Connect4ViewModel.cs:48-61 | the drop loop leaves the board as `Drop` describes: the piece on the lowest empty cell of the column and every other cell unchanged |
| ViewModels.Connect4ViewModel.Reset | Connect4Blazor/Client/ViewModels/Connect4ViewModel.cs:74-82 | every chip is empty, the game is not over, the active player and remembered column are unchanged, and the object invariant holds |
| ViewModels.Connect4ViewModel.SwitchPlayer | Connect4Blazor/Client/ViewModels/Connect4ViewModel.cs:84-88 | the active player becomes (old + 1) % 2 |
| ViewModels.Connect4ViewModel.CheckForWinner | Connect4Blazor/Client/ViewModels/Connect4ViewModel.cs:90-98 | true exactly when the active player has four in a line horizontally, vertically or on either diagonal |
| ViewModels.Connect4ViewModel.HorizontalCheck | Connect4Blazor/Client/ViewModels/Connect4ViewModel.cs:100-125 | true exactly when some row holds four consecutive cells of the active player's colour |
| ViewModels.Connect4ViewModel.VerticalCheck | Connect4Blazor/Client/ViewModels/Connect4ViewModel.cs:127-152 | true exactly when some column holds four consecutive cells of the active player's colour |
| ViewModels.Connect4ViewModel.DiagonalRightCheck | Connect4Blazor/Client/ViewModels/Connect4ViewModel.cs:154-174 | true exactly when the active player has four in a line going up and to the right, runs longer than four included |
| ViewModels.Connect4ViewModel.NextDiagRight | Connect4Blazor/Client/ViewModels/Connect4ViewModel.cs:176-190 | the result is the count passed in plus the length of the maximal up-right run of the active player's colour from the cell; only cells on the board are read |
| ViewModels.Connect4ViewModel.DiagonalLeftCheck | Connect4Blazor/Client/ViewModels/Connect4ViewModel.cs:192-212 | true exactly when the active player has four in a line going up and to the left, runs longer than four included |
| ViewModels.Connect4ViewModel.NextDiagLeft | Connect4Blazor/Client/ViewModels/Connect4ViewModel.cs:214-229 | the result is the count passed in plus the length of the maximal up-left run of the active player's colour from the cell; only cells on the board are read |

## Left out

- The console output in `NextDiagLeft` (source line 223) is I/O and is not modelled.
- `Chips` is an `ObservableCollection` that the page binds to. The model keeps the
  chips as a sequence fixed at construction, and leaves out change notification and the
  page itself.
- The public setters of `Chips`, `Chip.Row` and `Chip.Column`: no code in the view
  model reassigns them after construction, so the model makes them constant.
- `Players` is a public mutable array and `Chip.DefaultColor` a public static mutable
  field. The model treats both as constants and the colour strings as the three
  values of `Color`.
- `ViewModels.Connect4ViewModel.MouseClick`: requires the clicked chip's column to be
  0..6 while the game is not over. The page sends only chips of the board. The source
  with another column indexes `Chips` out of range, or (for a column of 7..41) reads a
  cell that is not in the top row. The model does not describe that behaviour.
- `ViewModels.Connect4ViewModel.SwitchPlayer`: requires the active player to be 0 or
  1, as the object invariant guarantees. C#'s `%` truncates toward zero while Dafny's
  is Euclidean, and the two agree only on non-negative values, so the model does not
  describe the method on a negative active player. The only caller, `EndTurn`, always
  meets this requirement.
- The field initialisers and the nested loops of the source make up one constructor.
  `Rows * Columns` is written as the literal 42 and `Columns * row` as `7 * row`, to
  keep the arithmetic linear; the values are the same.
- The interface `IConnect4ViewModel` is not part of this model.
