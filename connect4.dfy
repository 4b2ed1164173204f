/** The Connect-Four view model (Connect4Blazor/Client/ViewModels/Connect4ViewModel.cs):
    the board of chips, whose turn it is, whether the game is over, and the
    operations the page calls on a click and on a new game. */
module ViewModels {
  import opened Data
  import opened Rules

  class Connect4ViewModel {
    /** The column of the last accepted click; 8 (no column) before the first one. */
    var ClickedColumn: int
    /** Index into `Players` of the player whose piece goes in next. */
    var ActivePlayer: int
    var GameOver: bool
    /** The cells of the board in row-major order. */
    const Chips: seq<Chip>
    /** The colours of `Chips`, kept in step with them. */
    ghost var Board: Grid

    /** The board holds Size chips and the chip at index i records its own position:
        a cell of the board whose index is i. */
    ghost predicate Indexed()
    {
      && |Chips| == Size
      && (forall i :: 0 <= i < Size ==>
            InBounds(Chips[i].Row, Chips[i].Column) && GetChipIndex(Chips[i].Row, Chips[i].Column) == i)
    }

    /** `Board` gives the colours of the chips. */
    ghost predicate Consistent()
      reads this`Board, Chips
    {
      && |Chips| == Size
      && (forall i :: 0 <= i < Size ==> Chips[i].Color == Board[i])
    }

    /** The active player is one of the two players. */
    predicate HasTurn()
      reads this`ActivePlayer
    {
      0 <= ActivePlayer < |Players|
    }

    /** The object invariant: the chips are indexed and consistent with `Board`, and
        the game on `Board` is settled (gravity holds, and the game is over exactly
        when the active player has four in a line). */
    ghost predicate Valid()
      reads this, Chips
    {
      Indexed() && Consistent() && Settled(State())
    }

    /** The part of the state a click changes besides the remembered column. */
    ghost function State(): Game
      reads this`Board, this`GameOver, this`ActivePlayer
    {
      Game(Board, GameOver, ActivePlayer)
    }

    /** Indexed chips are distinct objects, so a chip's colour can be set without
        changing any other cell. */
    lemma ChipsAreDistinct()
      requires Indexed()
      ensures forall i, j :: 0 <= i < j < Size ==> Chips[i] != Chips[j]
    {
    }

    /** The chip is empty and records the position of index i. */
    static ghost predicate IsEmptyCellAt(chip: Chip, i: int)
      reads chip
    {
      InBounds(chip.Row, chip.Column) && GetChipIndex(chip.Row, chip.Column) == i && chip.Color == DefaultColor
    }

    /** Builds the Rows x Columns empty chips row by row; red moves first. */
    constructor ()
      ensures Valid()
      ensures Board == EmptyGrid()
      ensures forall i :: 0 <= i < |Chips| ==> fresh(Chips[i])
      ensures ActivePlayer == 0 && !GameOver && ClickedColumn == 8
    {
      var chips: seq<Chip> := [];
      for row := 0 to Rows
        invariant |chips| == 7 * row
        invariant forall i :: 0 <= i < |chips| ==> fresh(chips[i]) && IsEmptyCellAt(chips[i], i)
      {
        for col := 0 to Columns
          invariant |chips| == 7 * row + col
          invariant forall i :: 0 <= i < |chips| ==> fresh(chips[i]) && IsEmptyCellAt(chips[i], i)
        {
          var chip := new Chip(row, col);
          chips := chips + [chip];
        }
      }
      ClickedColumn := 8;
      ActivePlayer := 0;
      GameOver := false;
      Chips := chips;
      Board := EmptyGrid();
      new;
      EmptyGridIsSettled(ActivePlayer);
    }

    /** A click on any chip of a column. When the game is over nothing changes. Else
        the column is remembered; if its top cell is occupied nothing else changes;
        otherwise the active player's piece lands on the lowest empty cell of the
        column, and then either the game is over with that player as the winner or
        the turn passes to the other player. */
    method MouseClick(chip: Chip)
      requires Valid()
      requires !GameOver ==> 0 <= chip.Column < Columns
      modifies this, Chips
      ensures Valid()
      ensures State() == Click(old(State()), chip.Column)
      ensures ClickedColumn == if old(GameOver) then old(ClickedColumn) else chip.Column
    {
      if GameOver {
        return;
      }
      ghost var g := State();
      ClickedColumn := chip.Column;
      if Chips[ClickedColumn].Color == DefaultColor {
        DropPiece(ClickedColumn, Players[ActivePlayer]);
        EndTurn();
        ClickOutcome(g, ClickedColumn, State());
      }
    }

    /** The end of a move that dropped a piece: if the mover now has four in a line
        the game is over and the mover stays the active player, otherwise the turn
        passes to the other player. */
    method EndTurn()
      requires Consistent() && HasTurn() && !GameOver
      modifies this`GameOver, this`ActivePlayer
      ensures GameOver == FourInALine(Board, Players[old(ActivePlayer)])
      ensures ActivePlayer == if GameOver then old(ActivePlayer) else (old(ActivePlayer) + 1) % 2
    {
      var won := CheckForWinner();
      if won {
        GameOver := true;
        return;
      }
      SwitchPlayer();
    }

    /** `Chips[index].Color = color`, with `Board` following. */
    method SetColor(index: int, color: Color)
      requires Indexed() && Consistent() && 0 <= index < Size
      modifies Chips[index], this`Board
      ensures Indexed() && Consistent() && Board == old(Board)[index := color]
    {
      ChipsAreDistinct();
      Chips[index].Color := color;
      Board := Board[index := color];
    }

    /** One pass of the drop loop at a given row: the piece is painted on the cell and
        wiped off again when the cell below exists and is empty, so the piece stays
        exactly when it has landed (bottom row, or an occupied cell below). */
    method TryLand(row: int, column: int, color: Color) returns (landed: bool)
      requires Indexed() && Consistent()
      requires 0 <= row < Rows && 0 <= column < Columns && !Occupied(Board, row, column)
      modifies Chips[7 * row + column], this`Board
      ensures Indexed() && Consistent()
      ensures landed == (row + 1 == Rows || Occupied(old(Board), row + 1, column))
      ensures Board == if landed then old(Board)[GetChipIndex(row, column) := color] else old(Board)
    {
      var index := 7 * row + column;
      SetColor(index, color);
      var next := 7 * (row + 1) + column;
      if next < Size && Chips[next].Color == DefaultColor {
        SetColor(index, DefaultColor);
        landed := false;
      } else {
        landed := true;
      }
    }

    /** The drop loop of a click: walking down the column from the top row, the piece
        comes to rest on the cell `Drop` names, the lowest empty cell of the column,
        and no other cell changes. The loop stops at the landing row, so the board is
        unchanged on every pass before it. */
    method DropPiece(column: int, color: Color)
      requires Indexed() && Consistent()
      requires 0 <= column < Columns && !Occupied(Board, 0, column)
      modifies Chips, this`Board
      ensures Indexed() && Consistent()
      ensures Board == Drop(old(Board), column, color)
    {
      ghost var before := Board;
      ghost var landing := LandingRow(before, column);
      var row := 0;
      while row < Rows
        modifies Chips, this`Board
        invariant 0 <= row < Rows && !Occupied(before, row, column)
        invariant LandingFrom(before, column, row) == landing
        invariant Indexed() && Consistent() && Board == before
      {
        var landed := TryLand(row, column, color);
        if landed {
          break;
        }
        row := row + 1;
      }
    }

    /** Empties every cell and starts a new game; the turn and the remembered column
        stay as they were. */
    method Reset()
      requires Valid()
      modifies this, Chips
      ensures Valid()
      ensures Board == EmptyGrid() && !GameOver
      ensures ActivePlayer == old(ActivePlayer) && ClickedColumn == old(ClickedColumn)
    {
      for i := 0 to |Chips|
        modifies Chips, this`Board
        invariant Indexed() && Consistent()
        invariant forall k :: 0 <= k < i ==> Board[k] == DefaultColor
      {
        Chips[i].Color := DefaultColor;
        Board := Board[i := DefaultColor];
      }
      assert Board == EmptyGrid();
      GameOver := false;
      EmptyGridIsSettled(ActivePlayer);
    }

    /** Passes the turn to the other player. */
    method SwitchPlayer()
      requires HasTurn()
      modifies this`ActivePlayer
      ensures ActivePlayer == (old(ActivePlayer) + 1) % 2
    {
      ActivePlayer := ActivePlayer + 1;
      ActivePlayer := ActivePlayer % 2;
    }

    /** The active player has four in a line in one of the four directions. */
    method CheckForWinner() returns (won: bool)
      requires Consistent() && HasTurn()
      ensures won == FourInALine(Board, Players[ActivePlayer])
    {
      won := HorizontalCheck();
      if !won {
        won := VerticalCheck();
      }
      if !won {
        won := DiagonalRightCheck();
      }
      if !won {
        won := DiagonalLeftCheck();
      }
    }

    /** Scans each row left to right with a run-length counter that counts cells of
        the active player's colour and drops to zero on any other cell. */
    method HorizontalCheck() returns (won: bool)
      requires Consistent() && HasTurn()
      ensures won == HorizontalWin(Board, Players[ActivePlayer])
    {
      var currentPlayerColor := Players[ActivePlayer];
      for row := 0 to Rows
        invariant forall r, c :: r < row ==> !LineOfFour(Board, currentPlayerColor, r, c, 0, 1)
      {
        var chipCount := 0;
        for col := 0 to Columns
          invariant 0 <= chipCount <= col && chipCount < 4
          invariant forall k :: col - chipCount <= k < col ==> Owns(Board, currentPlayerColor, row, k)
          invariant chipCount < col ==> !Owns(Board, currentPlayerColor, row, col - 1 - chipCount)
          invariant forall c :: c + 4 <= col ==> !LineOfFour(Board, currentPlayerColor, row, c, 0, 1)
        {
          var index := GetChipIndex(row, col);
          if Chips[index].Color == currentPlayerColor {
            chipCount := chipCount + 1;
          } else {
            chipCount := 0;
          }
          if chipCount == 4 {
            assert LineOfFour(Board, currentPlayerColor, row, col - 3, 0, 1);
            return true;
          }
        }
      }
      return false;
    }

    /** Scans each column top to bottom with the same run-length counter. */
    method VerticalCheck() returns (won: bool)
      requires Consistent() && HasTurn()
      ensures won == VerticalWin(Board, Players[ActivePlayer])
    {
      var currentPlayerColor := Players[ActivePlayer];
      for col := 0 to Columns
        invariant forall r, c :: c < col ==> !LineOfFour(Board, currentPlayerColor, r, c, 1, 0)
      {
        var chipCount := 0;
        for row := 0 to Rows
          invariant 0 <= chipCount <= row && chipCount < 4
          invariant forall k :: row - chipCount <= k < row ==> Owns(Board, currentPlayerColor, k, col)
          invariant chipCount < row ==> !Owns(Board, currentPlayerColor, row - 1 - chipCount, col)
          invariant forall r :: r + 4 <= row ==> !LineOfFour(Board, currentPlayerColor, r, col, 1, 0)
        {
          var index := GetChipIndex(row, col);
          if Chips[index].Color == currentPlayerColor {
            chipCount := chipCount + 1;
          } else {
            chipCount := 0;
          }
          if chipCount == 4 {
            assert LineOfFour(Board, currentPlayerColor, row - 3, col, 1, 0);
            return true;
          }
        }
      }
      return false;
    }

    /** Tries every start cell, bottom row first and each row left to right, and
        reports a win when the up-right run from it is exactly four long. */
    method DiagonalRightCheck() returns (won: bool)
      requires Consistent() && HasTurn()
      ensures won == DiagonalRightWin(Board, Players[ActivePlayer])
    {
      for row := Rows downto 0
        invariant forall r, c :: row <= r < Rows && 0 <= c < Columns ==>
          !IsMaximalRun(Board, Players[ActivePlayer], r, c, -1, 1, 4)
      {
        var chipCount := 0;
        for col := 0 to Columns
          invariant chipCount == 0
          invariant forall c :: 0 <= c < col ==> !IsMaximalRun(Board, Players[ActivePlayer], row, c, -1, 1, 4)
        {
          chipCount := NextDiagRight(row, col, chipCount);
          assert chipCount != 4 ==> !IsMaximalRun(Board, Players[ActivePlayer], row, col, -1, 1, 4) by {
            MaximalRunUnique(Board, Players[ActivePlayer], row, col, -1, 1, chipCount, 4);
          }
          if chipCount == 4 {
            assert DiagonalRightWin(Board, Players[ActivePlayer]) by {
              MaximalFourIsLine(Board, Players[ActivePlayer], row, col, -1, 1);
            }
            return true;
          } else {
            chipCount := 0;
          }
        }
      }
      assert !DiagonalRightWin(Board, Players[ActivePlayer]) by {
        DiagonalRunsMatchLines(Board, Players[ActivePlayer], 1);
      }
      return false;
    }

    /** From (row, col), counts onward the cells of the active player's colour going
        up and to the right: the result is chipCount plus the length of that maximal
        run, and no cell off the board is read. */
    function NextDiagRight(row: int, col: int, chipCount: int): (count: int)
      requires Consistent() && HasTurn()
      reads this`Board, this`ActivePlayer, Chips
      decreases row + 1
      ensures count >= chipCount
      ensures IsMaximalRun(Board, Players[ActivePlayer], row, col, -1, 1, count - chipCount)
    {
      if 0 <= row < Rows && 0 <= col < Columns then
        var index := GetChipIndex(row, col);
        if Chips[index].Color == Players[ActivePlayer] then
          NextDiagRight(row - 1, col + 1, chipCount + 1)
        else
          chipCount
      else
        chipCount
    }

    /** Tries every start cell, bottom row first and each row right to left, and
        reports a win when the up-left run from it is exactly four long. */
    method DiagonalLeftCheck() returns (won: bool)
      requires Consistent() && HasTurn()
      ensures won == DiagonalLeftWin(Board, Players[ActivePlayer])
    {
      for row := Rows downto 0
        invariant forall r, c :: row <= r < Rows && 0 <= c < Columns ==>
          !IsMaximalRun(Board, Players[ActivePlayer], r, c, -1, -1, 4)
      {
        var chipCount := 0;
        for col := Columns downto 0
          invariant chipCount == 0
          invariant forall c :: col <= c < Columns ==> !IsMaximalRun(Board, Players[ActivePlayer], row, c, -1, -1, 4)
        {
          chipCount := NextDiagLeft(row, col, chipCount);
          assert chipCount != 4 ==> !IsMaximalRun(Board, Players[ActivePlayer], row, col, -1, -1, 4) by {
            MaximalRunUnique(Board, Players[ActivePlayer], row, col, -1, -1, chipCount, 4);
          }
          if chipCount == 4 {
            assert DiagonalLeftWin(Board, Players[ActivePlayer]) by {
              MaximalFourIsLine(Board, Players[ActivePlayer], row, col, -1, -1);
            }
            return true;
          } else {
            chipCount := 0;
          }
        }
      }
      assert !DiagonalLeftWin(Board, Players[ActivePlayer]) by {
        DiagonalRunsMatchLines(Board, Players[ActivePlayer], -1);
      }
      return false;
    }

    /** From (row, col), counts onward the cells of the active player's colour going
        up and to the left: the result is chipCount plus the length of that maximal
        run, and no cell off the board is read. */
    function NextDiagLeft(row: int, col: int, chipCount: int): (count: int)
      requires Consistent() && HasTurn()
      reads this`Board, this`ActivePlayer, Chips
      decreases row + 1
      ensures count >= chipCount
      ensures IsMaximalRun(Board, Players[ActivePlayer], row, col, -1, -1, count - chipCount)
    {
      if 0 <= row < Rows && 0 <= col < Columns then
        var index := GetChipIndex(row, col);
        if Chips[index].Color == Players[ActivePlayer] then
          NextDiagLeft(row - 1, col - 1, chipCount + 1)
        else
          chipCount
      else
        chipCount
    }
  }
}
