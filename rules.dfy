/** The rules of the game stated over the colours of the board alone: the index map,
    four in a line, maximal diagonal runs, gravity and where a dropped piece lands.
    The view model's methods are proved against these definitions. */
module Rules {
  import opened Data

  const Rows: int := 6
  const Columns: int := 7
  /** Rows * Columns, the number of cells, written out as a literal (as is the 7 in
      GetChipIndex) so that the solver's arithmetic stays linear. */
  const Size: int := 42

  /** Player 0 plays red, player 1 yellow. */
  const Players: seq<Color> := [Red, Yellow]

  /** The colours of the board, row-major: cell (row, col) is at `GetChipIndex(row, col)`. */
  type Grid = s: seq<Color> | |s| == Size witness seq(Size, _ => DefaultColor)

  /** The board with every cell empty. */
  function EmptyGrid(): Grid
  {
    seq(Size, _ => DefaultColor)
  }

  predicate InBounds(row: int, col: int)
  {
    0 <= row < Rows && 0 <= col < Columns
  }

  /** The row-major index of cell (row, col), `Columns * row + col`; every cell of the
      board has an index in 0 .. Size-1. */
  function GetChipIndex(row: int, col: int): (index: int)
    ensures InBounds(row, col) ==> 0 <= index < Size
  {
    7 * row + col
  }

  /** The index map is a bijection between the cells and 0 .. Size-1: the row and
      column can be read back from the index, and every index is some cell's. */
  lemma IndexMapIsBijection(row: int, col: int, i: int)
    ensures InBounds(row, col) ==>
      GetChipIndex(row, col) / Columns == row && GetChipIndex(row, col) % Columns == col
    ensures 0 <= i < Size ==>
      InBounds(i / Columns, i % Columns) && GetChipIndex(i / Columns, i % Columns) == i
  {
  }

  /** Cell (row, col) is on the board and shows colour c. */
  predicate Owns(b: Grid, c: Color, row: int, col: int)
  {
    InBounds(row, col) && b[GetChipIndex(row, col)] == c
  }

  /** Cell (row, col) is on the board and holds a piece. */
  predicate Occupied(b: Grid, row: int, col: int)
  {
    InBounds(row, col) && b[GetChipIndex(row, col)] != DefaultColor
  }

  /** Four consecutive cells of colour c, from (row, col) in steps of (dr, dc). */
  predicate LineOfFour(b: Grid, c: Color, row: int, col: int, dr: int, dc: int)
  {
    Owns(b, c, row, col) && Owns(b, c, row + dr, col + dc) &&
    Owns(b, c, row + 2 * dr, col + 2 * dc) && Owns(b, c, row + 3 * dr, col + 3 * dc)
  }

  ghost predicate HorizontalWin(b: Grid, c: Color)
  {
    exists row, col :: LineOfFour(b, c, row, col, 0, 1)
  }

  ghost predicate VerticalWin(b: Grid, c: Color)
  {
    exists row, col :: LineOfFour(b, c, row, col, 1, 0)
  }

  /** A diagonal going up (towards row 0) and to the right. */
  ghost predicate DiagonalRightWin(b: Grid, c: Color)
  {
    exists row, col :: LineOfFour(b, c, row, col, -1, 1)
  }

  /** A diagonal going up (towards row 0) and to the left. */
  ghost predicate DiagonalLeftWin(b: Grid, c: Color)
  {
    exists row, col :: LineOfFour(b, c, row, col, -1, -1)
  }

  /** Colour c has four in a line on the board. */
  ghost predicate FourInALine(b: Grid, c: Color)
  {
    HorizontalWin(b, c) || VerticalWin(b, c) || DiagonalRightWin(b, c) || DiagonalLeftWin(b, c)
  }

  /** Neither player has four in a line. */
  ghost predicate NoWinner(b: Grid)
  {
    !FourInALine(b, Red) && !FourInALine(b, Yellow)
  }

  /** Starting at (row, col) and stepping (dr, dc), exactly the first n cells show
      colour c: the run is n long and the cell after it is off the board or another colour. */
  predicate IsMaximalRun(b: Grid, c: Color, row: int, col: int, dr: int, dc: int, n: nat)
    decreases n
  {
    if n == 0 then !Owns(b, c, row, col)
    else Owns(b, c, row, col) && IsMaximalRun(b, c, row + dr, col + dc, dr, dc, n - 1)
  }

  /** Gravity: below every occupied cell the cell is occupied too, so in every column
      the pieces form one block resting on the bottom row. */
  ghost predicate Stacked(b: Grid)
  {
    forall row, below, col :: Occupied(b, row, col) && row <= below < Rows ==> Occupied(b, below, col)
  }

  /** Scanning column col downward from an empty cell at `row`: the cell where the
      scan stops, which is the last of the empty cells met before an occupied cell
      or the bottom of the board. */
  function LandingFrom(b: Grid, col: int, row: int): (r: int)
    requires 0 <= col < Columns && 0 <= row < Rows && !Occupied(b, row, col)
    decreases Rows - row
    ensures row <= r < Rows
    ensures forall k :: row <= k <= r ==> !Occupied(b, k, col)
    ensures r == Rows - 1 || Occupied(b, r + 1, col)
  {
    if row == Rows - 1 || Occupied(b, row + 1, col) then row
    else LandingFrom(b, col, row + 1)
  }

  /** The row a piece dropped into column col comes to rest in, given that the top
      cell of the column is empty: every cell above it and the cell itself are empty,
      and it is the bottom row or rests on a piece. */
  function LandingRow(b: Grid, col: int): (r: int)
    requires 0 <= col < Columns && !Occupied(b, 0, col)
    ensures 0 <= r < Rows
    ensures forall k :: 0 <= k <= r ==> !Occupied(b, k, col)
    ensures r == Rows - 1 || Occupied(b, r + 1, col)
  {
    LandingFrom(b, col, 0)
  }

  /** The board after a piece of colour c is dropped into column col. */
  function Drop(b: Grid, col: int, c: Color): Grid
    requires 0 <= col < Columns && !Occupied(b, 0, col)
  {
    b[GetChipIndex(LandingRow(b, col), col) := c]
  }

  /** What a click can change besides the remembered column: the board, whether the
      game is over, and the index into Players of the player to move. */
  datatype Game = Game(board: Grid, over: bool, turn: int)

  /** The state of a game between moves: gravity holds in every column, and the game
      is over exactly when some player has four in a line, that player being the one
      whose piece went in last (the turn does not pass on a winning move). */
  ghost predicate Settled(g: Game)
  {
    && 0 <= g.turn < |Players|
    && Stacked(g.board)
    && (g.over ==> FourInALine(g.board, Players[g.turn]))
    && (!g.over ==> NoWinner(g.board))
  }

  /** The game after a click on column col. Once the game is over nothing changes, and
      nothing changes when the top cell of the column is occupied. Otherwise the piece
      of the player to move is dropped into the column; four in a line then ends the
      game with the mover still to move, and any other move passes the turn on. */
  ghost function Click(g: Game, col: int): (r: Game)
    requires !g.over ==> 0 <= col < Columns && 0 <= g.turn < |Players|
    ensures r.over ==> r.turn == g.turn
    ensures !r.over ==> 0 <= r.turn < |Players|
  {
    if g.over || Occupied(g.board, 0, col) then g
    else
      var d := Drop(g.board, col, Players[g.turn]);
      if FourInALine(d, Players[g.turn]) then Game(d, true, g.turn)
      else Game(d, false, (g.turn + 1) % 2)
  }

  /** The outcome of a click that drops a piece: once the drop is made and the mover
      checked for four in a line, ending the game on a win and passing the turn on
      otherwise, the resulting game is the one `Click` describes and it is settled
      again. */
  lemma ClickOutcome(g: Game, col: int, r: Game)
    requires Settled(g) && !g.over && 0 <= col < Columns && !Occupied(g.board, 0, col)
    requires r.board == Drop(g.board, col, Players[g.turn])
    requires r.over == FourInALine(r.board, Players[g.turn])
    requires r.turn == if r.over then g.turn else (g.turn + 1) % 2
    ensures Click(g, col) == r && Settled(r)
  {
    var p := Players[g.turn];
    var q := Players[1 - g.turn];
    DropKeepsStacked(g.board, col, p);
    PlacingKeepsOthersLineless(g.board, GetChipIndex(LandingRow(g.board, col), col), p, q);
  }

  /** Every click keeps a game settled: gravity holds afterwards, and the game is over
      exactly when the player still to move has four in a line. */
  lemma ClickKeepsSettled(g: Game, col: int)
    requires Settled(g) && (!g.over ==> 0 <= col < Columns)
    ensures Settled(Click(g, col))
  {
    if !g.over && !Occupied(g.board, 0, col) {
      var d := Drop(g.board, col, Players[g.turn]);
      var won := FourInALine(d, Players[g.turn]);
      ClickOutcome(g, col, Game(d, won, if won then g.turn else (g.turn + 1) % 2));
    }
  }

  /** On a stacked board a dropped piece lands on the lowest empty cell of its column:
      the landing cell is empty, every cell above it is empty and every cell below it
      is occupied. The dropped piece is the only change: that cell goes from empty to
      c and every other cell keeps its colour. */
  lemma DropIsGravityPlacement(b: Grid, col: int, c: Color)
    requires Stacked(b) && 0 <= col < Columns && !Occupied(b, 0, col)
    ensures var r := LandingRow(b, col);
      && (forall k :: 0 <= k <= r ==> !Occupied(b, k, col))
      && (forall k :: r < k < Rows ==> Occupied(b, k, col))
      && Drop(b, col, c)[GetChipIndex(r, col)] == c
      && (forall i :: 0 <= i < Size && i != GetChipIndex(r, col) ==> Drop(b, col, c)[i] == b[i])
  {
  }

  /** Dropping a piece keeps every column stacked from the bottom up. */
  lemma DropKeepsStacked(b: Grid, col: int, c: Color)
    requires Stacked(b) && 0 <= col < Columns && !Occupied(b, 0, col) && c != DefaultColor
    ensures Stacked(Drop(b, col, c))
  {
    var r := LandingRow(b, col);
    var d := Drop(b, col, c);
    forall row | 0 <= row < r
      ensures !Occupied(d, row, col)
    {
      assert !Occupied(b, row, col);
    }
    forall row, below, k | Occupied(d, row, k) && row <= below < Rows
      ensures Occupied(d, below, k)
    {
      if k != col {
        assert Occupied(b, row, k);
        assert Occupied(b, below, k);
      } else if below > r {
        assert Occupied(b, r + 1, col);
        assert Occupied(b, below, col);
      }
    }
  }

  /** A game on the empty board that is not over is settled, whoever is to move. */
  lemma EmptyGridIsSettled(turn: int)
    requires 0 <= turn < |Players|
    ensures Settled(Game(EmptyGrid(), false, turn))
  {
  }

  /** Placing a piece of colour p cannot give another colour q four in a line. */
  lemma PlacingKeepsOthersLineless(b: Grid, i: int, p: Color, q: Color)
    requires 0 <= i < Size && p != q && !FourInALine(b, q)
    ensures !FourInALine(b[i := p], q)
  {
    var d: Grid := b[i := p];
    forall row, col, dr, dc | LineOfFour(d, q, row, col, dr, dc)
      ensures LineOfFour(b, q, row, col, dr, dc)
    {
    }
  }

  /** The four scanned directions cover all eight: four in a line in any direction is
      found by one of them, the other four directions being these read backwards. */
  lemma AllDirectionsCovered(b: Grid, c: Color, row: int, col: int, dr: int, dc: int)
    requires -1 <= dr <= 1 && -1 <= dc <= 1 && (dr != 0 || dc != 0)
    requires LineOfFour(b, c, row, col, dr, dc)
    ensures FourInALine(b, c)
  {
    if dr == 0 && dc == -1 {
      assert LineOfFour(b, c, row, col - 3, 0, 1);
    } else if dr == -1 && dc == 0 {
      assert LineOfFour(b, c, row - 3, col, 1, 0);
    } else if dr == 1 && dc == -1 {
      assert LineOfFour(b, c, row + 3, col - 3, -1, 1);
    } else if dr == 1 && dc == 1 {
      assert LineOfFour(b, c, row + 3, col + 3, -1, -1);
    }
  }

  /** From a given cell and direction there is at most one maximal run length. */
  lemma {:induction false} MaximalRunUnique(b: Grid, c: Color, row: int, col: int, dr: int, dc: int, m: nat, n: nat)
    requires IsMaximalRun(b, c, row, col, dr, dc, m)
    decreases m
    ensures IsMaximalRun(b, c, row, col, dr, dc, n) ==> m == n
  {
    if m > 0 && n > 0 {
      MaximalRunUnique(b, c, row + dr, col + dc, dr, dc, m - 1, n - 1);
    }
  }

  /** A maximal run of exactly four is four in a line. */
  lemma MaximalFourIsLine(b: Grid, c: Color, row: int, col: int, dr: int, dc: int)
    requires IsMaximalRun(b, c, row, col, dr, dc, 4)
    ensures LineOfFour(b, c, row, col, dr, dc)
  {
    assert IsMaximalRun(b, c, row + dr, col + dc, dr, dc, 3);
    assert IsMaximalRun(b, c, row + 2 * dr, col + 2 * dc, dr, dc, 2);
  }

  /** Four in a line up a diagonal belongs to a run that ends somewhere, and the last
      four cells of that run form a maximal run of exactly four: this is why testing
      `== 4` from every start cell still finds runs of five or six. */
  lemma {:induction false} LineEndsInMaximalFour(b: Grid, c: Color, row: int, col: int, dc: int)
    requires dc == 1 || dc == -1
    requires LineOfFour(b, c, row, col, -1, dc)
    decreases row
    ensures exists r, k :: IsMaximalRun(b, c, r, k, -1, dc, 4)
  {
    if Owns(b, c, row - 4, col + 4 * dc) {
      assert LineOfFour(b, c, row - 1, col + dc, -1, dc);
      LineEndsInMaximalFour(b, c, row - 1, col + dc, dc);
    } else {
      assert IsMaximalRun(b, c, row - 4, col + 4 * dc, -1, dc, 0);
      assert IsMaximalRun(b, c, row - 3, col + 3 * dc, -1, dc, 1);
      assert IsMaximalRun(b, c, row - 2, col + 2 * dc, -1, dc, 2);
      assert IsMaximalRun(b, c, row - 1, col + dc, -1, dc, 3);
      assert IsMaximalRun(b, c, row, col, -1, dc, 4);
    }
  }

  /** Some start cell has a maximal up-diagonal run of exactly four if and only if
      there are four in a line along that diagonal direction. */
  lemma DiagonalRunsMatchLines(b: Grid, c: Color, dc: int)
    requires dc == 1 || dc == -1
    ensures (exists row, col :: IsMaximalRun(b, c, row, col, -1, dc, 4)) <==>
            (exists row, col :: LineOfFour(b, c, row, col, -1, dc))
  {
    if row, col :| IsMaximalRun(b, c, row, col, -1, dc, 4) {
      MaximalFourIsLine(b, c, row, col, -1, dc);
    }
    if row, col :| LineOfFour(b, c, row, col, -1, dc) {
      LineEndsInMaximalFour(b, c, row, col, dc);
    }
  }
}
