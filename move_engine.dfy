/** The four moves. `Board` is the mutable board of the game: each move
    method changes it in place and reports whether anything moved (`left`,
    `right`, `up`, `down`). The functions beside it give the board a move
    produces, and the lemmas say what those boards are. */
module MoveEngine {
  import opened Geometry
  import opened Row

  /** The search's keys 'w', 'a', 's', 'd'. */
  datatype Direction = Up | Left | Down | Right

  /** The order in which the search tries the directions. */
  const Directions: seq<Direction> := [Up, Left, Down, Right]

  lemma DirectionListed(d: Direction)
    ensures d in Directions
  {
    match d
    case Up => assert Directions[0] == d;
    case Left => assert Directions[1] == d;
    case Down => assert Directions[2] == d;
    case Right => assert Directions[3] == d;
  }

  /** Every row slid to the left. */
  function LeftGrid(b: Grid): (r: Grid)
    requires IsGrid(b)
    ensures IsGrid(r)
  {
    seq(Size, i requires 0 <= i < Size => SlideRow(b[i]))
  }

  function ReverseRows(b: Grid): (r: Grid)
    requires IsGrid(b)
    ensures IsGrid(r)
  {
    seq(Size, i requires 0 <= i < Size => Reverse(b[i]))
  }

  lemma ReverseRowsTwice(b: Grid)
    requires IsGrid(b)
    ensures ReverseRows(ReverseRows(b)) == b
  {
    forall i | 0 <= i < Size
      ensures ReverseRows(ReverseRows(b))[i] == b[i]
    {
      ReverseReverse(b[i]);
    }
  }

  /** `right`: reverse each row, move left, reverse each row back. */
  function RightGrid(b: Grid): (r: Grid)
    requires IsGrid(b)
    ensures IsGrid(r)
  {
    ReverseRows(LeftGrid(ReverseRows(b)))
  }

  /** `up`: rotate counter-clockwise, move left, rotate clockwise. */
  function UpGrid(b: Grid): (r: Grid)
    requires IsGrid(b)
    ensures IsGrid(r)
  {
    RotateClockwise(LeftGrid(RotateCounterclockwise(b)))
  }

  /** `down`: rotate clockwise, move left, rotate counter-clockwise. */
  function DownGrid(b: Grid): (r: Grid)
    requires IsGrid(b)
    ensures IsGrid(r)
  {
    RotateCounterclockwise(LeftGrid(RotateClockwise(b)))
  }

  /** The board a move in direction d produces. */
  function Apply(d: Direction, b: Grid): (r: Grid)
    requires IsGrid(b)
    ensures IsGrid(r)
  {
    match d
    case Up => UpGrid(b)
    case Left => LeftGrid(b)
    case Down => DownGrid(b)
    case Right => RightGrid(b)
  }

  /** The directions whose move changes the board. */
  function LegalMoves(b: Grid): set<Direction>
    requires IsGrid(b)
  {
    set d | d in Directions && Apply(d, b) != b
  }

  lemma LegalMovesMeaning(b: Grid, d: Direction)
    requires IsGrid(b)
    ensures d in LegalMoves(b) <==> Apply(d, b) != b
  {
    DirectionListed(d);
  }

  // ---------------------------------------------------------------------
  // What each move does to the lines of the board

  /** The k-th line a move in direction d slides, read in the direction the
      tiles travel: rows for left and right, columns for up and down. */
  function Line(d: Direction, b: Grid, k: int): (line: seq<int>)
    requires IsGrid(b) && 0 <= k < Size
    ensures |line| == Size
  {
    match d
    case Left => b[k]
    case Right => Reverse(b[k])
    case Up => Column(b, k)
    case Down => Reverse(Column(b, k))
  }

  /** `up` slides every column toward the top row. */
  lemma UpSlidesColumns(b: Grid)
    requires IsGrid(b)
    ensures forall i, j :: 0 <= i < Size && 0 <= j < Size ==> UpGrid(b)[i][j] == SlideRow(Column(b, j))[i]
  {
    var x := RotateCounterclockwise(b);
    forall j | 0 <= j < Size
      ensures x[Size - 1 - j] == Column(b, j)
    {
    }
  }

  /** `down` slides every column toward the bottom row. */
  lemma DownSlidesColumns(b: Grid)
    requires IsGrid(b)
    ensures forall i, j :: 0 <= i < Size && 0 <= j < Size ==>
              DownGrid(b)[i][j] == Reverse(SlideRow(Reverse(Column(b, j))))[i]
  {
    var x := RotateClockwise(b);
    forall j | 0 <= j < Size
      ensures x[j] == Reverse(Column(b, j))
    {
    }
  }

  /** `right` slides every row toward its last cell. */
  lemma RightSlidesRows(b: Grid)
    requires IsGrid(b)
    ensures forall i :: 0 <= i < Size ==> RightGrid(b)[i] == Reverse(SlideRow(Reverse(b[i])))
  {
  }

  lemma LeftLines(b: Grid)
    requires IsGrid(b)
    ensures forall k :: 0 <= k < Size ==> Line(Left, LeftGrid(b), k) == SlideRow(Line(Left, b, k))
  {
  }

  lemma RightLines(b: Grid)
    requires IsGrid(b)
    ensures forall k :: 0 <= k < Size ==> Line(Right, RightGrid(b), k) == SlideRow(Line(Right, b, k))
  {
    RightSlidesRows(b);
    forall k | 0 <= k < Size
      ensures Line(Right, RightGrid(b), k) == SlideRow(Line(Right, b, k))
    {
      ReverseReverse(SlideRow(Reverse(b[k])));
    }
  }

  lemma UpLines(b: Grid)
    requires IsGrid(b)
    ensures forall k :: 0 <= k < Size ==> Line(Up, UpGrid(b), k) == SlideRow(Line(Up, b, k))
  {
    UpSlidesColumns(b);
    forall k | 0 <= k < Size
      ensures Line(Up, UpGrid(b), k) == SlideRow(Line(Up, b, k))
    {
      assert |SlideRow(Column(b, k))| == Size;
    }
  }

  lemma DownLines(b: Grid)
    requires IsGrid(b)
    ensures forall k :: 0 <= k < Size ==> Line(Down, DownGrid(b), k) == SlideRow(Line(Down, b, k))
  {
    DownSlidesColumns(b);
    forall k | 0 <= k < Size
      ensures Line(Down, DownGrid(b), k) == SlideRow(Line(Down, b, k))
    {
      var s := SlideRow(Reverse(Column(b, k)));
      assert Column(DownGrid(b), k) == Reverse(s);
      ReverseReverse(s);
    }
  }

  /** Every line the move slides, slid: the new board, line by line. */
  lemma ApplyLines(d: Direction, b: Grid)
    requires IsGrid(b)
    ensures forall k :: 0 <= k < Size ==> Line(d, Apply(d, b), k) == SlideRow(Line(d, b, k))
  {
    match d
    case Left => LeftLines(b);
    case Right => RightLines(b);
    case Up => UpLines(b);
    case Down => DownLines(b);
  }

  /** The line of direction d through the cell (i, j), and the cell's place
      in it. */
  function LineThrough(d: Direction, i: int, j: int): int {
    match d
    case Left => i
    case Right => i
    case Up => j
    case Down => j
  }

  function PlaceInLine(d: Direction, i: int, j: int): int {
    match d
    case Left => j
    case Right => Size - 1 - j
    case Up => i
    case Down => Size - 1 - i
  }

  /** Every cell of the board belongs to a line of each direction. */
  lemma CellOnLine(d: Direction, b: Grid, i: int, j: int)
    requires IsGrid(b) && 0 <= i < Size && 0 <= j < Size
    ensures 0 <= LineThrough(d, i, j) < Size && 0 <= PlaceInLine(d, i, j) < Size
    ensures Line(d, b, LineThrough(d, i, j))[PlaceInLine(d, i, j)] == b[i][j]
  {
  }

  /** Boards with the same lines of one direction are equal. */
  lemma LinesCoverBoard(d: Direction, a: Grid, b: Grid)
    requires IsGrid(a) && IsGrid(b)
    requires forall k :: 0 <= k < Size ==> Line(d, a, k) == Line(d, b, k)
    ensures a == b
  {
    forall i, j | 0 <= i < Size && 0 <= j < Size
      ensures a[i][j] == b[i][j]
    {
      CellOnLine(d, a, i, j);
      CellOnLine(d, b, i, j);
    }
    GridExtensionality(a, b);
  }

  /** A move leaves the board as it is exactly when every line it slides is
      settled: no gap before a tile and no equal neighbours along the line. */
  lemma MoveStaysIff(d: Direction, b: Grid)
    requires IsGrid(b)
    ensures Apply(d, b) == b <==> forall k :: 0 <= k < Size ==> Settled(Line(d, b, k))
  {
    ApplyLines(d, b);
    forall k | 0 <= k < Size
      ensures SlideRow(Line(d, b, k)) == Line(d, b, k) <==> Settled(Line(d, b, k))
    {
      SlideRowFixpoint(Line(d, b, k));
    }
    if forall k :: 0 <= k < Size ==> Settled(Line(d, b, k)) {
      LinesCoverBoard(d, Apply(d, b), b);
    }
  }

  // ---------------------------------------------------------------------
  // The board invariant

  predicate AllTilesGrid(b: Grid)
    requires IsGrid(b)
  {
    forall i, j :: 0 <= i < Size && 0 <= j < Size ==> IsTile(b[i][j])
  }

  /** Every move keeps every cell empty or a power of two of at least 2. */
  lemma ApplyKeepsTiles(d: Direction, b: Grid)
    requires IsGrid(b) && AllTilesGrid(b)
    ensures AllTilesGrid(Apply(d, b))
  {
    LinesFromTiles(d, b);
    ApplyLines(d, b);
    forall k | 0 <= k < Size
      ensures AllTiles(Line(d, Apply(d, b), k))
    {
      SlideRowKeepsTiles(Line(d, b, k));
    }
    TilesFromLines(d, Apply(d, b));
  }

  lemma LinesFromTiles(d: Direction, b: Grid)
    requires IsGrid(b) && AllTilesGrid(b)
    ensures forall k :: 0 <= k < Size ==> AllTiles(Line(d, b, k))
  {
    forall k, p | 0 <= k < Size && 0 <= p < Size
      ensures IsTile(Line(d, b, k)[p])
    {
      match d
      case Left =>
      case Right => assert Line(d, b, k)[p] == b[k][Size - 1 - p];
      case Up => assert Line(d, b, k)[p] == b[p][k];
      case Down => assert Line(d, b, k)[p] == b[Size - 1 - p][k];
    }
  }

  lemma TilesFromLines(d: Direction, a: Grid)
    requires IsGrid(a)
    requires forall k :: 0 <= k < Size ==> AllTiles(Line(d, a, k))
    ensures AllTilesGrid(a)
  {
    forall i, j | 0 <= i < Size && 0 <= j < Size
      ensures IsTile(a[i][j])
    {
      CellOnLine(d, a, i, j);
    }
  }

  // ---------------------------------------------------------------------
  // The board object and its moves

  class Board {
    var rows: Grid

    ghost predicate Valid()
      reads this
    {
      IsGrid(rows)
    }

    constructor (cells: Grid)
      requires IsGrid(cells)
      ensures Valid() && rows == cells
    {
      rows := cells;
    }

    /** `left`: replace every row by `move_row_left` of it; the flag says
        whether some row changed. */
    method Left() returns (moved: bool)
      requires Valid()
      modifies this
      ensures Valid()
      ensures rows == LeftGrid(old(rows))
      ensures moved == (rows != old(rows))
    {
      moved := false;
      for r := 0 to Size
        invariant |rows| == Size
        invariant forall i :: 0 <= i < r ==> rows[i] == SlideRow(old(rows)[i])
        invariant forall i :: r <= i < Size ==> rows[i] == old(rows)[i]
        invariant moved == exists i :: 0 <= i < r && rows[i] != old(rows)[i]
      {
        var newRow := MoveRowLeft(rows[r]);
        if newRow != rows[r] {
          moved := true;
        }
        rows := rows[r := newRow];
      }
      assert rows == LeftGrid(old(rows));
      if !moved {
        assert forall i :: 0 <= i < Size ==> rows[i] == old(rows)[i];
      }
    }

    /** `board[r] = board[r][::-1]` for every row. */
    method ReverseEachRow()
      requires Valid()
      modifies this
      ensures Valid()
      ensures rows == ReverseRows(old(rows))
    {
      for r := 0 to Size
        invariant |rows| == Size
        invariant forall i :: 0 <= i < r ==> rows[i] == Reverse(old(rows)[i])
        invariant forall i :: r <= i < Size ==> rows[i] == old(rows)[i]
      {
        rows := rows[r := Reverse(rows[r])];
      }
    }

    /** `right`: reverse every row, move left, reverse every row back. */
    method Right() returns (moved: bool)
      requires Valid()
      modifies this
      ensures Valid()
      ensures rows == RightGrid(old(rows))
      ensures moved == (rows != old(rows))
    {
      ReverseEachRow();
      ghost var reversed := rows;
      moved := Left();
      ghost var slid := rows;
      ReverseEachRow();
      ReverseRowsTwice(old(rows));
      ReverseRowsTwice(slid);
    }

    /** `up`: move left a counter-clockwise rotated copy, rotate it back. */
    method Up() returns (moved: bool)
      requires Valid()
      modifies this
      ensures Valid()
      ensures rows == UpGrid(old(rows))
      ensures moved == (rows != old(rows))
    {
      var rotated := new Board(RotateCounterclockwise(rows));
      moved := rotated.Left();
      rows := RotateClockwise(rotated.rows);
      RotationsInverse(old(rows));
      RotationsInverse(rotated.rows);
    }

    /** `down`: move left a clockwise rotated copy, rotate it back. */
    method Down() returns (moved: bool)
      requires Valid()
      modifies this
      ensures Valid()
      ensures rows == DownGrid(old(rows))
      ensures moved == (rows != old(rows))
    {
      var rotated := new Board(RotateClockwise(rows));
      moved := rotated.Left();
      rows := RotateCounterclockwise(rotated.rows);
      RotationsInverse(old(rows));
      RotationsInverse(rotated.rows);
    }

    /** The source's `move == 'w' and up(board)` dispatch on a key. */
    method Move(d: Direction) returns (moved: bool)
      requires Valid()
      modifies this
      ensures Valid()
      ensures rows == Apply(d, old(rows))
      ensures moved == (rows != old(rows))
      ensures moved <==> d in LegalMoves(old(rows))
    {
      LegalMovesMeaning(rows, d);
      match d
      case Up => moved := Up();
      case Left => moved := Left();
      case Down => moved := Down();
      case Right => moved := Right();
    }
  }
}
