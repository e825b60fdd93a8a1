/** The integer part of the position heuristic (`create_points`): the
    multiplier 0, 1, 2, 3 or 6 that each cell's value is weighted by. The
    score matrix of the source holds `normalize(k * v)`, that is k * v / 2048,
    for multiplier k and cell value v. */
module Heuristic {
  import opened Geometry

  /** Python's `board[i]` for i in -1 .. 3: a negative index counts from the end. */
  function PyIndex(i: int): (k: int)
    requires -Size <= i < Size
    ensures 0 <= k < Size
    ensures (k - i) % Size == 0
  {
    if i < 0 then i + Size else i
  }

  /** The neighbour the source calls `left`: the cell before, or 0. */
  function LeftOf(b: Grid, r: int, c: int): int
    requires IsGrid(b) && 0 <= r < Size && 0 <= c < Size
  {
    if c > 0 then b[r][c - 1] else 0
  }

  /** The neighbour the source calls `right`: the cell after, or 0. */
  function RightOf(b: Grid, r: int, c: int): int
    requires IsGrid(b) && 0 <= r < Size && 0 <= c < Size
  {
    if c < Size - 1 then b[r][c + 1] else 0
  }

  /** The neighbour the source calls `up`: the cell in the next row
      (`board[r + 1][c]`), or 0 on the last row. */
  function UpOf(b: Grid, r: int, c: int): int
    requires IsGrid(b) && 0 <= r < Size && 0 <= c < Size
  {
    if r < Size - 1 then b[r + 1][c] else 0
  }

  /** The neighbour the source calls `down`: `board[r - 1][c] if r < 3 else 0`.
      On row 0 the index -1 reads the last row; on the last row it is 0. */
  function DownOf(b: Grid, r: int, c: int): int
    requires IsGrid(b) && 0 <= r < Size && 0 <= c < Size
  {
    if r < Size - 1 then b[PyIndex(r - 1)][c] else 0
  }

  /** The multiplier of one cell: the last of the four tests of the source
      that holds decides it. */
  function Multiplier(b: Grid, r: int, c: int): int
    requires IsGrid(b) && 0 <= r < Size && 0 <= c < Size
  {
    var v := b[r][c];
    var left, right, up, down := LeftOf(b, r, c), RightOf(b, r, c), UpOf(b, r, c), DownOf(b, r, c);
    if v == 0 then 0
    else if left < v && right > v && up == v && down == v then 6
    else if left < v && right > v && up <= v && down >= v then 3
    else if left < v && right > v then 2
    else if left < v || right > v || up <= v || down >= v then 1
    else 0
  }

  /** `create_points`: fill a matrix cell by cell, each later test that holds
      overwriting what an earlier one wrote. */
  method CreatePoints(board: Grid) returns (points: Grid)
    requires IsGrid(board)
    ensures IsGrid(points)
    ensures forall r, c :: 0 <= r < Size && 0 <= c < Size ==> points[r][c] == Multiplier(board, r, c)
  {
    points := seq(Size, _ => seq(Size, _ => 0));
    for r := 0 to Size
      invariant IsGrid(points)
      invariant forall i, j :: 0 <= i < r && 0 <= j < Size ==> points[i][j] == Multiplier(board, i, j)
      invariant forall i, j :: r <= i < Size && 0 <= j < Size ==> points[i][j] == 0
    {
      for c := 0 to Size
        invariant IsGrid(points)
        invariant forall i, j :: 0 <= i < r && 0 <= j < Size ==> points[i][j] == Multiplier(board, i, j)
        invariant forall j :: 0 <= j < c ==> points[r][j] == Multiplier(board, r, j)
        invariant forall i, j :: r <= i < Size && 0 <= j < Size && (i > r || j >= c) ==> points[i][j] == 0
      {
        var v := board[r][c];
        if v != 0 {
          var left := if c > 0 then board[r][c - 1] else 0;
          var right := if c < Size - 1 then board[r][c + 1] else 0;
          var up := if r < Size - 1 then board[r + 1][c] else 0;
          var down := if r < Size - 1 then board[PyIndex(r - 1)][c] else 0;
          if left < v || right > v || up <= v || down >= v {
            points := points[r := points[r][c := 1]];
          }
          if left < v && right > v {
            points := points[r := points[r][c := 2]];
          }
          if left < v && right > v && up <= v && down >= v {
            points := points[r := points[r][c := 3]];
          }
          if left < v && right > v && up == v && down == v {
            points := points[r := points[r][c := 6]];
          }
        }
      }
    }
  }

  // ---------------------------------------------------------------------
  // What the multiplier is

  lemma MultiplierRange(b: Grid, r: int, c: int)
    requires IsGrid(b) && 0 <= r < Size && 0 <= c < Size
    ensures Multiplier(b, r, c) in {0, 1, 2, 3, 6}
  {
  }

  /** An empty cell weighs nothing. */
  lemma EmptyCellWeighsNothing(b: Grid, r: int, c: int)
    requires IsGrid(b) && 0 <= r < Size && 0 <= c < Size && b[r][c] == 0
    ensures Multiplier(b, r, c) == 0
  {
  }

  /** Multiplier 6, the plateau: strictly between its horizontal neighbours
      (left smaller, right larger) and equal to both vertical ones. */
  lemma PlateauIff(b: Grid, r: int, c: int)
    requires IsGrid(b) && 0 <= r < Size && 0 <= c < Size
    ensures Multiplier(b, r, c) == 6 <==>
              var v := b[r][c];
              v != 0 && LeftOf(b, r, c) < v && RightOf(b, r, c) > v && UpOf(b, r, c) == v && DownOf(b, r, c) == v
  {
  }

  /** Multiplier at least 2: the horizontal test alone decides it. */
  lemma HorizontalIff(b: Grid, r: int, c: int)
    requires IsGrid(b) && 0 <= r < Size && 0 <= c < Size
    ensures Multiplier(b, r, c) >= 2 <==>
              var v := b[r][c];
              v != 0 && LeftOf(b, r, c) < v && RightOf(b, r, c) > v
  {
  }

  /** Multiplier 3: all four tests of line 114, but not the plateau. */
  lemma AllFourIff(b: Grid, r: int, c: int)
    requires IsGrid(b) && 0 <= r < Size && 0 <= c < Size
    ensures Multiplier(b, r, c) == 3 <==>
              var v := b[r][c];
              var up, down := UpOf(b, r, c), DownOf(b, r, c);
              v != 0 && LeftOf(b, r, c) < v && RightOf(b, r, c) > v && up <= v && down >= v &&
              !(up == v && down == v)
  {
  }

  /** An occupied cell weighs nothing only when all four tests of line 110 fail. */
  lemma OccupiedZeroIff(b: Grid, r: int, c: int)
    requires IsGrid(b) && 0 <= r < Size && 0 <= c < Size && b[r][c] != 0
    ensures Multiplier(b, r, c) == 0 <==>
              var v := b[r][c];
              LeftOf(b, r, c) >= v && RightOf(b, r, c) <= v && UpOf(b, r, c) > v && DownOf(b, r, c) < v
  {
  }

  /** The neighbour lookups as the source writes them: on row 0 `down` is the
      last row, on the last row both vertical neighbours are 0. */
  lemma VerticalNeighbourQuirks(b: Grid, c: int)
    requires IsGrid(b) && 0 <= c < Size
    ensures DownOf(b, 0, c) == b[Size - 1][c]
    ensures UpOf(b, Size - 1, c) == 0 && DownOf(b, Size - 1, c) == 0
    ensures forall r :: 0 <= r < Size - 1 ==> UpOf(b, r, c) == b[r + 1][c]
  {
  }

  /** On the last row every positive tile weighs at least 1, since `up` is 0
      there and `up <= v` holds. */
  lemma LastRowPositiveWeighs(b: Grid, c: int)
    requires IsGrid(b) && 0 <= c < Size && b[Size - 1][c] > 0
    ensures Multiplier(b, Size - 1, c) >= 1
  {
  }

  /** A lone 2048 tile, every other cell empty, weighs exactly 1: its score
      entry is 2048 / 2048 = 1. */
  lemma LoneTileWeighsOne(b: Grid, r: int, c: int)
    requires IsGrid(b) && 0 <= r < Size && 0 <= c < Size && b[r][c] == 2048
    requires forall i, j :: 0 <= i < Size && 0 <= j < Size && (i != r || j != c) ==> b[i][j] == 0
    ensures Multiplier(b, r, c) == 1
  {
    if c > 0 {
      assert b[r][c - 1] == 0;
    }
    if c < Size - 1 {
      assert b[r][c + 1] == 0;
    }
  }
}
