/** The 4x4 board as a value, and its two quarter-turn rotations.
    A board is a list of four rows, each a list of four integers; 0 is an
    empty cell. */
module Geometry {

  /** Number of rows, and of cells in a row. */
  const Size := 4

  type Grid = seq<seq<int>>

  /** The board's shape: four rows of four cells. */
  predicate IsGrid(b: Grid) {
    |b| == Size && forall i :: 0 <= i < |b| ==> |b[i]| == Size
  }

  /** Two boards of the board's shape are equal when every cell is. */
  lemma GridExtensionality(a: Grid, b: Grid)
    requires IsGrid(a) && IsGrid(b)
    requires forall i, j :: 0 <= i < Size && 0 <= j < Size ==> a[i][j] == b[i][j]
    ensures a == b
  {
    forall i | 0 <= i < Size
      ensures a[i] == b[i]
    {
      assert forall j :: 0 <= j < Size ==> a[i][j] == b[i][j];
    }
  }

  /** The list read back to front (Python's `s[::-1]`). */
  function Reverse<T>(s: seq<T>): (r: seq<T>)
    ensures |r| == |s|
    ensures forall i :: 0 <= i < |s| ==> r[i] == s[|s| - 1 - i]
  {
    if s == [] then [] else [s[|s| - 1]] + Reverse(s[..|s| - 1])
  }

  lemma ReverseReverse<T>(s: seq<T>)
    ensures Reverse(Reverse(s)) == s
  {
  }

  /** `zip(*b)`: the i-th row of the result holds the i-th cell of every row. */
  function Transpose(b: Grid): (r: Grid)
    requires IsGrid(b)
    ensures IsGrid(r)
    ensures forall i, j :: 0 <= i < Size && 0 <= j < Size ==> r[i][j] == b[j][i]
  {
    seq(Size, i requires 0 <= i < Size => seq(Size, j requires 0 <= j < Size => b[j][i]))
  }

  /** Transposing twice gives the board back. */
  lemma TransposeTwice(b: Grid)
    requires IsGrid(b)
    ensures Transpose(Transpose(b)) == b
  {
    var t := Transpose(Transpose(b));
    forall i | 0 <= i < Size
      ensures t[i] == b[i]
    {
    }
  }

  /** `rotate_board_clockwise`: transpose of the board read bottom-up. */
  function RotateClockwise(b: Grid): (r: Grid)
    requires IsGrid(b)
    ensures IsGrid(r)
    ensures forall i, j :: 0 <= i < Size && 0 <= j < Size ==> r[i][j] == b[Size - 1 - j][i]
  {
    Transpose(Reverse(b))
  }

  /** `rotate_board_counterclockwise`: the transpose, read bottom-up. */
  function RotateCounterclockwise(b: Grid): (r: Grid)
    requires IsGrid(b)
    ensures IsGrid(r)
    ensures forall i, j :: 0 <= i < Size && 0 <= j < Size ==> r[i][j] == b[j][Size - 1 - i]
  {
    Reverse(Transpose(b))
  }

  /** The two rotations undo each other, in either order. */
  lemma RotationsInverse(b: Grid)
    requires IsGrid(b)
    ensures RotateClockwise(RotateCounterclockwise(b)) == b
    ensures RotateCounterclockwise(RotateClockwise(b)) == b
  {
    GridExtensionality(RotateClockwise(RotateCounterclockwise(b)), b);
    GridExtensionality(RotateCounterclockwise(RotateClockwise(b)), b);
  }

  /** Column j read from the top row down. */
  function Column(b: Grid, j: int): (col: seq<int>)
    requires IsGrid(b) && 0 <= j < Size
    ensures |col| == Size
    ensures forall i :: 0 <= i < Size ==> col[i] == b[i][j]
  {
    seq(Size, i requires 0 <= i < Size => b[i][j])
  }
}
