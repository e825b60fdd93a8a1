/** The two end-of-game tests: no move left (`is_game_over`) and the winning
    tile on the board (`check_2048`). */
module Terminal {
  import opened Geometry
  import opened Row
  import opened MoveEngine

  /** The cell at (r, c) is occupied and differs from the cell below it and
      from the cell to its right, where those exist. */
  predicate CellStuck(b: Grid, r: int, c: int)
    requires IsGrid(b) && 0 <= r < Size && 0 <= c < Size
  {
    && b[r][c] != 0
    && (r < Size - 1 ==> b[r][c] != b[r + 1][c])
    && (c < Size - 1 ==> b[r][c] != b[r][c + 1])
  }

  /** What `is_game_over` reports: no empty cell and no equal neighbours. */
  predicate Stuck(b: Grid)
    requires IsGrid(b)
  {
    forall r, c :: 0 <= r < Size && 0 <= c < Size ==> CellStuck(b, r, c)
  }

  predicate AllEmpty(b: Grid)
    requires IsGrid(b)
  {
    forall r, c :: 0 <= r < Size && 0 <= c < Size ==> b[r][c] == 0
  }

  /** `is_game_over`: scan the cells row by row and stop at the first empty
      cell or the first cell equal to its lower or right neighbour. */
  method IsGameOver(board: Grid) returns (over: bool)
    requires IsGrid(board)
    ensures over <==> Stuck(board)
  {
    for r := 0 to Size
      invariant forall i, j :: 0 <= i < r && 0 <= j < Size ==> CellStuck(board, i, j)
    {
      for c := 0 to Size
        invariant forall i, j :: 0 <= i < r && 0 <= j < Size ==> CellStuck(board, i, j)
        invariant forall j :: 0 <= j < c ==> CellStuck(board, r, j)
      {
        if board[r][c] == 0 {
          assert !CellStuck(board, r, c);
          return false;
        }
        if r < Size - 1 && board[r][c] == board[r + 1][c] {
          assert !CellStuck(board, r, c);
          return false;
        }
        if c < Size - 1 && board[r][c] == board[r][c + 1] {
          assert !CellStuck(board, r, c);
          return false;
        }
      }
    }
    return true;
  }

  // ---------------------------------------------------------------------
  // How the test relates to the moves

  /** Sound: when `is_game_over` reports true, no direction changes the board. */
  lemma GameOverSound(b: Grid)
    requires IsGrid(b) && Stuck(b)
    ensures LegalMoves(b) == {}
  {
    forall d: Direction
      ensures Apply(d, b) == b
    {
      forall k | 0 <= k < Size
        ensures Settled(Line(d, b, k))
      {
        StuckLineSettled(b, d, k);
      }
      MoveStaysIff(d, b);
    }
    forall d | d in LegalMoves(b)
      ensures false
    {
      LegalMovesMeaning(b, d);
    }
  }

  lemma StuckLineSettled(b: Grid, d: Direction, k: int)
    requires IsGrid(b) && Stuck(b) && 0 <= k < Size
    ensures Settled(Line(d, b, k))
  {
    var line := Line(d, b, k);
    forall i | 0 <= i < Size - 1
      ensures line[i + 1] == 0 || (line[i] != 0 && line[i] != line[i + 1])
    {
      match d
      case Left =>
        assert CellStuck(b, k, i);
        assert CellStuck(b, k, i + 1);
      case Right =>
        assert CellStuck(b, k, Size - 2 - i);
        assert CellStuck(b, k, Size - 1 - i);
      case Up =>
        assert CellStuck(b, i, k);
        assert CellStuck(b, i + 1, k);
      case Down =>
        assert CellStuck(b, Size - 2 - i, k);
        assert CellStuck(b, Size - 1 - i, k);
    }
  }

  /** In a line settled read backwards, the empty cells form a prefix. */
  lemma {:induction false} ReverseSettledZeroPrefix(s: seq<int>, i: int, j: int)
    requires Settled(Reverse(s)) && 0 <= j <= i < |s| && s[i] == 0
    ensures s[j] == 0
    decreases i - j
  {
    if j < i {
      var r := Reverse(s);
      var p := |s| - 1 - i;
      assert r[p] == s[i] && r[p + 1] == s[i - 1];
      assert r[p + 1] == 0;
      ReverseSettledZeroPrefix(s, i - 1, j);
    }
  }

  /** A line settled in both directions is empty or full. */
  lemma SettledBothWays(s: seq<int>)
    requires Settled(s) && Settled(Reverse(s))
    ensures (forall k :: 0 <= k < |s| ==> s[k] == 0) || (forall k :: 0 <= k < |s| ==> s[k] != 0)
  {
    if a :| 0 <= a < |s| && s[a] == 0 {
      forall m | 0 <= m < |s|
        ensures s[m] == 0
      {
        if a <= m {
          SettledZeroSuffix(s, a, m);
        } else {
          ReverseSettledZeroPrefix(s, a, m);
        }
      }
    }
  }

  /** When no move is possible, the board is stuck or empty. */
  lemma NoMoveStuckOrEmpty(b: Grid)
    requires IsGrid(b)
    requires forall d: Direction :: Apply(d, b) == b
    ensures Stuck(b) || AllEmpty(b)
  {
    forall d: Direction, k | 0 <= k < Size
      ensures Settled(Line(d, b, k))
    {
      MoveStaysIff(d, b);
    }
    if !AllEmpty(b) {
      var r0, c0 :| 0 <= r0 < Size && 0 <= c0 < Size && b[r0][c0] != 0;
      assert Settled(Line(Left, b, r0)) && Settled(Line(Right, b, r0));
      SettledBothWays(b[r0]);
      forall r, c | 0 <= r < Size && 0 <= c < Size
        ensures b[r][c] != 0
      {
        assert Settled(Line(Up, b, c)) && Settled(Line(Down, b, c));
        SettledBothWays(Column(b, c));
        assert Column(b, c)[r0] != 0;
        assert Column(b, c)[r] == b[r][c];
      }
      forall r, c | 0 <= r < Size && 0 <= c < Size
        ensures CellStuck(b, r, c)
      {
        if c < Size - 1 {
          assert Settled(Line(Left, b, r));
          assert b[r][c + 1] != 0;
        }
        if r < Size - 1 {
          assert Settled(Line(Up, b, c));
          assert Column(b, c)[r] == b[r][c] && Column(b, c)[r + 1] == b[r + 1][c];
          assert b[r + 1][c] != 0;
        }
      }
    }
  }

  /** No direction can move exactly when the board is stuck, or empty: the
      test is sound, and it misses only the empty board, on which it reports
      false although nothing can move. */
  lemma NoLegalMoveIff(b: Grid)
    requires IsGrid(b)
    ensures LegalMoves(b) == {} <==> Stuck(b) || AllEmpty(b)
  {
    if Stuck(b) {
      GameOverSound(b);
    } else if AllEmpty(b) {
      forall d: Direction
        ensures Apply(d, b) == b
      {
        forall k | 0 <= k < Size
          ensures Settled(Line(d, b, k))
        {
          var line := Line(d, b, k);
          forall i | 0 <= i < Size
            ensures line[i] == 0
          {
            match d
            case Left =>
            case Right =>
              assert line[i] == b[k][Size - 1 - i];
            case Up =>
              assert line[i] == b[i][k];
            case Down =>
              assert line[i] == b[Size - 1 - i][k];
          }
        }
        MoveStaysIff(d, b);
      }
      forall d | d in LegalMoves(b)
        ensures false
      {
        LegalMovesMeaning(b, d);
      }
    } else if LegalMoves(b) == {} {
      forall d: Direction
        ensures Apply(d, b) == b
      {
        LegalMovesMeaning(b, d);
      }
      NoMoveStuckOrEmpty(b);
    }
  }

  /** A board holding a tile still holds one after a move: the tile's line
      slides to a line that starts with a tile. */
  lemma NotEmptyAfter(d: Direction, b: Grid, a: Grid)
    requires IsGrid(a) && IsGrid(b) && !AllEmpty(b)
    requires forall k :: 0 <= k < Size ==> Line(d, a, k) == SlideRow(Line(d, b, k))
    ensures !AllEmpty(a)
  {
    var i, j :| 0 <= i < Size && 0 <= j < Size && b[i][j] != 0;
    CellOnLine(d, b, i, j);
    var k := LineThrough(d, i, j);
    NonEmptySlide(Line(d, b, k));
    var front := Line(d, a, k)[0];
    match d
    case Left => assert front == a[k][0];
    case Right => assert front == a[k][Size - 1];
    case Up => assert front == a[0][k];
    case Down => assert front == a[Size - 1][k];
  }

  /** Every line of a stuck board is full. */
  lemma StuckLineFull(b: Grid, d: Direction, k: int)
    requires IsGrid(b) && Stuck(b) && 0 <= k < Size
    ensures forall p :: 0 <= p < Size ==> Line(d, b, k)[p] != 0
  {
    var line := Line(d, b, k);
    forall p | 0 <= p < Size
      ensures line[p] != 0
    {
      match d
      case Left => assert CellStuck(b, k, p);
      case Right => assert line[p] == b[k][Size - 1 - p] && CellStuck(b, k, Size - 1 - p);
      case Up => assert line[p] == b[p][k] && CellStuck(b, p, k);
      case Down => assert line[p] == b[Size - 1 - p][k] && CellStuck(b, Size - 1 - p, k);
    }
  }

  /** A stuck board after a move means every line the move slid was full and
      settled already. */
  lemma StuckAfterMeansSettled(d: Direction, b: Grid, a: Grid)
    requires IsGrid(a) && IsGrid(b)
    requires forall k :: 0 <= k < Size ==> Line(d, a, k) == SlideRow(Line(d, b, k))
    ensures Stuck(a) ==> forall k :: 0 <= k < Size ==> Settled(Line(d, b, k))
  {
    if Stuck(a) {
      forall k | 0 <= k < Size
        ensures Settled(Line(d, b, k))
      {
        StuckLineFull(a, d, k);
        FullSlideUnchanged(Line(d, b, k));
        SlideRowFixpoint(Line(d, b, k));
      }
    }
  }

  /** A legal move never ends the game: the board it leaves is neither stuck
      nor empty, so some direction moves again. */
  lemma LegalMoveKeepsPlaying(b: Grid, d: Direction)
    requires IsGrid(b) && d in LegalMoves(b)
    ensures !Stuck(Apply(d, b)) && !AllEmpty(Apply(d, b))
    ensures LegalMoves(Apply(d, b)) != {}
  {
    var a := Apply(d, b);
    ApplyLines(d, b);
    LegalMovesMeaning(b, d);
    NoLegalMoveIff(b);
    NotEmptyAfter(d, b, a);
    StuckAfterMeansSettled(d, b, a);
    MoveStaysIff(d, b);
    NoLegalMoveIff(a);
  }

  /** The empty board: no move changes it, yet `is_game_over` says false. */
  lemma EmptyBoardNotOver()
    ensures var empty := seq(Size, _ => seq(Size, _ => 0));
            IsGrid(empty) && LegalMoves(empty) == {} && !Stuck(empty)
  {
    var empty := seq(Size, _ => seq(Size, _ => 0));
    assert AllEmpty(empty);
    NoLegalMoveIff(empty);
    assert !CellStuck(empty, 0, 0);
  }

  // ---------------------------------------------------------------------

  /** The tile that ends the game. */
  const WinningTile := 2048

  /** `check_2048`: some row holds the winning tile. */
  function Check2048(board: seq<seq<int>>): (found: bool)
    ensures found <==> exists r, c :: 0 <= r < |board| && 0 <= c < |board[r]| && board[r][c] == WinningTile
  {
    if board == [] then false
    else if WinningTile in board[0] then true
    else
      var rest := Check2048(board[1..]);
      assert forall r :: 1 <= r < |board| ==> board[r] == board[1..][r - 1];
      rest
  }
}
