/** The lookahead search (`evaluate_future_states`) and the move it makes
    (`make_best_move_with_lookahead`). The position score (`get_points`) is
    a parameter `points`: the search only adds and compares its values. */
module Lookahead {
  import opened Geometry
  import opened MoveEngine
  import opened Terminal

  /** A bare score at depth 0, a score per direction above it. */
  datatype SearchResult = Leaf(score: real) | Branch(scores: map<Direction, real>)

  /** A value, or the `ValueError` that `max` raises on an empty sequence. */
  datatype Outcome<T> = Returned(value: T) | MaxOfEmpty

  /** A result that `max(... .values())` can be taken of. */
  predicate HasMove(o: Outcome<SearchResult>) {
    o.Returned? && o.value.Branch? && |o.value.scores| > 0
  }

  function MaxAmong(m: map<Direction, real>, ds: seq<Direction>): (best: real)
    requires exists k :: 0 <= k < |ds| && ds[k] in m
    ensures exists k :: 0 <= k < |ds| && ds[k] in m && best == m[ds[k]]
    ensures forall k :: 0 <= k < |ds| && ds[k] in m ==> m[ds[k]] <= best
  {
    var rest := ds[1..];
    assert forall k :: 1 <= k < |ds| ==> ds[k] == rest[k - 1];
    if ds[0] !in m then
      MaxAmong(m, rest)
    else if !(exists k :: 0 <= k < |rest| && rest[k] in m) then
      m[ds[0]]
    else
      var other := MaxAmong(m, rest);
      if m[ds[0]] >= other then m[ds[0]] else other
  }

  lemma SomeKeyListed(m: map<Direction, real>)
    requires |m| > 0
    ensures exists k :: 0 <= k < |Directions| && Directions[k] in m
  {
    var d :| d in m;
    DirectionListed(d);
  }

  lemma KeysListed(m: map<Direction, real>)
    ensures forall d :: d in m ==> exists k :: 0 <= k < |Directions| && Directions[k] == d
  {
    forall d | d in m
      ensures exists k :: 0 <= k < |Directions| && Directions[k] == d
    {
      DirectionListed(d);
    }
  }

  /** `max(m.values())` of a non-empty map. */
  function MaxScore(m: map<Direction, real>): (best: real)
    requires |m| > 0
    ensures best in m.Values
    ensures forall d :: d in m ==> m[d] <= best
  {
    SomeKeyListed(m);
    KeysListed(m);
    MaxAmong(m, Directions)
  }

  // ---------------------------------------------------------------------
  // The search, as a function of the board and the depth

  /** What `evaluate_future_states(b, depth)` returns. At depth 0 the score
      of b. Above it, the directions whose move changes b, each with the
      score of the board it gives plus, below depth 2, the best score found
      one level deeper; raising if one of those deeper searches finds no
      move at all. */
  function Search(b: Grid, depth: nat, points: Grid -> real): (o: Outcome<SearchResult>)
    requires IsGrid(b)
    ensures o.Returned? ==> (o.value.Leaf? <==> depth == 0)
    decreases depth, 1
  {
    if depth == 0 then
      Returned(Leaf(points(b)))
    else if depth > 1 && exists d :: d in LegalMoves(b) && !HasMove(Search(Apply(d, b), depth - 1, points)) then
      MaxOfEmpty
    else
      Returned(Branch(map d | d in LegalMoves(b) :: MoveScore(b, depth, points, d)))
  }

  /** The score one direction gets at this depth. */
  function MoveScore(b: Grid, depth: nat, points: Grid -> real, d: Direction): real
    requires IsGrid(b) && depth >= 1
    requires depth > 1 ==> HasMove(Search(Apply(d, b), depth - 1, points))
    decreases depth, 0
  {
    points(Apply(d, b)) +
      if depth > 1 then MaxScore(Search(Apply(d, b), depth - 1, points).value.scores) else 0.0
  }

  /** Every direction of ds in legal finds a move one level deeper (when
      there is a deeper level). */
  predicate DeeperFound(b: Grid, depth: nat, points: Grid -> real, ds: seq<Direction>, legal: set<Direction>)
    requires IsGrid(b)
  {
    forall d :: d in ds && d in legal && depth > 1 ==> HasMove(Search(Apply(d, b), depth - 1, points))
  }

  /** The scores of the directions of ds in legal. */
  function ScoresOver(b: Grid, depth: nat, points: Grid -> real, ds: seq<Direction>, legal: set<Direction>): map<Direction, real>
    requires IsGrid(b) && depth >= 1 && DeeperFound(b, depth, points, ds, legal)
  {
    map d | d in ds && d in legal :: MoveScore(b, depth, points, d)
  }

  /** One more direction of the loop of `evaluate_future_states`. */
  lemma DeeperFoundStep(b: Grid, depth: nat, points: Grid -> real, ds: seq<Direction>, x: Direction, legal: set<Direction>)
    requires IsGrid(b)
    requires DeeperFound(b, depth, points, ds, legal)
    requires x in legal && depth > 1 ==> HasMove(Search(Apply(x, b), depth - 1, points))
    ensures DeeperFound(b, depth, points, ds + [x], legal)
  {
  }

  lemma ScoresStep(b: Grid, depth: nat, points: Grid -> real, ds: seq<Direction>, x: Direction, legal: set<Direction>)
    requires IsGrid(b) && depth >= 1
    requires DeeperFound(b, depth, points, ds, legal) && DeeperFound(b, depth, points, ds + [x], legal)
    ensures ScoresOver(b, depth, points, ds + [x], legal) ==
              if x in legal
              then ScoresOver(b, depth, points, ds, legal)[x := MoveScore(b, depth, points, x)]
              else ScoresOver(b, depth, points, ds, legal)
  {
  }

  lemma ScoresOverAll(b: Grid, depth: nat, points: Grid -> real, legal: set<Direction>)
    requires IsGrid(b) && depth >= 1
    requires DeeperFound(b, depth, points, Directions, legal)
    requires forall d :: d in legal ==> d in Directions
    ensures forall d :: d in legal && depth > 1 ==> HasMove(Search(Apply(d, b), depth - 1, points))
    ensures ScoresOver(b, depth, points, Directions, legal) == map d | d in legal :: MoveScore(b, depth, points, d)
  {
  }

  /** Once every direction is tried without error, the scores are the search's. */
  lemma ScoresComplete(b: Grid, depth: nat, points: Grid -> real)
    requires IsGrid(b) && depth >= 1
    requires DeeperFound(b, depth, points, Directions, LegalMoves(b))
    ensures Search(b, depth, points) == Returned(Branch(ScoresOver(b, depth, points, Directions, LegalMoves(b))))
  {
    forall d | d in LegalMoves(b)
      ensures d in Directions
    {
      DirectionListed(d);
    }
    ScoresOverAll(b, depth, points, LegalMoves(b));
  }

  /** `evaluate_future_states`: try each direction on its own copy of the
      board, in the order 'w', 'a', 's', 'd', and record a score for those
      that move. */
  method EvaluateFutureStates(board: Grid, depth: nat, points: Grid -> real) returns (o: Outcome<SearchResult>)
    requires IsGrid(board)
    ensures o == Search(board, depth, points)
    decreases depth
  {
    if depth == 0 {
      return Returned(Leaf(points(board)));
    }
    var moveScores: map<Direction, real> := map[];
    ghost var legal := LegalMoves(board);
    for i := 0 to |Directions|
      invariant DeeperFound(board, depth, points, Directions[..i], legal)
      invariant moveScores == ScoresOver(board, depth, points, Directions[..i], legal)
    {
      var d := Directions[i];
      assert Directions[..i + 1] == Directions[..i] + [d];
      var copy := new Board(board);
      var moved := copy.Move(d);
      if moved {
        var further := 0.0;
        if depth > 1 {
          var deeper := EvaluateFutureStates(copy.rows, depth - 1, points);
          if !HasMove(deeper) {
            return MaxOfEmpty;
          }
          further := MaxScore(deeper.value.scores);
        }
        assert d in legal;
        var score := points(copy.rows) + further;
        assert score == MoveScore(board, depth, points, d);
        DeeperFoundStep(board, depth, points, Directions[..i], d, legal);
        ScoresStep(board, depth, points, Directions[..i], d, legal);
        moveScores := moveScores[d := score];
      } else {
        assert d !in legal;
        DeeperFoundStep(board, depth, points, Directions[..i], d, legal);
        ScoresStep(board, depth, points, Directions[..i], d, legal);
      }
    }
    assert Directions[..|Directions|] == Directions;
    ScoresComplete(board, depth, points);
    return Returned(Branch(moveScores));
  }

  // ---------------------------------------------------------------------
  // What the search returns

  /** At depth 0 the search only scores the board. */
  lemma SearchAtDepthZero(b: Grid, points: Grid -> real)
    requires IsGrid(b)
    ensures Search(b, 0, points) == Returned(Leaf(points(b)))
  {
  }

  /** Above depth 0 the keys are exactly the directions whose move changes
      the board. */
  lemma SearchKeys(b: Grid, depth: nat, points: Grid -> real)
    requires IsGrid(b) && depth >= 1
    requires Search(b, depth, points).Returned?
    ensures Search(b, depth, points).value.Branch?
    ensures forall d: Direction :: d in Search(b, depth, points).value.scores <==> Apply(d, b) != b
  {
    forall d: Direction
      ensures d in Search(b, depth, points).value.scores <==> Apply(d, b) != b
    {
      LegalMovesMeaning(b, d);
    }
  }

  /** At depth 1 each legal direction scores the board its move gives, and
      nothing can raise. */
  lemma SearchAtDepthOne(b: Grid, points: Grid -> real)
    requires IsGrid(b)
    ensures Search(b, 1, points) == Returned(Branch(map d | d in LegalMoves(b) :: points(Apply(d, b))))
  {
    assert Search(b, 1, points) == Returned(Branch(map d | d in LegalMoves(b) :: MoveScore(b, 1, points, d)));
    ScoresAtDepthOne(b, points, LegalMoves(b));
  }

  lemma ScoresAtDepthOne(b: Grid, points: Grid -> real, legal: set<Direction>)
    requires IsGrid(b)
    ensures (map d | d in legal :: MoveScore(b, 1, points, d)) == map d | d in legal :: points(Apply(d, b))
  {
  }

  /** A board on which no direction moves gives no entry: "no move", not an
      error, at every depth from 1 on. */
  lemma StuckBoardGivesNoMove(b: Grid, depth: nat, points: Grid -> real)
    requires IsGrid(b) && depth >= 1 && Stuck(b)
    ensures Search(b, depth, points) == Returned(Branch(map[]))
  {
    GameOverSound(b);
  }

  /** Some line of play of at most k legal moves from b ends on a board where
      no direction moves. */
  predicate DeadEndWithin(b: Grid, k: nat)
    requires IsGrid(b)
    decreases k
  {
    k >= 1 && exists d :: d in LegalMoves(b) && (LegalMoves(Apply(d, b)) == {} || DeadEndWithin(Apply(d, b), k - 1))
  }

  /** The search raises exactly when some line of play shorter than the depth
      runs into a board with no move: the error is not only at the top. */
  lemma {:induction false} SearchRaisesIff(b: Grid, depth: nat, points: Grid -> real)
    requires IsGrid(b)
    ensures Search(b, depth, points) == MaxOfEmpty <==> depth >= 1 && DeadEndWithin(b, depth - 1)
    decreases depth
  {
    if depth > 1 {
      forall d | d in LegalMoves(b)
        ensures !HasMove(Search(Apply(d, b), depth - 1, points)) <==>
                  (LegalMoves(Apply(d, b)) == {} || DeadEndWithin(Apply(d, b), depth - 2))
      {
        var next := Apply(d, b);
        SearchRaisesIff(next, depth - 1, points);
        var o := Search(next, depth - 1, points);
        if o.Returned? {
          SearchKeys(next, depth - 1, points);
          if LegalMoves(next) == {} {
            forall d' | d' in o.value.scores
              ensures false
            {
              LegalMovesMeaning(next, d');
            }
            assert o.value.scores == map[];
          } else {
            var d' :| d' in LegalMoves(next);
            LegalMovesMeaning(next, d');
            assert d' in o.value.scores;
          }
        }
      }
    }
  }

  /** On a 4x4 board the search never raises: a legal move always leaves a
      board on which some direction moves, so every deeper `max` has a value
      to take. */
  lemma {:induction false} SearchNeverRaises(b: Grid, depth: nat, points: Grid -> real)
    requires IsGrid(b)
    ensures Search(b, depth, points).Returned?
    decreases depth
  {
    if depth > 1 {
      forall d | d in LegalMoves(b)
        ensures HasMove(Search(Apply(d, b), depth - 1, points))
      {
        var next := Apply(d, b);
        SearchNeverRaises(next, depth - 1, points);
        SearchKeys(next, depth - 1, points);
        LegalMoveKeepsPlaying(b, d);
        var d' :| d' in LegalMoves(next);
        LegalMovesMeaning(next, d');
        assert d' in Search(next, depth - 1, points).value.scores;
      }
    }
  }

  /** So no line of legal moves runs into a board with no move. */
  lemma NoDeadEnd(b: Grid, k: nat)
    requires IsGrid(b)
    ensures !DeadEndWithin(b, k)
  {
    var points := (g: Grid) => 0.0;
    SearchRaisesIff(b, k + 1, points);
    SearchNeverRaises(b, k + 1, points);
  }

  // ---------------------------------------------------------------------
  // Choosing the move

  /** The legal directions in the order the search entered them. */
  function EntryOrder(m: map<Direction, real>): (ds: seq<Direction>)
    ensures forall d :: d in ds <==> d in m
    ensures forall i, j :: 0 <= i < j < |ds| ==> ds[i] != ds[j]
  {
    assert forall d :: d in Directions by {
      forall d: Direction
        ensures d in Directions
      {
        DirectionListed(d);
      }
    }
    FilterKeys(m, Directions)
  }

  function FilterKeys(m: map<Direction, real>, ds: seq<Direction>): (r: seq<Direction>)
    ensures forall d :: d in r <==> d in ds && d in m
    ensures (forall i, j :: 0 <= i < j < |ds| ==> ds[i] != ds[j]) ==> forall i, j :: 0 <= i < j < |r| ==> r[i] != r[j]
  {
    if ds == [] then []
    else if ds[0] in m then [ds[0]] + FilterKeys(m, ds[1..])
    else FilterKeys(m, ds[1..])
  }

  /** Every entry of s has a score in m. */
  predicate Scored(m: map<Direction, real>, s: seq<Direction>) {
    forall k :: 0 <= k < |s| ==> s[k] in m
  }

  /** The scores of s never increase. */
  predicate Descending(m: map<Direction, real>, s: seq<Direction>)
    requires Scored(m, s)
  {
    forall i, j :: 0 <= i < j < |s| ==> m[s[i]] >= m[s[j]]
  }

  predicate Bounded(m: map<Direction, real>, s: seq<Direction>, bound: real)
    requires Scored(m, s)
  {
    forall k :: 0 <= k < |s| ==> m[s[k]] <= bound
  }

  /** Insert d into a list sorted by descending score, after every entry with
      an equal or higher score. */
  function Insert(m: map<Direction, real>, d: Direction, sorted: seq<Direction>): (r: seq<Direction>)
    requires d in m && Scored(m, sorted)
    ensures Scored(m, r)
    ensures multiset(r) == multiset(sorted) + multiset{d}
  {
    if sorted == [] then [d]
    else if m[d] > m[sorted[0]] then [d] + sorted
    else
      assert sorted == [sorted[0]] + sorted[1..];
      [sorted[0]] + Insert(m, d, sorted[1..])
  }

  lemma {:induction false} InsertBounded(m: map<Direction, real>, d: Direction, sorted: seq<Direction>, bound: real)
    requires d in m && Scored(m, sorted) && m[d] <= bound && Bounded(m, sorted, bound)
    ensures Bounded(m, Insert(m, d, sorted), bound)
  {
    if sorted != [] && m[d] <= m[sorted[0]] {
      InsertBounded(m, d, sorted[1..], bound);
    }
  }

  /** Inserting keeps a descending list descending. */
  lemma {:induction false} InsertDescending(m: map<Direction, real>, d: Direction, sorted: seq<Direction>)
    requires d in m && Scored(m, sorted) && Descending(m, sorted)
    ensures Descending(m, Insert(m, d, sorted))
  {
    if sorted != [] && m[d] <= m[sorted[0]] {
      var rest := sorted[1..];
      InsertDescending(m, d, rest);
      InsertBounded(m, d, rest, m[sorted[0]]);
    }
  }

  /** `sorted(move_scores.items(), key=score, reverse=True)`: the entries by
      descending score, inserted in entry order. */
  function SortByScore(m: map<Direction, real>, ds: seq<Direction>): (r: seq<Direction>)
    requires Scored(m, ds)
    ensures Scored(m, r)
    ensures multiset(r) == multiset(ds)
  {
    if ds == [] then []
    else
      var init := ds[..|ds| - 1];
      assert ds == init + [ds[|ds| - 1]];
      Insert(m, ds[|ds| - 1], SortByScore(m, init))
  }

  /** The sort puts the scores in descending order. */
  lemma {:induction false} SortByScoreDescending(m: map<Direction, real>, ds: seq<Direction>)
    requires Scored(m, ds)
    ensures Descending(m, SortByScore(m, ds))
  {
    if ds != [] {
      var init := ds[..|ds| - 1];
      SortByScoreDescending(m, init);
      InsertDescending(m, ds[|ds| - 1], SortByScore(m, init));
    }
  }

  lemma SameElements(a: seq<Direction>, b: seq<Direction>)
    requires multiset(a) == multiset(b)
    ensures forall x :: x in a <==> x in b
  {
    forall x
      ensures x in a <==> x in b
    {
      assert x in a <==> x in multiset(a);
      assert x in b <==> x in multiset(b);
    }
  }

  lemma EntryOrderCovers(m: map<Direction, real>)
    ensures forall d :: d in EntryOrder(m) <==> d in m
  {
    forall d | d in m
      ensures d in Directions
    {
      DirectionListed(d);
    }
  }

  /** The candidates of `make_best_move_with_lookahead`, best first: the
      legal directions in entry order, rearranged by descending score. */
  function RankMoves(m: map<Direction, real>): (r: seq<Direction>)
    ensures multiset(r) == multiset(EntryOrder(m))
    ensures forall d :: d in r <==> d in m
    ensures Scored(m, r) && Descending(m, r)
    ensures |m| > 0 ==> |r| > 0 && forall d :: d in m ==> m[d] <= m[r[0]]
  {
    EntryOrderCovers(m);
    var order := EntryOrder(m);
    var r := SortByScore(m, order);
    SortByScoreDescending(m, order);
    SameElements(r, order);
    r
  }

  /** Inserting an entry that does not beat the head keeps the head. */
  lemma InsertKeepsHead(m: map<Direction, real>, d: Direction, sorted: seq<Direction>)
    requires d in m && Scored(m, sorted) && |sorted| > 0 && m[d] <= m[sorted[0]]
    ensures Insert(m, d, sorted)[0] == sorted[0]
  {
  }

  /** ds[k] has the highest score of ds, and every entry before it a lower one. */
  predicate EarliestBest(m: map<Direction, real>, ds: seq<Direction>, k: int)
    requires Scored(m, ds) && 0 <= k < |ds|
  {
    && (forall j :: 0 <= j < |ds| ==> m[ds[j]] <= m[ds[k]])
    && (forall j :: 0 <= j < k ==> m[ds[j]] < m[ds[k]])
  }

  lemma EarliestBestKept(m: map<Direction, real>, init: seq<Direction>, last: Direction, k: int)
    requires Scored(m, init) && last in m && 0 <= k < |init| && EarliestBest(m, init, k)
    requires m[last] <= m[init[k]]
    ensures Scored(m, init + [last]) && EarliestBest(m, init + [last], k)
  {
  }

  lemma EarliestBestLast(m: map<Direction, real>, init: seq<Direction>, last: Direction, k: int)
    requires Scored(m, init) && last in m && 0 <= k < |init| && EarliestBest(m, init, k)
    requires m[last] > m[init[k]]
    ensures Scored(m, init + [last]) && EarliestBest(m, init + [last], |init|)
  {
  }

  /** The sort is stable at the head: it starts with the earliest of the
      entries with the highest score. */
  lemma {:induction false} SortHeadIsEarliestBest(m: map<Direction, real>, ds: seq<Direction>)
    requires Scored(m, ds) && |ds| > 0
    ensures exists k :: 0 <= k < |ds| && SortByScore(m, ds)[0] == ds[k] && EarliestBest(m, ds, k)
  {
    var init := ds[..|ds| - 1];
    var last := ds[|ds| - 1];
    assert ds == init + [last];
    if init == [] {
      assert SortByScore(m, ds)[0] == ds[0] && EarliestBest(m, ds, 0);
    } else {
      SortHeadIsEarliestBest(m, init);
      var sorted := SortByScore(m, init);
      var k :| 0 <= k < |init| && sorted[0] == init[k] && EarliestBest(m, init, k);
      if m[last] > m[sorted[0]] {
        EarliestBestLast(m, init, last, k);
        assert SortByScore(m, ds)[0] == ds[|init|];
      } else {
        EarliestBestKept(m, init, last, k);
        InsertKeepsHead(m, last, sorted);
        assert SortByScore(m, ds)[0] == ds[k];
      }
    }
  }

  /** Ties go to the direction the search entered first: the best-ranked
      direction is the earliest, in the order 'w', 'a', 's', 'd', of those
      with the highest score. */
  lemma RankMovesPrefersEarliest(m: map<Direction, real>)
    requires |m| > 0
    ensures var order := EntryOrder(m);
            Scored(m, order) &&
            exists k :: 0 <= k < |order| && RankMoves(m)[0] == order[k] && EarliestBest(m, order, k)
  {
    EntryOrderCovers(m);
    var order := EntryOrder(m);
    var d :| d in m;
    assert d in order;
    SortHeadIsEarliestBest(m, order);
  }

  lemma NoneInPrefix(s: seq<Direction>, excluded: set<Direction>, i: int)
    requires 0 <= i < |s| && s[i] !in excluded
    requires forall j :: 0 <= j < i ==> s[j] !in excluded
    ensures forall j :: 0 <= j < i + 1 ==> s[j] !in excluded
  {
  }

  /** The loop of `make_best_move_with_lookahead`: try the candidates in
      order and stop at the first move that changes the board. */
  method TryInOrder(board: Board, candidates: seq<Direction>) returns (made: bool)
    requires board.Valid()
    modifies board
    ensures board.Valid()
    ensures made <==> exists k :: 0 <= k < |candidates| && candidates[k] in LegalMoves(old(board.rows))
    ensures !made ==> board.rows == old(board.rows)
    ensures made ==> exists k :: 0 <= k < |candidates| && candidates[k] in LegalMoves(old(board.rows)) &&
                       (forall j :: 0 <= j < k ==> candidates[j] !in LegalMoves(old(board.rows))) &&
                       board.rows == Apply(candidates[k], old(board.rows))
  {
    ghost var start := board.rows;
    for i := 0 to |candidates|
      invariant board.Valid() && board.rows == start
      invariant forall j :: 0 <= j < i ==> candidates[j] !in LegalMoves(start)
    {
      var moved := board.Move(candidates[i]);
      if moved {
        assert candidates[i] in LegalMoves(start) && board.rows == Apply(candidates[i], start);
        return true;
      }
      NoneInPrefix(candidates, LegalMoves(start), i);
    }
    return false;
  }

  /** `make_best_move_with_lookahead`: search, then apply the best-scoring
      direction. Reports whether a move was made. The search's error would
      reach the caller unchanged, but `SearchNeverRaises` shows it cannot
      occur. */
  method MakeBestMove(board: Board, lookahead: nat, points: Grid -> real) returns (o: Outcome<bool>)
    requires board.Valid() && lookahead >= 1
    modifies board
    ensures board.Valid()
    ensures o.Returned?
    ensures o == MaxOfEmpty <==> Search(old(board.rows), lookahead, points) == MaxOfEmpty
    ensures o == Returned(false) <==> o.Returned? && LegalMoves(old(board.rows)) == {}
    ensures o != Returned(true) ==> board.rows == old(board.rows)
    ensures o == Returned(true) ==>
              var scores := Search(old(board.rows), lookahead, points).value.scores;
              var best := RankMoves(scores)[0];
              && board.rows == Apply(best, old(board.rows)) && board.rows != old(board.rows)
              && forall d :: d in scores ==> scores[d] <= scores[best]
  {
    var result := EvaluateFutureStates(board.rows, lookahead, points);
    SearchNeverRaises(board.rows, lookahead, points);
    SearchKeys(board.rows, lookahead, points);
    var moveScores := result.value.scores;
    if |moveScores| == 0 {
      forall d | d in LegalMoves(board.rows)
        ensures false
      {
        LegalMovesMeaning(board.rows, d);
      }
      return Returned(false);
    }
    var ranked := RankMoves(moveScores);
    var best := ranked[0];
    LegalMovesMeaning(board.rows, best);
    var made := TryInOrder(board, ranked);
    assert made;
    o := Returned(made);
    assert board.rows != old(board.rows) by {
      var k :| 0 <= k < |ranked| && ranked[k] in LegalMoves(old(board.rows)) &&
               (forall j :: 0 <= j < k ==> ranked[j] !in LegalMoves(old(board.rows))) &&
               board.rows == Apply(ranked[k], old(board.rows));
      assert k == 0;
      LegalMovesMeaning(old(board.rows), ranked[k]);
    }
  }
}
