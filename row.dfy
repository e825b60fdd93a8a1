/** Sliding one row to the left and merging equal neighbours
    (`move_row_left`), with the properties of that operation. */
module Row {
  import opened Geometry

  /** The non-empty tiles of a row, in order (the list comprehension that
      starts `move_row_left`). */
  function Compact(row: seq<int>): (tiles: seq<int>)
    ensures |tiles| <= |row|
    ensures forall k :: 0 <= k < |tiles| ==> tiles[k] != 0 && tiles[k] in row
  {
    if row == [] then []
    else if row[0] == 0 then Compact(row[1..])
    else [row[0]] + Compact(row[1..])
  }

  /** One left-to-right merging pass: an equal pair at the front becomes its
      double and both tiles leave the list; otherwise the front tile is kept. */
  function Merge(tiles: seq<int>): (merged: seq<int>)
    ensures |merged| <= |tiles|
    ensures |tiles| > 0 ==> |merged| > 0
    ensures (forall k :: 0 <= k < |tiles| ==> tiles[k] != 0) ==>
              forall k :: 0 <= k < |merged| ==> merged[k] != 0
    decreases |tiles|
  {
    if tiles == [] then []
    else if |tiles| > 1 && tiles[0] == tiles[1] then [tiles[0] * 2] + Merge(tiles[2..])
    else [tiles[0]] + Merge(tiles[1..])
  }

  function Zeros(n: nat): (z: seq<int>)
    ensures |z| == n && forall k :: 0 <= k < n ==> z[k] == 0
  {
    seq(n, _ => 0)
  }

  /** The result of `move_row_left`: merged tiles padded with zeros up to
      four cells (`[0] * (4 - len(merged))` adds nothing to a longer list). */
  function SlideRow(row: seq<int>): (r: seq<int>)
    ensures |row| <= Size ==> |r| == Size
  {
    var merged := Merge(Compact(row));
    merged + Zeros(if |merged| < Size then Size - |merged| else 0)
  }

  /** `move_row_left` as the source writes it: compact, then a loop that
      consumes the front of the list. */
  method MoveRowLeft(row: seq<int>) returns (result: seq<int>)
    ensures result == SlideRow(row)
  {
    var newRow := Compact(row);
    var merged := [];
    while newRow != []
      invariant merged + Merge(newRow) == Merge(Compact(row))
      decreases |newRow|
    {
      if |newRow| > 1 && newRow[0] == newRow[1] {
        var rest := newRow[2..];
        assert Merge(newRow) == [newRow[0] * 2] + Merge(rest);
        assert (merged + [newRow[0] * 2]) + Merge(rest) == merged + ([newRow[0] * 2] + Merge(rest));
        merged := merged + [newRow[0] * 2];
        newRow := rest;
      } else {
        var rest := newRow[1..];
        assert Merge(newRow) == [newRow[0]] + Merge(rest);
        assert (merged + [newRow[0]]) + Merge(rest) == merged + ([newRow[0]] + Merge(rest));
        merged := merged + [newRow[0]];
        newRow := rest;
      }
    }
    assert merged == Merge(Compact(row));
    result := merged + Zeros(if |merged| < Size then Size - |merged| else 0);
  }

  // ---------------------------------------------------------------------
  // Conservation of the tile total

  function Sum(s: seq<int>): int {
    if s == [] then 0 else s[0] + Sum(s[1..])
  }

  lemma {:induction false} SumConcat(a: seq<int>, b: seq<int>)
    ensures Sum(a + b) == Sum(a) + Sum(b)
  {
    if a == [] {
      assert a + b == b;
    } else {
      assert (a + b)[1..] == a[1..] + b;
      SumConcat(a[1..], b);
    }
  }

  lemma {:induction false} SumZeros(n: nat)
    ensures Sum(Zeros(n)) == 0
  {
    if n > 0 {
      assert Zeros(n)[1..] == Zeros(n - 1);
      SumZeros(n - 1);
    }
  }

  lemma {:induction false} SumCompact(row: seq<int>)
    ensures Sum(Compact(row)) == Sum(row)
  {
    if row != [] {
      SumCompact(row[1..]);
    }
  }

  lemma {:induction false} SumMerge(tiles: seq<int>)
    ensures Sum(Merge(tiles)) == Sum(tiles)
    decreases |tiles|
  {
    if tiles == [] {
    } else if |tiles| > 1 && tiles[0] == tiles[1] {
      SumMerge(tiles[2..]);
      assert tiles[1..][1..] == tiles[2..];
    } else {
      SumMerge(tiles[1..]);
    }
  }

  /** Sliding never creates or destroys tile value: the row total is kept. */
  lemma SlideRowKeepsSum(row: seq<int>)
    ensures Sum(SlideRow(row)) == Sum(row)
  {
    var merged := Merge(Compact(row));
    var pad := if |merged| < Size then Size - |merged| else 0;
    SumConcat(merged, Zeros(pad));
    SumZeros(pad);
    SumMerge(Compact(row));
    SumCompact(row);
  }

  // ---------------------------------------------------------------------
  // Shape of the result

  /** The tiles of a slid row stand at its front: after the first empty cell
      every cell is empty. */
  lemma SlideRowPacked(row: seq<int>)
    ensures forall i, j :: 0 <= i < j < |SlideRow(row)| && SlideRow(row)[i] == 0 ==> SlideRow(row)[j] == 0
  {
    var merged := Merge(Compact(row));
    assert forall k :: 0 <= k < |merged| ==> merged[k] != 0;
  }

  /** Every tile of the result is a tile of the input or the double of one. */
  lemma {:induction false} MergeValues(tiles: seq<int>)
    ensures forall k :: 0 <= k < |Merge(tiles)| ==>
              Merge(tiles)[k] in tiles || (Merge(tiles)[k] % 2 == 0 && Merge(tiles)[k] / 2 in tiles)
    decreases |tiles|
  {
    if tiles == [] {
    } else if |tiles| > 1 && tiles[0] == tiles[1] {
      MergeValues(tiles[2..]);
      assert forall x :: x in tiles[2..] ==> x in tiles;
    } else {
      MergeValues(tiles[1..]);
      assert forall x :: x in tiles[1..] ==> x in tiles;
    }
  }

  lemma SlideRowValues(row: seq<int>)
    ensures forall k :: 0 <= k < |SlideRow(row)| ==>
              SlideRow(row)[k] == 0 || SlideRow(row)[k] in row ||
              (SlideRow(row)[k] % 2 == 0 && SlideRow(row)[k] / 2 in row)
  {
    var tiles := Compact(row);
    MergeValues(tiles);
    var merged := Merge(tiles);
    forall k | 0 <= k < |merged|
      ensures merged[k] in row || (merged[k] % 2 == 0 && merged[k] / 2 in row)
    {
      if merged[k] in tiles {
        var p :| 0 <= p < |tiles| && tiles[p] == merged[k];
      } else {
        var p :| 0 <= p < |tiles| && tiles[p] == merged[k] / 2;
      }
    }
  }

  /** Where a value of one merging pass comes from: the input tile at `p`
      itself, or the equal pair at `p` and `p + 1` added together. */
  predicate MergedFrom(tiles: seq<int>, v: int, p: int) {
    0 <= p < |tiles| &&
    (v == tiles[p] || (p + 1 < |tiles| && tiles[p] == tiles[p + 1] && v == 2 * tiles[p]))
  }

  lemma MergedFromShift(tiles: seq<int>, n: nat, v: int, p: int)
    requires n <= |tiles| && MergedFrom(tiles[n..], v, p)
    ensures MergedFrom(tiles, v, p + n)
  {
    assert tiles[n..][p] == tiles[p + n];
    if p + 1 < |tiles[n..]| {
      assert tiles[n..][p + 1] == tiles[p + n + 1];
    }
  }

  /** The value at place `k` of one merging pass comes from one place of the
      input. */
  lemma {:induction false} MergedFromAt(tiles: seq<int>, k: int)
    requires 0 <= k < |Merge(tiles)|
    ensures exists p :: MergedFrom(tiles, Merge(tiles)[k], p)
    decreases |tiles|
  {
    var n := if |tiles| > 1 && tiles[0] == tiles[1] then 2 else 1;
    var head := if n == 2 then tiles[0] * 2 else tiles[0];
    var rest := tiles[n..];
    assert Merge(tiles) == [head] + Merge(rest);
    if k == 0 {
      assert MergedFrom(tiles, Merge(tiles)[k], 0);
    } else {
      MergedFromAt(rest, k - 1);
      var p :| MergedFrom(rest, Merge(rest)[k - 1], p);
      MergedFromShift(tiles, n, Merge(tiles)[k], p);
    }
  }

  /** Every value of the pass is a single input tile or the sum of one equal
      adjacent pair of input tiles (so `[2, 2, 4]` cannot become `[8]`). */
  lemma MergeFromPairs(tiles: seq<int>)
    ensures forall v :: v in Merge(tiles) ==> exists p :: MergedFrom(tiles, v, p)
  {
    forall v | v in Merge(tiles)
      ensures exists p :: MergedFrom(tiles, v, p)
    {
      var k :| 0 <= k < |Merge(tiles)| && Merge(tiles)[k] == v;
      MergedFromAt(tiles, k);
    }
  }

  /** Merge once, counted: each value of the pass uses up at most two input
      tiles, so the pass keeps at least half of them. */
  lemma {:induction false} MergeAtLeastHalf(tiles: seq<int>)
    ensures |tiles| <= 2 * |Merge(tiles)|
    decreases |tiles|
  {
    if tiles == [] {
    } else if |tiles| > 1 && tiles[0] == tiles[1] {
      MergeAtLeastHalf(tiles[2..]);
    } else {
      MergeAtLeastHalf(tiles[1..]);
    }
  }

  /** Compacting a list of tiles padded with empty cells gives the tiles back. */
  lemma {:induction false} CompactPadded(tiles: seq<int>, n: nat)
    requires forall k :: 0 <= k < |tiles| ==> tiles[k] != 0
    ensures Compact(tiles + Zeros(n)) == tiles
  {
    if tiles == [] {
      assert tiles + Zeros(n) == Zeros(n);
      CompactEmpty(Zeros(n));
    } else {
      assert (tiles + Zeros(n))[1..] == tiles[1..] + Zeros(n);
      CompactPadded(tiles[1..], n);
    }
  }

  /** How many input tiles the value `v` taken from place `p` uses: one when
      it is the tile itself, two when it is the sum of a pair. */
  function Width(tiles: seq<int>, v: int, p: int): int
    requires 0 <= p < |tiles|
  {
    if v == tiles[p] then 1 else 2
  }

  /** `s` gives, for each value of `out`, the place of the input it comes
      from. The places start at 0, each value uses the next one or two input
      tiles, and the last one ends the input: every input tile takes part in
      exactly one value of `out`, in order. */
  predicate Sources(tiles: seq<int>, out: seq<int>, s: seq<int>) {
    && |s| == |out|
    && (forall k :: 0 <= k < |s| ==> MergedFrom(tiles, out[k], s[k]))
    && (|s| == 0 ==> |tiles| == 0)
    && (|s| > 0 ==> s[0] == 0 && s[|s| - 1] + Width(tiles, out[|s| - 1], s[|s| - 1]) == |tiles|)
    && (forall k :: 0 <= k < |s| - 1 ==> s[k + 1] == s[k] + Width(tiles, out[k], s[k]))
  }

  /** `s` is `t` moved `n` places on, behind a first place 0. */
  predicate ShiftedBehind(s: seq<int>, t: seq<int>, n: int) {
    |s| == |t| + 1 && s[0] == 0 && forall k :: 0 < k < |s| ==> s[k] == t[k - 1] + n
  }

  /** The places of the rest, moved on, are the places of the whole list,
      with the same widths. */
  lemma ShiftedPlaces(tiles: seq<int>, n: nat, head: int, out: seq<int>, t: seq<int>, s: seq<int>)
    requires 0 < n <= |tiles| && MergedFrom(tiles, head, 0) && Width(tiles, head, 0) == n
    requires Sources(tiles[n..], out, t) && ShiftedBehind(s, t, n)
    ensures forall k :: 0 <= k < |s| ==> MergedFrom(tiles, ([head] + out)[k], s[k])
    ensures forall k :: 0 < k < |s| ==> Width(tiles, ([head] + out)[k], s[k]) == Width(tiles[n..], out[k - 1], t[k - 1])
  {
    var rest := tiles[n..];
    var all := [head] + out;
    forall k | 0 < k < |s|
      ensures MergedFrom(tiles, all[k], s[k])
      ensures Width(tiles, all[k], s[k]) == Width(rest, out[k - 1], t[k - 1])
    {
      MergedFromShift(tiles, n, out[k - 1], t[k - 1]);
      assert rest[t[k - 1]] == tiles[s[k]];
    }
  }

  /** The places of the rest, moved on, keep the rest's steps and end. */
  lemma ShiftedSteps(tiles: seq<int>, n: nat, head: int, out: seq<int>, t: seq<int>, s: seq<int>)
    requires 0 < n <= |tiles| && MergedFrom(tiles, head, 0) && Width(tiles, head, 0) == n
    requires Sources(tiles[n..], out, t) && ShiftedBehind(s, t, n)
    requires forall k :: 0 <= k < |s| ==> MergedFrom(tiles, ([head] + out)[k], s[k])
    requires forall k :: 0 < k < |s| ==> Width(tiles, ([head] + out)[k], s[k]) == Width(tiles[n..], out[k - 1], t[k - 1])
    ensures forall k :: 0 <= k < |s| - 1 ==> s[k + 1] == s[k] + Width(tiles, ([head] + out)[k], s[k])
    ensures s[|s| - 1] + Width(tiles, ([head] + out)[|s| - 1], s[|s| - 1]) == |tiles|
  {
    var all := [head] + out;
    forall k | 0 <= k < |s| - 1
      ensures s[k + 1] == s[k] + Width(tiles, all[k], s[k])
    {
      if k > 0 {
        assert t[k] == t[k - 1] + Width(tiles[n..], out[k - 1], t[k - 1]);
      }
    }
    if |t| > 0 {
      var m := |t| - 1;
      assert s[m + 1] + Width(tiles, all[m + 1], s[m + 1]) == t[m] + Width(tiles[n..], out[m], t[m]) + n;
    }
  }

  /** Sources of a list that starts with a value using the first `n` tiles,
      from the sources of the rest. */
  lemma SourcesCons(tiles: seq<int>, n: nat, head: int, out: seq<int>, t: seq<int>) returns (s: seq<int>)
    requires 0 < n <= |tiles| && MergedFrom(tiles, head, 0) && Width(tiles, head, 0) == n
    requires Sources(tiles[n..], out, t)
    ensures Sources(tiles, [head] + out, s)
  {
    s := [0] + seq(|t|, k requires 0 <= k < |t| => t[k] + n);
    assert ShiftedBehind(s, t, n);
    ShiftedPlaces(tiles, n, head, out, t, s);
    ShiftedSteps(tiles, n, head, out, t, s);
  }

  /** Builds the places the values of one merging pass come from. */
  lemma {:induction false} MergeSources(tiles: seq<int>) returns (s: seq<int>)
    requires forall k :: 0 <= k < |tiles| ==> tiles[k] != 0
    ensures Sources(tiles, Merge(tiles), s)
    decreases |tiles|
  {
    if tiles == [] {
      return [];
    }
    var n := if |tiles| > 1 && tiles[0] == tiles[1] then 2 else 1;
    var head := if n == 2 then tiles[0] * 2 else tiles[0];
    assert Merge(tiles) == [head] + Merge(tiles[n..]);
    var t := MergeSources(tiles[n..]);
    s := SourcesCons(tiles, n, head, Merge(tiles[n..]), t);
  }

  /** Merge once: the values of one pass come from consecutive, non-overlapping
      blocks of one or two input tiles that use up the whole input, so no tile
      takes part in two merges (`[2, 2, 4, 4]` cannot become `[8, 4]`). */
  lemma MergeOnce(tiles: seq<int>)
    requires forall k :: 0 <= k < |tiles| ==> tiles[k] != 0
    ensures exists s :: Sources(tiles, Merge(tiles), s)
  {
    var s := MergeSources(tiles);
  }

  /** The cascade `[2, 2, 4, 4] -> [8, 4]` has no sources, and the pass gives
      `[4, 8]`. */
  lemma CascadeRuledOut()
    ensures forall s :: !Sources([2, 2, 4, 4], [8, 4], s)
    ensures Merge([2, 2, 4, 4]) == [4, 8]
  {
    assert [2, 2, 4, 4][2..] == [4, 4];
    assert [4, 4][2..] == [];
  }

  /** Merge once, for a whole row: every tile of the slid row is a tile of the
      compacted row or the sum of an equal adjacent pair of it, the tiles of
      the slid row come from consecutive, non-overlapping blocks of the row's
      tiles, and the slid row has at least half as many tiles as the row. */
  lemma SlideRowMergesOnce(row: seq<int>)
    ensures forall v :: v in SlideRow(row) && v != 0 ==> exists p :: MergedFrom(Compact(row), v, p)
    ensures exists s :: Sources(Compact(row), Compact(SlideRow(row)), s)
    ensures |Compact(row)| <= 2 * |Compact(SlideRow(row))|
  {
    var tiles := Compact(row);
    var merged := Merge(tiles);
    var pad := if |merged| < Size then Size - |merged| else 0;
    var s := MergeSources(tiles);
    MergeAtLeastHalf(tiles);
    CompactPadded(merged, pad);
    assert SlideRow(row) == merged + Zeros(pad);
    forall v | v in SlideRow(row) && v != 0
      ensures exists p :: MergedFrom(Compact(row), v, p)
    {
      var k :| 0 <= k < |SlideRow(row)| && SlideRow(row)[k] == v;
      assert k < |merged| && merged[k] == v;
      MergedFromAt(tiles, k);
    }
    assert Sources(Compact(row), Compact(SlideRow(row)), s);
    assert |Compact(row)| <= 2 * |Compact(SlideRow(row))|;
  }

  /** Merge once: `[2, 2, 2, 2]` becomes `[4, 4, 0, 0]`, never `[8, 0, 0, 0]`. */
  lemma MergeOnceExample()
    ensures SlideRow([2, 2, 2, 2]) == [4, 4, 0, 0]
  {
    assert Compact([2, 2, 2, 2]) == [2, 2, 2, 2] by {
      assert [2, 2, 2, 2][1..] == [2, 2, 2];
      assert [2, 2, 2][1..] == [2, 2];
      assert [2, 2][1..] == [2];
      assert [2][1..] == [];
    }
    assert Merge([2, 2]) == [4] by {
      assert [2, 2][2..] == [];
    }
    assert Merge([2, 2, 2, 2]) == [4, 4] by {
      assert [2, 2, 2, 2][2..] == [2, 2];
    }
  }

  /** No cascade: in `[2, 2, 4, 0]` the new 4 does not merge with the old 4. */
  lemma NoCascadeExample()
    ensures SlideRow([2, 2, 4, 0]) == [4, 4, 0, 0]
  {
    assert Compact([2, 2, 4, 0]) == [2, 2, 4] by {
      assert [2, 2, 4, 0][1..] == [2, 4, 0];
      assert [2, 4, 0][1..] == [4, 0];
      assert [4, 0][1..] == [0];
      assert [0][1..] == [];
    }
    assert Merge([4]) == [4] by {
      assert [4][1..] == [];
    }
    assert Merge([2, 2, 4]) == [4, 4] by {
      assert [2, 2, 4][2..] == [4];
    }
  }

  /** Rows that a left move does not change, and one it does. */
  lemma EmptyRowExample()
    ensures SlideRow([0, 0, 0, 0]) == [0, 0, 0, 0]
  {
    assert Compact([0, 0, 0, 0]) == [] by {
      assert [0, 0, 0, 0][1..] == [0, 0, 0];
      assert [0, 0, 0][1..] == [0, 0];
      assert [0, 0][1..] == [0];
      assert [0][1..] == [];
    }
  }

  lemma LeftmostTileExample()
    ensures SlideRow([2, 0, 0, 0]) == [2, 0, 0, 0]
  {
    assert Compact([2, 0, 0, 0]) == [2] by {
      assert [2, 0, 0, 0][1..] == [0, 0, 0];
      assert [0, 0, 0][1..] == [0, 0];
      assert [0, 0][1..] == [0];
      assert [0][1..] == [];
    }
    assert Merge([2]) == [2] by {
      assert [2][1..] == [];
    }
  }

  lemma GapExample()
    ensures SlideRow([0, 2, 0, 0]) == [2, 0, 0, 0]
  {
    assert Compact([0, 2, 0, 0]) == [2] by {
      assert [0, 2, 0, 0][1..] == [2, 0, 0];
      assert [2, 0, 0][1..] == [0, 0];
      assert [0, 0][1..] == [0];
      assert [0][1..] == [];
    }
    assert Merge([2]) == [2] by {
      assert [2][1..] == [];
    }
  }

  // ---------------------------------------------------------------------
  // When does sliding leave a row as it is?

  /** A row that sliding left cannot change: every cell after an empty one
      is empty, and no tile has an equal tile right after it. */
  predicate Settled(row: seq<int>) {
    forall i :: 0 <= i < |row| - 1 ==> row[i + 1] == 0 || (row[i] != 0 && row[i] != row[i + 1])
  }

  /** In a settled row the empty cells form a suffix. */
  lemma {:induction false} SettledZeroSuffix(row: seq<int>, i: int, j: int)
    requires Settled(row) && 0 <= i <= j < |row| && row[i] == 0
    ensures row[j] == 0
    decreases j - i
  {
    if i < j {
      assert row[i + 1] == 0;
      SettledZeroSuffix(row, i + 1, j);
    }
  }

  lemma {:induction false} CompactEmpty(row: seq<int>)
    ensures Compact(row) == [] <==> forall k :: 0 <= k < |row| ==> row[k] == 0
  {
    if row != [] {
      CompactEmpty(row[1..]);
      assert forall k :: 1 <= k < |row| ==> row[k] == row[1..][k - 1];
    }
  }

  /** The row sliding produces, padded to the row's own length. */
  function Packed(row: seq<int>): (r: seq<int>)
    ensures |r| == |row|
  {
    var merged := Merge(Compact(row));
    merged + Zeros(|row| - |merged|)
  }

  /** A row starting with an empty cell: both sides hold exactly when the
      whole row is empty. */
  lemma PackedFixpointEmptyHead(row: seq<int>)
    requires |row| > 0 && row[0] == 0
    ensures Packed(row) == row <==> Settled(row)
  {
    var t := row[1..];
    var c := Compact(t);
    assert Compact(row) == c;
    CompactEmpty(t);
    if c == [] {
      assert forall k :: 0 <= k < |row| ==> row[k] == 0 by {
        assert forall k :: 1 <= k < |row| ==> row[k] == t[k - 1];
      }
      assert Packed(row) == Zeros(|row|);
    } else {
      var m := Merge(c);
      assert Packed(row)[0] == m[0];
      var k :| 0 <= k < |t| && t[k] != 0;
      assert row[k + 1] == t[k];
      if Settled(row) {
        SettledZeroSuffix(row, 0, k + 1);
      }
    }
  }

  /** A row whose first tile merges with the next tile: sliding changes it,
      and it is not settled. */
  lemma PackedFixpointMergedHead(row: seq<int>)
    requires |row| > 0 && row[0] != 0
    requires var c := Compact(row[1..]); |c| > 0 && c[0] == row[0]
    ensures Packed(row) != row && !Settled(row)
  {
    var t := row[1..];
    var c := Compact(t);
    var tiles := [row[0]] + c;
    assert Compact(row) == tiles;
    assert tiles[2..] == c[1..];
    assert Merge(tiles) == [row[0] * 2] + Merge(c[1..]);
    assert Packed(row)[0] == row[0] * 2;
    if t[0] == 0 {
      CompactEmpty(t);
      var k :| 0 <= k < |t| && t[k] != 0;
      assert row[k + 1] == t[k];
      if Settled(row) {
        SettledZeroSuffix(row, 1, k + 1);
      }
    } else {
      assert c[0] == t[0];
      assert row[1] == row[0];
    }
  }

  /** A row whose first tile stays: the question moves to the rest of it. */
  lemma PackedFixpointKeptHead(row: seq<int>)
    requires |row| > 0 && row[0] != 0
    requires var c := Compact(row[1..]); !(|c| > 0 && c[0] == row[0])
    ensures Packed(row) == [row[0]] + Packed(row[1..])
    ensures Settled(row) <==> Settled(row[1..])
  {
    var t := row[1..];
    var c := Compact(t);
    var tiles := [row[0]] + c;
    assert Compact(row) == tiles;
    assert tiles[1..] == c;
    assert Merge(tiles) == [row[0]] + Merge(c);
    assert forall i :: 0 <= i < |t| ==> row[i + 1] == t[i];
    if Settled(t) {
      if |t| > 0 && t[0] != 0 {
        assert c[0] == t[0];
      }
      forall i | 0 <= i < |row| - 1
        ensures row[i + 1] == 0 || (row[i] != 0 && row[i] != row[i + 1])
      {
        if i > 0 {
          assert t[i] == 0 || (t[i - 1] != 0 && t[i - 1] != t[i]);
        }
      }
    }
    if Settled(row) {
      forall i | 0 <= i < |t| - 1
        ensures t[i + 1] == 0 || (t[i] != 0 && t[i] != t[i + 1])
      {
        assert row[i + 2] == 0 || (row[i + 1] != 0 && row[i + 1] != row[i + 2]);
      }
    }
  }

  /** Sliding leaves a row as it is exactly when the row is settled. */
  lemma {:induction false} PackedFixpoint(row: seq<int>)
    ensures Packed(row) == row <==> Settled(row)
    decreases |row|
  {
    if row == [] {
    } else if row[0] == 0 {
      PackedFixpointEmptyHead(row);
    } else {
      var c := Compact(row[1..]);
      if |c| > 0 && c[0] == row[0] {
        PackedFixpointMergedHead(row);
      } else {
        PackedFixpointKeptHead(row);
        PackedFixpoint(row[1..]);
        assert row == [row[0]] + row[1..];
      }
    }
  }

  /** On a row of four cells: `move_row_left` returns the row unchanged
      exactly when the row is settled. */
  lemma SlideRowFixpoint(row: seq<int>)
    requires |row| == Size
    ensures SlideRow(row) == row <==> Settled(row)
  {
    assert SlideRow(row) == Packed(row);
    PackedFixpoint(row);
  }

  /** A full row with no equal neighbours comes back unchanged. */
  lemma FullDistinctRowUnchanged(row: seq<int>)
    requires |row| == Size
    requires forall k :: 0 <= k < Size ==> row[k] != 0
    requires forall k :: 0 <= k < Size - 1 ==> row[k] != row[k + 1]
    ensures SlideRow(row) == row
  {
    SlideRowFixpoint(row);
  }

  /** A merging pass that shortens nothing merged nothing. */
  lemma {:induction false} MergeSameLength(tiles: seq<int>)
    ensures |Merge(tiles)| == |tiles| ==> Merge(tiles) == tiles
    decreases |tiles|
  {
    if tiles == [] {
    } else if |tiles| > 1 && tiles[0] == tiles[1] {
      assert |Merge(tiles)| == 1 + |Merge(tiles[2..])|;
    } else {
      MergeSameLength(tiles[1..]);
    }
  }

  /** Compacting that drops nothing keeps the row. */
  lemma {:induction false} CompactSameLength(row: seq<int>)
    ensures |Compact(row)| == |row| ==> Compact(row) == row
  {
    if row != [] {
      CompactSameLength(row[1..]);
    }
  }

  /** A four-cell row that slides to four tiles was already full and settled:
      sliding left it as it was. */
  lemma FullSlideUnchanged(row: seq<int>)
    requires |row| == Size
    requires forall k :: 0 <= k < Size ==> SlideRow(row)[k] != 0
    ensures SlideRow(row) == row
  {
    var tiles := Compact(row);
    var merged := Merge(tiles);
    var pad := if |merged| < Size then Size - |merged| else 0;
    assert SlideRow(row) == merged + Zeros(pad);
    assert SlideRow(row)[Size - 1] != 0;
    assert |merged| == Size;
    CompactSameLength(row);
    MergeSameLength(tiles);
  }

  /** A row holding a tile slides to a row that starts with a tile. */
  lemma NonEmptySlide(row: seq<int>)
    requires |row| == Size && exists p :: 0 <= p < Size && row[p] != 0
    ensures SlideRow(row)[0] != 0
  {
    CompactEmpty(row);
  }

  // ---------------------------------------------------------------------
  // The board invariant: every cell is empty or a power of two of at least 2

  predicate IsPowerOfTwo(n: int)
    decreases if n < 0 then 0 else n
  {
    n == 1 || (n > 1 && n % 2 == 0 && IsPowerOfTwo(n / 2))
  }

  predicate IsTile(v: int) {
    v == 0 || (v >= 2 && IsPowerOfTwo(v))
  }

  predicate AllTiles(row: seq<int>) {
    forall k :: 0 <= k < |row| ==> IsTile(row[k])
  }

  lemma {:induction false} MergeKeepsTiles(tiles: seq<int>)
    requires AllTiles(tiles)
    ensures AllTiles(Merge(tiles))
    decreases |tiles|
  {
    if tiles == [] {
    } else if |tiles| > 1 && tiles[0] == tiles[1] {
      MergeKeepsTiles(tiles[2..]);
      var v := tiles[0];
      if v != 0 {
        assert IsPowerOfTwo(v * 2) by {
          assert (v * 2) / 2 == v;
        }
      }
    } else {
      MergeKeepsTiles(tiles[1..]);
    }
  }

  /** Sliding keeps the board invariant: tiles stay empty or powers of two. */
  lemma SlideRowKeepsTiles(row: seq<int>)
    requires AllTiles(row)
    ensures AllTiles(SlideRow(row))
  {
    MergeKeepsTiles(Compact(row));
  }
}
