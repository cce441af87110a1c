/** Distance rows along a trie path, why a subtree may be skipped, and what the trie's queries
    are meant to return. */
module FuzzyRows {
  import opened Wrappers
  import opened Orders
  import opened EditDistance
  import opened EditScripts

  /** The unit distances of `p` to every prefix of the query `q`. */
  ghost predicate IsRow(row: seq<nat>, p: Str, q: Str) {
    |row| == |q| + 1 && forall j | 0 <= j <= |q| :: row[j] == Distance(Unit, p, q[..j])
  }

  /** Every entry of the row of `p` exceeds `k`. */
  ghost predicate RowAbove(p: Str, q: Str, k: nat) {
    forall j | 0 <= j <= |q| :: Distance(Unit, p, q[..j]) > k
  }

  /** The transposition entry is no loophole: it is at least the row above it. */
  lemma SwapIsNoLoophole(p: Str, q: Str, j: nat, k: nat)
    requires p != [] && 2 <= j <= |q| && RowAbove(p, q, k)
    ensures Distance(Unit, p[..|p| - 1], q[..j - 2]) + 1 > k
  {
    hide Distance;
    DistanceBounds(Unit, p, q[..j - 1]);
    assert Init(q[..j - 1]) == q[..j - 2];
    SubstitutionSymmetric(Unit, Last(p), Last(q[..j - 1]));
  }

  lemma {:induction false} RowStepAbove(p: Str, c: char, q: Str, k: nat, j: nat)
    requires RowAbove(p, q, k) && j <= |q|
    ensures Distance(Unit, p + [c], q[..j]) > k
  {
    hide Distance;
    hide Cell;
    var p' := p + [c];
    assert Init(p') == p;
    if j == 0 {
      DistanceToEmpty(Unit, p);
      DistanceToEmpty(Unit, p');
      assert q[..0] == [] && Distance(Unit, p, q[..0]) > k;
    } else {
      var q' := q[..j];
      assert Init(q') == q[..j - 1];
      RowStepAbove(p, c, q, k, j - 1);
      DistanceStep(Unit, p', q');
      CellIsBest(Unit, Last(p'), Last(q'), Distance(Unit, Init(p'), q'), Distance(Unit, p', Init(q')),
                 Distance(Unit, Init(p'), Init(q')));
      if EndsSwapped(p', q') {
        assert p'[..|p'| - 2] == p[..|p| - 1] && q'[..|q'| - 2] == q[..j - 2];
        SwapIsNoLoophole(p, q, j, k);
      }
    }
  }

  /** Pruning: below a node whose row exceeds `k` everywhere, every word is further than `k`. */
  lemma {:induction false} SubtreePruned(p: Str, w: Str, q: Str, k: nat)
    requires RowAbove(p, q, k) && p <= w
    ensures Distance(Unit, w, q) > k
    decreases |w| - |p|
  {
    if |p| == |w| {
      assert p == w && q[..|q|] == q;
    } else {
      var p' := p + [w[|p|]];
      forall j | 0 <= j <= |q| ensures Distance(Unit, p', q[..j]) > k {
        RowStepAbove(p, w[|p|], q, k, j);
      }
      SubtreePruned(p', w, q, k);
    }
  }

  // The row buffer: row d, of the query's width, starts at d * width

  ghost predicate RowsHold(rows: seq<nat>, width: nat, path: Str, q: Str) {
    && width == |q| + 1
    && forall d | 0 <= d <= |path| ::
         0 <= d * width && d * width + width <= |rows| && IsRow(rows[d * width..d * width + width], path[..d], q)
  }

  lemma {:induction false} RowBelow(d: nat, e: nat, width: nat)
    requires d < e
    ensures d * width + width <= e * width
  {
    var step := (e - d) * width;
    assert step >= width by {
      if e - d > 1 {
        RowBelow(0, e - d - 1, width);
      }
    }
  }

  /** Rows of a prefix of the path still hold. */
  lemma RowsOfPrefix(rows: seq<nat>, width: nat, path: Str, q: Str, n: nat)
    requires RowsHold(rows, width, path, q) && n <= |path|
    ensures RowsHold(rows, width, path[..n], q)
  {
    forall d | 0 <= d <= n
      ensures 0 <= d * width && d * width + width <= |rows|
      ensures IsRow(rows[d * width..d * width + width], path[..n][..d], q)
    {
      assert path[..n][..d] == path[..d];
    }
  }

  /** Overwriting row `|path|` leaves the rows above it, which belong to the path's ancestors. */
  lemma RowsExtend(rows: seq<nat>, rows': seq<nat>, width: nat, path: Str, q: Str)
    requires path != [] && RowsHold(rows, width, Init(path), q)
    requires |path| * width + width <= |rows'| && |path| * width <= |rows|
    requires rows'[..|path| * width] == rows[..|path| * width]
    requires IsRow(rows'[|path| * width..|path| * width + width], path, q)
    ensures RowsHold(rows', width, path, q)
  {
    forall d | 0 <= d <= |path|
      ensures 0 <= d * width && d * width + width <= |rows'|
      ensures IsRow(rows'[d * width..d * width + width], path[..d], q)
    {
      if d < |path| {
        RowBelow(d, |path|, width);
        assert rows'[d * width..d * width + width]
            == rows'[..|path| * width][d * width..d * width + width]
            == rows[d * width..d * width + width];
        assert Init(path)[..d] == path[..d];
      } else {
        assert path[..d] == path;
      }
    }
  }

  lemma FirstRow(row: seq<nat>, q: Str)
    requires |row| == |q| + 1 && forall j | 0 <= j <= |q| :: row[j] == j
    ensures RowsHold(row, |q| + 1, [], q)
  {
    forall j | 0 <= j <= |q| ensures row[j] == Distance(Unit, [], q[..j]) {
      DistanceToEmpty(Unit, q[..j]);
    }
    assert row[0..|q| + 1] == row;
  }

  lemma RootDistance(q: Str)
    ensures Distance(Unit, [], q) == |q|
  {
    DistanceToEmpty(Unit, q);
  }

  ghost predicate IsMinimum(row: seq<nat>, least: nat) {
    least in row && forall j | 0 <= j < |row| :: least <= row[j]
  }

  lemma MinimumPrunes(row: seq<nat>, least: nat, p: Str, q: Str, k: nat)
    requires IsRow(row, p, q) && IsMinimum(row, least)
    ensures least > k <==> RowAbove(p, q, k)
  {
    hide Distance;
    if least <= k {
      var j :| 0 <= j < |row| && row[j] == least;
      assert Distance(Unit, p, q[..j]) <= k;
    }
  }

  /** One row of the table from the row above it and, for transpositions, the one above that. */
  method FillRow(prev: seq<nat>, prev2: seq<nat>, path: Str, query: Str) returns (cur: seq<nat>, rowMin: nat)
    requires path != [] && IsRow(prev, Init(path), query)
    requires |path| >= 2 ==> IsRow(prev2, path[..|path| - 2], query)
    ensures IsRow(cur, path, query) && IsMinimum(cur, rowMin)
  {
    hide Distance;
    hide Cell;
    var d, c := |path|, Last(path);
    cur := [d];
    rowMin := d;
    DistanceToEmpty(Unit, path);
    assert query[..0] == [];
    for j := 1 to |query| + 1
      invariant |cur| == j
      invariant forall t | 0 <= t < j :: cur[t] == Distance(Unit, path, query[..t])
      invariant IsMinimum(cur, rowMin)
    {
      var v := NextCell(prev, prev2, cur, path, query, j);
      NextCellRight(prev, prev2, cur, path, query, j);
      var least := Min(rowMin, v);
      assert least == v ==> (cur + [v])[j] == least;
      assert least == rowMin ==> least in cur && least in cur + [v];
      cur := cur + [v];
      rowMin := least;
    }
  }

  /** Row `|path|` of the shared buffer, grown when needed, from the rows of the ancestors. */
  method WriteRow(rows0: seq<nat>, width: nat, path: Str, query: Str)
    returns (rows: seq<nat>, cur: seq<nat>, rowMin: nat)
    requires path != [] && RowsHold(rows0, width, Init(path), query)
    ensures RowsHold(rows, width, path, query)
    ensures IsRow(cur, path, query) && IsMinimum(cur, rowMin)
  {
    hide IsRow;
    hide RowsHold;
    var d := |path|;
    rows := rows0;
    var base := d * width;
    AncestorRows(rows0, width, path, query);
    if |rows| < base + width {
      rows := rows + seq(base + width - |rows|, _ => 0);
    }
    var before, after := rows[..base], rows[base..];
    assert before == rows0[..base];
    var prev := before[(d - 1) * width..];
    var prev2 := if d >= 2 then before[(d - 2) * width..(d - 1) * width] else [];
    cur, rowMin := FillRow(prev, prev2, path, query);
    RowLength(cur, path, query);
    rows := before + cur + after[width..];
    assert rows[..base] == rows0[..base];
    assert rows[base..base + width] == cur;
    RowsExtend(rows0, rows, width, path, query);
  }

  lemma RowLength(row: seq<nat>, path: Str, query: Str)
    requires IsRow(row, path, query)
    ensures |row| == |query| + 1
  {
  }

  /** The two rows above row `|path|` in the buffer belong to the path's ancestors. */
  lemma AncestorRows(rows: seq<nat>, width: nat, path: Str, query: Str)
    requires path != [] && RowsHold(rows, width, Init(path), query)
    ensures
      var d := |path|;
      && width == |query| + 1 && 0 <= (d - 1) * width && (d - 1) * width + width == d * width <= |rows|
      && IsRow(rows[..d * width][(d - 1) * width..], Init(path), query)
      && (d >= 2 ==>
            && 0 <= (d - 2) * width <= (d - 1) * width
            && IsRow(rows[..d * width][(d - 2) * width..(d - 1) * width], path[..d - 2], query))
  {
    hide IsRow;
    var d := |path|;
    assert (d - 1) * width + width == d * width;
    assert Init(path)[..d - 1] == Init(path);
    assert rows[..d * width][(d - 1) * width..] == rows[(d - 1) * width..(d - 1) * width + width];
    if d >= 2 {
      assert (d - 2) * width + width == (d - 1) * width;
      assert rows[..d * width][(d - 2) * width..(d - 1) * width] == rows[(d - 2) * width..(d - 2) * width + width];
      assert Init(path)[..d - 2] == path[..d - 2];
    }
  }

  function NextCell(prev: seq<nat>, prev2: seq<nat>, cur: seq<nat>, path: Str, query: Str, j: nat): nat
    requires path != [] && |prev| == |query| + 1
    requires |path| >= 2 ==> |prev2| == |query| + 1
    requires 0 < j <= |query| && |cur| == j
  {
    var d, c := |path|, path[|path| - 1];
    var substitution := prev[j - 1] + if c != query[j - 1] then 1 else 0;
    var deletion := prev[j] + 1;
    var insertion := cur[j - 1] + 1;
    var v := Min(Min(substitution, deletion), insertion);
    if d >= 2 && j >= 2 && c == query[j - 2] && path[d - 2] == query[j - 1]
    then Min(v, prev2[j - 2] + 1)
    else v
  }

  lemma NextCellRight(prev: seq<nat>, prev2: seq<nat>, cur: seq<nat>, path: Str, query: Str, j: nat)
    requires path != [] && IsRow(prev, Init(path), query)
    requires |path| >= 2 ==> IsRow(prev2, path[..|path| - 2], query)
    requires 0 < j <= |query| && |cur| == j && cur[j - 1] == Distance(Unit, path, query[..j - 1])
    ensures NextCell(prev, prev2, cur, path, query, j) == Distance(Unit, path, query[..j])
  {
    hide Distance;
    var d := |path|;
    assert path[..d] == path && path[..d - 1] == Init(path);
    DistanceCell(Unit, path, query, d, j);
  }

  // What the queries return

  type Entry = (Str, u64)

  /** The payloads of the entries within distance `k` of `q`, in order. */
  function FuzzyMatches(entries: seq<Entry>, q: Str, k: nat): seq<u64> {
    if entries == [] then []
    else
      var e := Last(entries);
      FuzzyMatches(Init(entries), q, k) + if Distance(Unit, e.0, q) <= k then [e.1] else []
  }

  /** The entries whose word starts with `p`, in order. */
  function PrefixMatches(entries: seq<Entry>, p: Str): seq<Entry> {
    if entries == [] then []
    else
      var e := Last(entries);
      PrefixMatches(Init(entries), p) + if p <= e.0 then [e] else []
  }

  lemma FuzzyExtend(entries: seq<Entry>, q: Str, k: nat, n: nat)
    requires n < |entries|
    ensures FuzzyMatches(entries[..n + 1], q, k)
            == FuzzyMatches(entries[..n], q, k) + if Distance(Unit, entries[n].0, q) <= k then [entries[n].1] else []
  {
    hide Distance;
    assert Init(entries[..n + 1]) == entries[..n];
  }

  lemma {:induction false} FuzzySkip(entries: seq<Entry>, q: Str, k: nat, lo: nat, hi: nat)
    requires lo <= hi <= |entries|
    requires forall i | lo <= i < hi :: Distance(Unit, entries[i].0, q) > k
    ensures FuzzyMatches(entries[..hi], q, k) == FuzzyMatches(entries[..lo], q, k)
    decreases hi
  {
    hide Distance;
    if lo < hi {
      FuzzySkip(entries, q, k, lo, hi - 1);
      FuzzyExtend(entries, q, k, hi - 1);
    }
  }

  lemma RunEndsAtLast(entries: seq<Entry>, lo: nat)
    requires lo < |entries|
    ensures entries[lo..|entries|] == Init(entries)[lo..|entries| - 1] + [Last(entries)]
  {
  }

  /** When the words with prefix `p` form one run, the matches are that run. */
  lemma {:induction false} PrefixRun(entries: seq<Entry>, p: Str, lo: nat, hi: nat)
    requires lo <= hi <= |entries|
    requires forall k | 0 <= k < |entries| :: p <= entries[k].0 <==> lo <= k < hi
    ensures PrefixMatches(entries, p) == entries[lo..hi]
  {
    if entries != [] {
      var rest, n := Init(entries), |entries| - 1;
      if hi <= n {
        PrefixRun(rest, p, lo, hi);
      } else if lo <= n {
        PrefixRun(rest, p, lo, n);
        RunEndsAtLast(entries, lo);
      } else {
        PrefixRun(rest, p, n, n);
      }
    }
  }

  lemma NoPrefixMatch(entries: seq<Entry>, p: Str)
    requires forall k | 0 <= k < |entries| :: !(p <= entries[k].0)
    ensures PrefixMatches(entries, p) == []
  {
    PrefixRun(entries, p, 0, 0);
  }

  lemma {:induction false} PrefixMatchesMembers(entries: seq<Entry>, p: Str)
    ensures forall e :: e in PrefixMatches(entries, p) <==> e in entries && p <= e.0
  {
    if entries != [] {
      PrefixMatchesMembers(Init(entries), p);
      assert entries == Init(entries) + [Last(entries)];
    }
  }

  /** Strictly ascending by word. */
  ghost predicate Ascending(entries: seq<Entry>) {
    forall i, j | 0 <= i < j < |entries| :: StrLess(entries[i].0, entries[j].0)
  }

  lemma {:induction false} PrefixMatchesAscend(entries: seq<Entry>, p: Str)
    requires Ascending(entries)
    ensures Ascending(PrefixMatches(entries, p))
  {
    hide CompareStr;
    if entries != [] {
      var rest, e := Init(entries), Last(entries);
      PrefixMatchesAscend(rest, p);
      PrefixMatchesMembers(rest, p);
      var before := PrefixMatches(rest, p);
      forall i | 0 <= i < |before| ensures StrLess(before[i].0, e.0) {
        assert before[i] in before;
        var k :| 0 <= k < |rest| && rest[k] == before[i];
        assert entries[k] == rest[k];
      }
    }
  }

  /** Some entry carries the word. */
  ghost predicate Lists(entries: seq<Entry>, w: Str) {
    exists j :: 0 <= j < |entries| && entries[j].0 == w
  }

  lemma OneMoreListed(entries: seq<Entry>, n: nat)
    requires n < |entries|
    ensures forall w :: Lists(entries[..n + 1], w) <==> Lists(entries[..n], w) || w == entries[n].0
  {
    forall w | Lists(entries[..n], w) || w == entries[n].0 ensures Lists(entries[..n + 1], w) {
      assert entries[..n + 1][n] == entries[n];
      if Lists(entries[..n], w) {
        var j :| 0 <= j < n && entries[..n][j].0 == w;
        assert entries[..n + 1][j].0 == w;
      }
    }
  }

  /** The words listed under a prefix are the words with that prefix. */
  lemma PrefixMatchesWords(entries: seq<Entry>, p: Str, w: Str)
    ensures Lists(PrefixMatches(entries, p), w)
            <==> exists i :: 0 <= i < |entries| && entries[i].0 == w && p <= w
  {
    var matches := PrefixMatches(entries, p);
    PrefixMatchesMembers(entries, p);
    hide PrefixMatches;
    if j :| 0 <= j < |matches| && matches[j].0 == w {
      assert matches[j] in matches;
      var i :| 0 <= i < |entries| && entries[i] == matches[j];
    }
    if i :| 0 <= i < |entries| && entries[i].0 == w && p <= w {
      assert entries[i] in entries;
      var j :| 0 <= j < |matches| && matches[j] == entries[i];
    }
  }
}
