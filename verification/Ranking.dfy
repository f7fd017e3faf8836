/** `nlargest` / `nsmallest` on the daily-delta column (app_analisis_rem.py
    lines 547 and 561): the rows with the largest or smallest defined values,
    best first, with ties going to the earlier row; when fewer values than
    asked for are defined, the rows with an undefined value follow, in row
    order, up to the number asked for. */
module Ranking {
  import opened Optional
  import opened Sorting
  import opened Metrics

  datatype Direction = Largest | Smallest

  /** A defined entry of a column: its row position and its value. */
  datatype Ranked = Ranked(pos: nat, value: real)

  predicate Better(dir: Direction, x: real, y: real)
  {
    match dir
    case Largest => x > y
    case Smallest => x < y
  }

  /** `a` ranks strictly above `b`: a better value, or the same value at an
      earlier row (`keep='first'`). */
  predicate StrictlyOutranks(dir: Direction, a: Ranked, b: Ranked)
  {
    Better(dir, a.value, b.value) || (a.value == b.value && a.pos < b.pos)
  }

  /** The order the result is listed in: `StrictlyOutranks` made reflexive,
      so a sort can use it. */
  function Ranker(dir: Direction): (Ranked, Ranked) -> bool
  {
    (a: Ranked, b: Ranked) => Better(dir, a.value, b.value) || (a.value == b.value && a.pos <= b.pos)
  }

  lemma RankerIsTotalPreorder(dir: Direction)
    ensures TotalPreorder(Ranker(dir))
  {
  }

  /** The defined entries of a column, in row order; undefined entries are
      never ranked. */
  function Candidates(col: seq<Option<real>>): (c: seq<Ranked>)
    ensures forall r :: r in c <==> r.pos < |col| && col[r.pos] == Some(r.value)
    ensures forall i, j :: 0 <= i < j < |c| ==> c[i].pos < c[j].pos
    ensures forall i :: 0 <= i < |c| ==> c[i].pos < |col|
  {
    if col == [] then []
    else
      var init, last := col[..|col| - 1], col[|col| - 1];
      var c := Candidates(init);
      if last.Some? then c + [Ranked(|col| - 1, last.value)] else c
  }

  function Min(a: nat, b: nat): nat
  {
    if a < b then a else b
  }

  /** The first `n` defined entries in rank order: the ranked part of a
      table, before any undefined row. */
  function TopN(col: seq<Option<real>>, n: nat, dir: Direction): (top: seq<Ranked>)
    ensures |top| == Min(n, |Candidates(col)|)
    ensures forall k :: 0 <= k < |top| ==> top[k].pos < |col| && col[top[k].pos] == Some(top[k].value)
    ensures forall i, j :: 0 <= i < j < |top| ==> StrictlyOutranks(dir, top[i], top[j])
    ensures forall r, c :: r in top && c in Candidates(col) && c !in top ==> StrictlyOutranks(dir, r, c)
    ensures n >= |Candidates(col)| ==> multiset(top) == multiset(Candidates(col))
  {
    var cands := Candidates(col);
    RankerIsTotalPreorder(dir);
    var sorted := SortBy(cands, Ranker(dir));
    var m := Min(n, |cands|);
    PrefixOfRanking(cands, sorted, m, dir);
    assert forall k :: 0 <= k < m ==> sorted[..m][k] == sorted[k];
    sorted[..m]
  }

  /** A prefix of the candidates in rank order is strictly ordered, and beats
      every candidate it leaves out. */
  lemma PrefixOfRanking(cands: seq<Ranked>, sorted: seq<Ranked>, m: nat, dir: Direction)
    requires forall i, j :: 0 <= i < j < |cands| ==> cands[i].pos < cands[j].pos
    requires multiset(sorted) == multiset(cands) && SortedBy(sorted, Ranker(dir))
    requires m <= |sorted|
    ensures forall k :: 0 <= k < m ==> sorted[k] in cands
    ensures m == |sorted| ==> sorted[..m] == sorted
    ensures forall i, j :: 0 <= i < j < m ==> StrictlyOutranks(dir, sorted[i], sorted[j])
    ensures forall r, c :: r in sorted[..m] && c in cands && c !in sorted[..m] ==> StrictlyOutranks(dir, r, c)
  {
    SortedHasDistinctPositions(cands, sorted);
    var top := sorted[..m];
    forall k | 0 <= k < m
      ensures sorted[k] in cands
    {
      assert sorted[k] in multiset(sorted);
    }
    forall r, c | r in top && c in cands && c !in top
      ensures StrictlyOutranks(dir, r, c)
    {
      var p :| 0 <= p < m && sorted[p] == r;
      assert c in multiset(sorted);
      var q :| 0 <= q < |sorted| && sorted[q] == c;
      assert q >= m by {
        assert forall t :: 0 <= t < m ==> sorted[t] == top[t];
      }
    }
  }

  /** A permutation of the candidates holds no two entries of the same row. */
  lemma SortedHasDistinctPositions(cands: seq<Ranked>, sorted: seq<Ranked>)
    requires forall i, j :: 0 <= i < j < |cands| ==> cands[i].pos < cands[j].pos
    requires multiset(sorted) == multiset(cands)
    ensures forall i, j :: 0 <= i < j < |sorted| ==> sorted[i].pos != sorted[j].pos
  {
    DistinctCounts(cands);
    forall i, j | 0 <= i < j < |sorted|
      ensures sorted[i].pos != sorted[j].pos
    {
      if sorted[i].pos == sorted[j].pos {
        assert sorted[i] in multiset(cands) && sorted[j] in multiset(cands);
        var p :| 0 <= p < |cands| && cands[p] == sorted[i];
        var q :| 0 <= q < |cands| && cands[q] == sorted[j];
        assert p == q;
        DuplicateCounts(sorted, i, j);
      }
    }
  }

  lemma {:induction false} DistinctCounts(s: seq<Ranked>)
    requires forall i, j :: 0 <= i < j < |s| ==> s[i].pos < s[j].pos
    ensures forall x :: multiset(s)[x] <= 1
  {
    if s != [] {
      var init, last := s[..|s| - 1], s[|s| - 1];
      DistinctCounts(init);
      assert s == init + [last];
      assert last !in init;
    }
  }

  lemma DuplicateCounts<T>(s: seq<T>, i: nat, j: nat)
    requires i < j < |s| && s[i] == s[j]
    ensures multiset(s)[s[i]] >= 2
  {
    assert s == s[..j] + [s[j]] + s[j + 1..];
    assert s[i] in s[..j];
  }

  /** Asking for at least as many entries as there are rows ranks every
      defined entry, in either direction, and the table then lists every
      row exactly once. */
  lemma RankingEverything(col: seq<Option<real>>, n: nat)
    requires n >= |col|
    ensures multiset(TopN(col, n, Largest)) == multiset(Candidates(col))
    ensures multiset(TopN(col, n, Smallest)) == multiset(Candidates(col))
    ensures |Table(col, n, Largest)| == |Table(col, n, Smallest)| == |col|
    ensures forall p :: 0 <= p < |col| ==> p in Table(col, n, Largest) && p in Table(col, n, Smallest)
  {
    CandidatesFewerThanRows(col);
  }

  lemma {:induction false} CandidatesFewerThanRows(col: seq<Option<real>>)
    ensures |Candidates(col)| <= |col|
  {
    if col != [] {
      CandidatesFewerThanRows(col[..|col| - 1]);
    }
  }

  /** The positions of the undefined entries of a column, in row order. */
  function Undefined(col: seq<Option<real>>): (u: seq<nat>)
    ensures forall p: nat :: p in u <==> p < |col| && col[p].None?
    ensures forall i, j :: 0 <= i < j < |u| ==> u[i] < u[j]
  {
    if col == [] then []
    else
      var init, last := col[..|col| - 1], col[|col| - 1];
      var u := Undefined(init);
      assert forall k :: 0 <= k < |u| ==> u[k] in u && u[k] < |init|;
      if last.None? then u + [|col| - 1] else u
  }

  /** Every row is either ranked or undefined. */
  lemma {:induction false} RankedOrUndefined(col: seq<Option<real>>)
    ensures |Candidates(col)| + |Undefined(col)| == |col|
  {
    if col != [] {
      RankedOrUndefined(col[..|col| - 1]);
    }
  }

  /** The defined entry at row `p`. */
  function At(col: seq<Option<real>>, p: nat): Ranked
    requires p < |col| && col[p].Some?
  {
    Ranked(p, col[p].value)
  }

  /** The rows `nlargest(n)` / `nsmallest(n)` return, by position: the best
      defined entries, then the undefined rows in row order, `n` rows in all
      or every row when there are fewer. A defined entry is never left out
      while an undefined row is listed, and a row is left out only when the
      series has more than `n` rows. */
  function Table(col: seq<Option<real>>, n: nat, dir: Direction): (sel: seq<nat>)
    ensures |sel| == Min(n, |col|)
    ensures Min(n, |Candidates(col)|) <= |sel|
    ensures forall k :: 0 <= k < |sel| ==> sel[k] < |col|
    ensures forall i, j :: 0 <= i < j < |sel| ==> sel[i] != sel[j]
    ensures forall k :: 0 <= k < |sel| ==> (col[sel[k]].Some? <==> k < Min(n, |Candidates(col)|))
    ensures forall i, j :: 0 <= i < j < Min(n, |Candidates(col)|) ==>
      StrictlyOutranks(dir, At(col, sel[i]), At(col, sel[j]))
    ensures forall k, p :: 0 <= k < Min(n, |Candidates(col)|) && 0 <= p < |col| && col[p].Some? && p !in sel ==>
      StrictlyOutranks(dir, At(col, sel[k]), At(col, p))
    ensures forall i, j :: Min(n, |Candidates(col)|) <= i < j < |sel| ==> sel[i] < sel[j]
    ensures forall p :: 0 <= p < |col| && col[p].Some? && p !in sel ==> Min(n, |Candidates(col)|) == |sel|
    ensures forall p :: 0 <= p < |col| && p !in sel ==> |sel| == n < |col|
    ensures forall k, p :: Min(n, |Candidates(col)|) <= k < |sel| && 0 <= p < |col| && col[p].None? && p !in sel ==> sel[k] < p
  {
    var sel := Cut(col, n, dir);
    TableEntries(col, n, dir, sel);
    TableCoverage(col, n, dir, sel);
    TableTail(col, n, dir, sel);
    TableOrder(col, n, dir, sel);
    TableDominance(col, n, dir, sel);
    sel
  }

  /** The ranked positions followed by the undefined ones, cut to `n` rows. */
  function Cut(col: seq<Option<real>>, n: nat, dir: Direction): seq<nat>
  {
    var all := Positions(TopN(col, n, dir)) + Undefined(col);
    if Min(n, |col|) <= |all| then all[..Min(n, |col|)] else all
  }

  /** Which positions `Table` lists: how many, that they are distinct rows,
      and which of them are defined. */
  lemma TableEntries(col: seq<Option<real>>, n: nat, dir: Direction, sel: seq<nat>)
    requires sel == Cut(col, n, dir)
    ensures |sel| == Min(n, |col|)
    ensures Min(n, |Candidates(col)|) <= |sel|
    ensures forall k :: 0 <= k < |sel| ==> sel[k] < |col|
    ensures forall i, j :: 0 <= i < j < |sel| ==> sel[i] != sel[j]
    ensures forall k :: 0 <= k < |sel| ==> (col[sel[k]].Some? <==> k < Min(n, |Candidates(col)|))
    ensures forall i, j :: Min(n, |Candidates(col)|) <= i < j < |sel| ==> sel[i] < sel[j]
  {
    var top, u := TopN(col, n, dir), Undefined(col);
    var all := Positions(top) + u;
    RankedOrUndefined(col);
    RankedDistinct(col, dir, top);
    CutEntries(col, dir, top, Min(n, |Candidates(col)|), u, all, sel);
  }

  /** Only a full table leaves rows out. */
  lemma TableCoverage(col: seq<Option<real>>, n: nat, dir: Direction, sel: seq<nat>)
    requires sel == Cut(col, n, dir)
    ensures forall p :: 0 <= p < |col| && p !in sel ==> |sel| == n < |col|
  {
    var top, u := TopN(col, n, dir), Undefined(col);
    var all := Positions(top) + u;
    RankedOrUndefined(col);
    CutCoverage(col, n, top, Candidates(col), u, all, sel);
  }

  /** The undefined rows `Table` lists are the earliest ones: any undefined
      row left out comes after each of them. */
  lemma TableTail(col: seq<Option<real>>, n: nat, dir: Direction, sel: seq<nat>)
    requires sel == Cut(col, n, dir)
    ensures forall k, p :: Min(n, |Candidates(col)|) <= k < |sel| && 0 <= p < |col| && col[p].None? && p !in sel ==> sel[k] < p
  {
    var top, u := TopN(col, n, dir), Undefined(col);
    var all := Positions(top) + u;
    RankedOrUndefined(col);
    CutTail(col, top, Min(n, |Candidates(col)|), u, all, sel);
  }

  /** The defined positions `Table` lists are strictly best-first. */
  lemma TableOrder(col: seq<Option<real>>, n: nat, dir: Direction, sel: seq<nat>)
    requires sel == Cut(col, n, dir)
    requires Min(n, |Candidates(col)|) <= |sel|
    requires forall k :: 0 <= k < |sel| ==> sel[k] < |col|
    requires forall k :: 0 <= k < |sel| ==> (col[sel[k]].Some? <==> k < Min(n, |Candidates(col)|))
    ensures forall i, j :: 0 <= i < j < Min(n, |Candidates(col)|) ==>
      StrictlyOutranks(dir, At(col, sel[i]), At(col, sel[j]))
  {
    var top, u := TopN(col, n, dir), Undefined(col);
    var all := Positions(top) + u;
    RankedOrUndefined(col);
    RankedDistinct(col, dir, top);
    CutEntries(col, dir, top, Min(n, |Candidates(col)|), u, all, sel);
  }

  /** A defined entry is left out of `Table` only when the defined entries
      fill it, and then it lost to each of them. */
  lemma TableDominance(col: seq<Option<real>>, n: nat, dir: Direction, sel: seq<nat>)
    requires sel == Cut(col, n, dir)
    requires Min(n, |Candidates(col)|) <= |sel|
    requires forall k :: 0 <= k < |sel| ==> sel[k] < |col|
    requires forall k :: 0 <= k < |sel| ==> (col[sel[k]].Some? <==> k < Min(n, |Candidates(col)|))
    ensures forall k, p :: 0 <= k < Min(n, |Candidates(col)|) && 0 <= p < |col| && col[p].Some? && p !in sel ==>
      StrictlyOutranks(dir, At(col, sel[k]), At(col, p))
    ensures forall p :: 0 <= p < |col| && col[p].Some? && p !in sel ==> Min(n, |Candidates(col)|) == |sel|
  {
    var top, u := TopN(col, n, dir), Undefined(col);
    var all := Positions(top) + u;
    RankedOrUndefined(col);
    CutDominance(col, n, dir, top, Min(n, |Candidates(col)|), Candidates(col), u, all, sel);
  }

  function Positions(top: seq<Ranked>): (ps: seq<nat>)
    ensures |ps| == |top| && forall k :: 0 <= k < |top| ==> ps[k] == top[k].pos
  {
    seq(|top|, k requires 0 <= k < |top| => top[k].pos)
  }

  /** Entries that are all defined entries of `col`. */
  predicate EntriesOf(col: seq<Option<real>>, top: seq<Ranked>)
  {
    forall k :: 0 <= k < |top| ==> top[k].pos < |col| && col[top[k].pos] == Some(top[k].value)
  }

  /** The undefined positions of `col`, in row order. */
  ghost predicate UndefinedOf(col: seq<Option<real>>, u: seq<nat>)
  {
    && (forall p: nat :: p in u <==> p < |col| && col[p].None?)
    && (forall i, j :: 0 <= i < j < |u| ==> u[i] < u[j])
  }

  /** Entries listed strictly in rank order never share a row. */
  lemma RankedDistinct(col: seq<Option<real>>, dir: Direction, top: seq<Ranked>)
    requires EntriesOf(col, top)
    requires forall i, j :: 0 <= i < j < |top| ==> StrictlyOutranks(dir, top[i], top[j])
    ensures forall i, j :: 0 <= i < j < |top| ==> top[i].pos != top[j].pos
  {
    forall i, j | 0 <= i < j < |top|
      ensures top[i].pos != top[j].pos
    {
      assert StrictlyOutranks(dir, top[i], top[j]);
    }
  }

  /** The ranked positions followed by the undefined ones: the ranked part
      names its own entries, the rest are undefined rows in row order. */
  lemma PaddedEntries(col: seq<Option<real>>, top: seq<Ranked>, u: seq<nat>, all: seq<nat>)
    requires EntriesOf(col, top) && UndefinedOf(col, u)
    requires all == Positions(top) + u
    ensures forall k :: 0 <= k < |top| ==> all[k] == top[k].pos < |col| && At(col, all[k]) == top[k]
    ensures forall k :: |top| <= k < |all| ==> all[k] < |col| && col[all[k]].None?
    ensures forall i, j :: |top| <= i < j < |all| ==> all[i] < all[j]
  {
    var m := |top|;
    forall k | m <= k < |all|
      ensures all[k] < |col| && col[all[k]].None?
    {
      assert all[k] == u[k - m] && u[k - m] in u;
    }
    forall i, j | m <= i < j < |all|
      ensures all[i] < all[j]
    {
      assert all[i] == u[i - m] && all[j] == u[j - m];
    }
  }

  /** The listed positions: inside the series, distinct, defined exactly in
      the ranked part, strictly ranked there, and in row order after it. */
  lemma CutEntries(col: seq<Option<real>>, dir: Direction, top: seq<Ranked>, m: nat, u: seq<nat>, all: seq<nat>, sel: seq<nat>)
    requires m == |top|
    requires EntriesOf(col, top) && UndefinedOf(col, u)
    requires forall i, j :: 0 <= i < j < |top| ==> StrictlyOutranks(dir, top[i], top[j])
    requires forall i, j :: 0 <= i < j < |top| ==> top[i].pos != top[j].pos
    requires all == Positions(top) + u
    requires |top| <= |sel| <= |all| && sel == all[..|sel|]
    ensures forall k :: 0 <= k < |sel| ==> sel[k] < |col|
    ensures forall i, j :: 0 <= i < j < |sel| ==> sel[i] != sel[j]
    ensures forall k :: 0 <= k < |sel| ==> (col[sel[k]].Some? <==> k < m)
    ensures forall i, j :: 0 <= i < j < m ==> StrictlyOutranks(dir, At(col, sel[i]), At(col, sel[j]))
    ensures forall i, j :: m <= i < j < |sel| ==> sel[i] < sel[j]
  {
    PaddedEntries(col, top, u, all);
    forall i, j | 0 <= i < j < |sel|
      ensures sel[i] != sel[j]
    {
      assert sel[i] == all[i] && sel[j] == all[j];
    }
  }

  /** A defined entry is left out only when the ranked part fills the table,
      and then it lost to every listed entry. */
  lemma CutDominance(col: seq<Option<real>>, n: nat, dir: Direction, top: seq<Ranked>, m: nat, cands: seq<Ranked>, u: seq<nat>, all: seq<nat>, sel: seq<nat>)
    requires m == |top| == Min(n, |cands|) && |sel| <= n
    requires EntriesOf(col, top) && UndefinedOf(col, u)
    requires forall r :: r in cands <==> r.pos < |col| && col[r.pos] == Some(r.value)
    requires forall r, c :: r in top && c in cands && c !in top ==> StrictlyOutranks(dir, r, c)
    requires n >= |cands| ==> multiset(top) == multiset(cands)
    requires all == Positions(top) + u
    requires |top| <= |sel| <= |all| && sel == all[..|sel|]
    ensures forall k, p :: 0 <= k < m && 0 <= p < |col| && col[p].Some? && p !in sel ==>
      StrictlyOutranks(dir, At(col, sel[k]), At(col, p))
    ensures forall p :: 0 <= p < |col| && col[p].Some? && p !in sel ==> m == |sel|
  {
    PaddedEntries(col, top, u, all);
    forall p | 0 <= p < |col| && col[p].Some? && p !in sel
      ensures At(col, p) !in top && m == |sel|
    {
      assert At(col, p) in cands;
      forall k | 0 <= k < m
        ensures top[k] != At(col, p)
      {
        assert sel[k] == top[k].pos && sel[k] in sel;
      }
      assert At(col, p) in multiset(cands) && At(col, p) !in multiset(top);
    }
    forall k, p | 0 <= k < m && 0 <= p < |col| && col[p].Some? && p !in sel
      ensures StrictlyOutranks(dir, At(col, sel[k]), At(col, p))
    {
      assert At(col, sel[k]) == top[k] && top[k] in top;
    }
  }

  /** Cutting the undefined positions short keeps the earliest of them. */
  lemma CutTail(col: seq<Option<real>>, top: seq<Ranked>, m: nat, u: seq<nat>, all: seq<nat>, sel: seq<nat>)
    requires m == |top| && UndefinedOf(col, u)
    requires all == Positions(top) + u
    requires m <= |sel| <= |all| && sel == all[..|sel|]
    ensures forall k, p :: m <= k < |sel| && 0 <= p < |col| && col[p].None? && p !in sel ==> sel[k] < p
  {
    forall k, p | m <= k < |sel| && 0 <= p < |col| && col[p].None? && p !in sel
      ensures sel[k] < p
    {
      assert p in u;
      var q :| 0 <= q < |u| && u[q] == p;
      forall r | 0 <= r < |sel| - m
        ensures u[r] != p
      {
        assert sel[m + r] == u[r] && sel[m + r] in sel;
      }
      assert q >= |sel| - m;
      assert sel[k] == u[k - m] < u[q];
    }
  }

  /** A row is left out only when the series has more rows than the table. */
  lemma CutCoverage(col: seq<Option<real>>, n: nat, top: seq<Ranked>, cands: seq<Ranked>, u: seq<nat>, all: seq<nat>, sel: seq<nat>)
    requires EntriesOf(col, top) && UndefinedOf(col, u)
    requires forall p :: 0 <= p < |col| && col[p].Some? ==> At(col, p) in cands
    requires |top| == Min(n, |cands|) && |cands| + |u| == |col|
    requires n >= |cands| ==> multiset(top) == multiset(cands)
    requires all == Positions(top) + u
    requires |sel| == Min(n, |col|) && sel == all[..|sel|]
    ensures forall p :: 0 <= p < |col| && p !in sel ==> |sel| == n < |col|
  {
    if n >= |col| {
      assert sel == all;
      forall p | 0 <= p < |col|
        ensures p in sel
      {
        if col[p].Some? {
          assert At(col, p) in multiset(top);
          var k :| 0 <= k < |top| && top[k] == At(col, p);
          assert all[k] == p;
        } else {
          assert p in u;
          var k :| 0 <= k < |u| && u[k] == p;
          assert all[|top| + k] == p;
        }
      }
    }
  }

  /** How many rows each table lists. */
  const TopCount: nat := 10

  /** The rows of the "largest growth" (`Largest`) or "largest decrease"
      (`Smallest`) table, by daily delta: `TopCount` rows, or every row of a
      shorter series, at the positions `Table` picks. The rows with a delta
      come first, ordered by it, and no row left out has a better delta than
      any of them; the rows without one fill the rest. */
  function TopDays(rows: seq<Enriched>, dir: Direction): (top: seq<Enriched>)
    ensures |top| == Min(TopCount, |rows|)
    ensures forall k :: 0 <= k < |top| ==> top[k] == rows[Table(Deltas(rows), TopCount, dir)[k]]
    ensures forall k :: 0 <= k < |top| ==> (top[k].delta1d.Some? <==> k < Min(TopCount, |Candidates(Deltas(rows))|))
    ensures forall i, j :: 0 <= i < j < |top| && top[j].delta1d.Some? ==>
      top[i].delta1d.Some? && (Better(dir, top[i].delta1d.value, top[j].delta1d.value) || top[i].delta1d == top[j].delta1d)
    ensures forall k, j :: 0 <= k < |top| && top[k].delta1d.Some? && 0 <= j < |rows| && rows[j].delta1d.Some? && rows[j] !in top ==>
      !Better(dir, rows[j].delta1d.value, top[k].delta1d.value)
  {
    var col := Deltas(rows);
    var sel := Table(col, TopCount, dir);
    var top := RowsAt(rows, sel);
    RowsOfTable(rows, dir, col, sel, top);
    top
  }

  /** The rows at the given positions, in that order. */
  function RowsAt(rows: seq<Enriched>, sel: seq<nat>): (top: seq<Enriched>)
    requires forall k :: 0 <= k < |sel| ==> sel[k] < |rows|
    ensures |top| == |sel| && forall k :: 0 <= k < |sel| ==> top[k] == rows[sel[k]]
  {
    seq(|sel|, k requires 0 <= k < |sel| => rows[sel[k]])
  }

  /** The table's facts about positions, read as facts about the rows at
      those positions. */
  lemma RowsOfTable(rows: seq<Enriched>, dir: Direction, col: seq<Option<real>>, sel: seq<nat>, top: seq<Enriched>)
    requires col == Deltas(rows) && sel == Table(col, TopCount, dir)
    requires top == RowsAt(rows, sel)
    ensures forall k :: 0 <= k < |top| ==> (top[k].delta1d.Some? <==> k < Min(TopCount, |Candidates(col)|))
    ensures forall i, j :: 0 <= i < j < |top| && top[j].delta1d.Some? ==>
      top[i].delta1d.Some? && (Better(dir, top[i].delta1d.value, top[j].delta1d.value) || top[i].delta1d == top[j].delta1d)
    ensures forall k, j :: 0 <= k < |top| && top[k].delta1d.Some? && 0 <= j < |rows| && rows[j].delta1d.Some? && rows[j] !in top ==>
      !Better(dir, rows[j].delta1d.value, top[k].delta1d.value)
  {
    var m := Min(TopCount, |Candidates(col)|);
    forall i, j | 0 <= i < j < |top| && top[j].delta1d.Some?
      ensures top[i].delta1d.Some? && (Better(dir, top[i].delta1d.value, top[j].delta1d.value) || top[i].delta1d == top[j].delta1d)
    {
      assert col[sel[j]] == top[j].delta1d && col[sel[i]] == top[i].delta1d;
      assert StrictlyOutranks(dir, At(col, sel[i]), At(col, sel[j]));
    }
    NoBetterRowLeftOut(rows, dir, col, m, sel, top);
  }

  /** A row with a delta that is not listed lost to every listed row that
      has one. */
  lemma NoBetterRowLeftOut(rows: seq<Enriched>, dir: Direction, col: seq<Option<real>>, m: nat, sel: seq<nat>, top: seq<Enriched>)
    requires |col| == |rows| && forall i :: 0 <= i < |rows| ==> col[i] == rows[i].delta1d
    requires m <= |sel| && forall k :: 0 <= k < |sel| ==> sel[k] < |col| && (col[sel[k]].Some? <==> k < m)
    requires forall k, p :: 0 <= k < m && 0 <= p < |col| && col[p].Some? && p !in sel ==>
      StrictlyOutranks(dir, At(col, sel[k]), At(col, p))
    requires |top| == |sel| && forall k :: 0 <= k < |sel| ==> top[k] == rows[sel[k]]
    ensures forall k, j :: 0 <= k < |top| && top[k].delta1d.Some? && 0 <= j < |rows| && rows[j].delta1d.Some? && rows[j] !in top ==>
      !Better(dir, rows[j].delta1d.value, top[k].delta1d.value)
  {
    forall k, j | 0 <= k < |top| && top[k].delta1d.Some? && 0 <= j < |rows| && rows[j].delta1d.Some? && rows[j] !in top
      ensures !Better(dir, rows[j].delta1d.value, top[k].delta1d.value)
    {
      assert j !in sel;
      assert StrictlyOutranks(dir, At(col, sel[k]), At(col, j));
    }
  }
}
