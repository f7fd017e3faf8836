/** Boolean-mask row selection by date, `df[mask(df['fecha'])]`: the one
    operation behind the cutoff split, the window around the cutoff and the
    date-range filter. */
module Filters {
  import opened Metrics

  /** The rows whose date satisfies `keep`, in their original order. */
  function Filter(rows: seq<Enriched>, keep: int -> bool): (r: seq<Enriched>)
    ensures |r| <= |rows|
  {
    if rows == [] then []
    else
      var last := rows[|rows| - 1];
      Filter(rows[..|rows| - 1], keep) + (if keep(last.obs.date) then [last] else [])
  }

  /** A row is selected exactly when it is in the input and its date passes. */
  lemma {:induction false} FilterMembership(rows: seq<Enriched>, keep: int -> bool)
    ensures forall x :: x in Filter(rows, keep) <==> x in rows && keep(x.obs.date)
  {
    if rows != [] {
      var init, last := rows[..|rows| - 1], rows[|rows| - 1];
      FilterMembership(init, keep);
      assert rows == init + [last];
    }
  }

  lemma {:induction false} FilterAppend(a: seq<Enriched>, b: seq<Enriched>, keep: int -> bool)
    ensures Filter(a + b, keep) == Filter(a, keep) + Filter(b, keep)
  {
    if b == [] {
      assert a + b == a;
    } else {
      var b', last := b[..|b| - 1], b[|b| - 1];
      FilterAppend(a, b', keep);
      assert (a + b)[..|a + b| - 1] == a + b';
      assert (a + b)[|a + b| - 1] == last;
      var tail := if keep(last.obs.date) then [last] else [];
      assert Filter(a + b, keep) == Filter(a + b', keep) + tail;
      assert Filter(b, keep) == Filter(b', keep) + tail;
    }
  }

  lemma {:induction false} FilterKeepsAll(rows: seq<Enriched>, keep: int -> bool)
    requires forall i :: 0 <= i < |rows| ==> keep(rows[i].obs.date)
    ensures Filter(rows, keep) == rows
  {
    if rows != [] {
      FilterKeepsAll(rows[..|rows| - 1], keep);
    }
  }

  lemma {:induction false} FilterDropsAll(rows: seq<Enriched>, keep: int -> bool)
    requires forall i :: 0 <= i < |rows| ==> !keep(rows[i].obs.date)
    ensures Filter(rows, keep) == []
  {
    if rows != [] {
      FilterDropsAll(rows[..|rows| - 1], keep);
    }
  }

  /** Two masks that agree on the dates present select the same rows. */
  lemma {:induction false} FilterCongruent(rows: seq<Enriched>, p: int -> bool, q: int -> bool)
    requires forall i :: 0 <= i < |rows| ==> p(rows[i].obs.date) == q(rows[i].obs.date)
    ensures Filter(rows, p) == Filter(rows, q)
  {
    if rows != [] {
      FilterCongruent(rows[..|rows| - 1], p, q);
    }
  }

  /** Filtering twice is filtering once by the conjunction of the two masks. */
  lemma {:induction false} FilterOfFilter(rows: seq<Enriched>, p: int -> bool, q: int -> bool, both: int -> bool)
    requires forall d :: both(d) == (p(d) && q(d))
    ensures Filter(Filter(rows, p), q) == Filter(rows, both)
  {
    if rows != [] {
      var init, last := rows[..|rows| - 1], rows[|rows| - 1];
      FilterOfFilter(init, p, q, both);
      var tail := if p(last.obs.date) then [last] else [];
      FilterAppend(Filter(init, p), tail, q);
      if p(last.obs.date) {
        assert tail[..0] == [];
      }
    }
  }

  /** A mask and its negation split the rows: every row goes to exactly one
      side, so the sizes add up and no row is lost or duplicated. */
  lemma FilterComplement(rows: seq<Enriched>, p: int -> bool, q: int -> bool)
    requires forall d :: q(d) == !p(d)
    ensures |Filter(rows, p)| + |Filter(rows, q)| == |rows|
    ensures multiset(Filter(rows, p)) + multiset(Filter(rows, q)) == multiset(rows)
  {
    ComplementMultisets(rows, p, q);
    assert |multiset(Filter(rows, p))| + |multiset(Filter(rows, q))| == |multiset(rows)|;
  }

  lemma {:induction false} ComplementMultisets(rows: seq<Enriched>, p: int -> bool, q: int -> bool)
    requires forall d :: q(d) == !p(d)
    ensures multiset(Filter(rows, p)) + multiset(Filter(rows, q)) == multiset(rows)
  {
    if rows != [] {
      var init, last := rows[..|rows| - 1], rows[|rows| - 1];
      ComplementMultisets(init, p, q);
      assert rows == init + [last];
      if p(last.obs.date) {
        ExtendComplement(init, last, p, q);
      } else {
        ExtendComplement(init, last, q, p);
      }
    }
  }

  /** Appending a row that `p` keeps and `q` drops extends the partition. */
  lemma ExtendComplement(init: seq<Enriched>, last: Enriched, p: int -> bool, q: int -> bool)
    requires p(last.obs.date) && !q(last.obs.date)
    requires multiset(Filter(init, p)) + multiset(Filter(init, q)) == multiset(init)
    ensures multiset(Filter(init + [last], p)) + multiset(Filter(init + [last], q)) == multiset(init + [last])
  {
    var rows := init + [last];
    assert rows[..|rows| - 1] == init;
    var fp, fq := Filter(init, p), Filter(init, q);
    assert Filter(rows, p) == fp + [last];
    assert Filter(rows, q) == fq;
    Snoc(init, last);
    Snoc(fp, last);
    var mp, mq, m := multiset(fp), multiset(fq), multiset(init);
    assert mp + mq == m;
    assert (mp + multiset{last}) + mq == m + multiset{last};
  }

  lemma Snoc(s: seq<Enriched>, x: Enriched)
    ensures multiset(s + [x]) == multiset(s) + multiset{x}
  {
  }

  /** Filtering keeps the relative order of the rows, so a date-ordered series
      stays date-ordered. */
  lemma {:induction false} FilterKeepsDateOrder(rows: seq<Enriched>, keep: int -> bool)
    requires InDateOrder(rows)
    ensures InDateOrder(Filter(rows, keep))
  {
    if rows != [] {
      var init, last := rows[..|rows| - 1], rows[|rows| - 1];
      FilterKeepsDateOrder(init, keep);
      FilterMembership(init, keep);
      var f := Filter(init, keep);
      forall x | x in f
        ensures x.obs.date <= last.obs.date
      {
        var i :| 0 <= i < |init| && init[i] == x;
      }
    }
  }
}
