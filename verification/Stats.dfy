/** Sums and NaN-skipping means, as pandas `mean()` computes them. */
module Stats {
  import opened Optional

  function Sum(s: seq<real>): real
  {
    if s == [] then 0.0 else Sum(s[..|s| - 1]) + s[|s| - 1]
  }

  /** The defined entries of a column, in order (NaN dropped). */
  function Defined(v: seq<Option<real>>): (r: seq<real>)
    ensures |r| <= |v|
  {
    if v == [] then []
    else Defined(v[..|v| - 1]) + (if v[|v| - 1].Some? then [v[|v| - 1].value] else [])
  }

  /** Every value defined: a column read from a NaN-free input. */
  function Lift(xs: seq<real>): (v: seq<Option<real>>)
    ensures |v| == |xs|
    ensures forall i :: 0 <= i < |xs| ==> v[i] == Some(xs[i])
  {
    seq(|xs|, i requires 0 <= i < |xs| => Some(xs[i]))
  }

  ghost predicate AllUndefined(v: seq<Option<real>>)
  {
    forall i :: 0 <= i < |v| ==> v[i].None?
  }

  /** pandas `Series.mean()`: the arithmetic mean of the defined entries, NaN when
      there is none. Undefined entries are skipped, never counted as zero. */
  function MeanDefined(v: seq<Option<real>>): (r: Option<real>)
    ensures r.None? <==> AllUndefined(v)
  {
    var d := Defined(v);
    DefinedEmptyIffAllUndefined(v);
    if |d| == 0 then None else Some(Sum(d) / (|d| as real))
  }

  lemma {:induction false} DefinedEmptyIffAllUndefined(v: seq<Option<real>>)
    ensures |Defined(v)| == 0 <==> AllUndefined(v)
  {
    if v != [] {
      var p := v[..|v| - 1];
      DefinedEmptyIffAllUndefined(p);
      if AllUndefined(v) {
        assert AllUndefined(p) by {
          forall i | 0 <= i < |p| ensures p[i].None? {
            assert p[i] == v[i];
          }
        }
      }
    }
  }

  lemma {:induction false} DefinedAppend(a: seq<Option<real>>, b: seq<Option<real>>)
    ensures Defined(a + b) == Defined(a) + Defined(b)
  {
    if b == [] {
      assert a + b == a;
    } else {
      var b' := b[..|b| - 1];
      DefinedAppend(a, b');
      assert (a + b)[..|a + b| - 1] == a + b';
    }
  }

  lemma {:induction false} SumAppend(a: seq<real>, b: seq<real>)
    ensures Sum(a + b) == Sum(a) + Sum(b)
  {
    if b == [] {
      assert a + b == a;
    } else {
      var b' := b[..|b| - 1];
      SumAppend(a, b');
      assert (a + b)[..|a + b| - 1] == a + b';
    }
  }

  lemma {:induction false} DefinedOfLift(xs: seq<real>)
    ensures Defined(Lift(xs)) == xs
  {
    if xs != [] {
      var p := xs[..|xs| - 1];
      DefinedOfLift(p);
      assert Lift(xs)[..|xs| - 1] == Lift(p);
    }
  }

  /** A mean over a NaN-free window is its plain arithmetic mean. */
  lemma MeanOfLift(xs: seq<real>)
    requires |xs| > 0
    ensures MeanDefined(Lift(xs)) == Some(Sum(xs) / (|xs| as real))
  {
    DefinedOfLift(xs);
  }

  /** Appending an undefined entry does not move the mean: NaN is skipped, not
      averaged in as zero. */
  lemma NaNIsSkipped(v: seq<Option<real>>)
    ensures MeanDefined(v + [None]) == MeanDefined(v)
  {
    DefinedAppend(v, [None]);
    var one: seq<Option<real>> := [None];
    assert one[..0] == [];
    assert Defined(one) == [];
    assert Defined(v + [None]) == Defined(v);
  }

  lemma {:induction false} SumBounded(s: seq<real>, lo: real, hi: real)
    requires forall k :: 0 <= k < |s| ==> lo <= s[k] <= hi
    ensures (|s| as real) * lo <= Sum(s) <= (|s| as real) * hi
  {
    if s != [] {
      SumBounded(s[..|s| - 1], lo, hi);
    }
  }

  lemma {:induction false} DefinedBounded(v: seq<Option<real>>, lo: real, hi: real)
    requires forall i :: 0 <= i < |v| && v[i].Some? ==> lo <= v[i].value <= hi
    ensures forall k :: 0 <= k < |Defined(v)| ==> lo <= Defined(v)[k] <= hi
  {
    if v != [] {
      var p := v[..|v| - 1];
      DefinedBounded(p, lo, hi);
    }
  }

  lemma DivisionBounded(s: real, n: real, lo: real, hi: real)
    requires n > 0.0
    requires n * lo <= s <= n * hi
    ensures lo <= s / n <= hi
  {
    var m := s / n;
    assert m * n == s;
  }

  /** The mean of the defined entries lies between any lower and upper bound of
      those entries, in particular between their minimum and maximum. */
  lemma MeanBounded(v: seq<Option<real>>, lo: real, hi: real)
    requires forall i :: 0 <= i < |v| && v[i].Some? ==> lo <= v[i].value <= hi
    requires !AllUndefined(v)
    ensures lo <= MeanDefined(v).value <= hi
  {
    var d := Defined(v);
    DefinedEmptyIffAllUndefined(v);
    assert lo <= Sum(d) / (|d| as real) <= hi by {
      DefinedBounded(v, lo, hi);
      SumBounded(d, lo, hi);
      DivisionBounded(Sum(d), |d| as real, lo, hi);
    }
    MeanOfNonEmpty(v);
  }

  /** Entry-wise scaling of a column. */
  function Scale(v: seq<Option<real>>, c: real): (w: seq<Option<real>>)
    ensures |w| == |v|
    ensures forall i :: 0 <= i < |v| ==> w[i] == Times(v[i], c)
  {
    seq(|v|, i requires 0 <= i < |v| => Times(v[i], c))
  }

  function ScaleAll(s: seq<real>, c: real): (t: seq<real>)
    ensures |t| == |s|
    ensures forall i :: 0 <= i < |s| ==> t[i] == s[i] * c
  {
    seq(|s|, i requires 0 <= i < |s| => s[i] * c)
  }

  lemma ScaleAllAppend(a: seq<real>, b: seq<real>, c: real)
    ensures ScaleAll(a + b, c) == ScaleAll(a, c) + ScaleAll(b, c)
  {
    assert forall i | 0 <= i < |a + b| :: ScaleAll(a + b, c)[i] == (ScaleAll(a, c) + ScaleAll(b, c))[i];
  }

  lemma {:induction false} DefinedOfScale(v: seq<Option<real>>, c: real)
    ensures Defined(Scale(v, c)) == ScaleAll(Defined(v), c)
  {
    if v != [] {
      var p := v[..|v| - 1];
      var last := v[|v| - 1];
      DefinedOfScale(p, c);
      var w := Scale(v, c);
      assert w[..|v| - 1] == Scale(p, c);
      assert w[|v| - 1] == Times(last, c);
      assert Defined(w) == Defined(w[..|w| - 1]) + (if w[|w| - 1].Some? then [w[|w| - 1].value] else []);
      var tail := if last.Some? then [last.value] else [];
      assert Defined(v) == Defined(p) + tail;
      ScaleAllAppend(Defined(p), tail, c);
      if last.Some? {
        assert ScaleAll(tail, c)[0] == last.value * c;
        assert ScaleAll(tail, c) == [last.value * c];
        assert w[|w| - 1].Some? && w[|w| - 1].value == last.value * c;
        assert Defined(w) == Defined(Scale(p, c)) + [last.value * c];
        assert ScaleAll(Defined(v), c) == ScaleAll(Defined(p), c) + [last.value * c];
      } else {
        assert ScaleAll(tail, c) == [];
      }
    }
  }

  lemma {:induction false} SumOfScale(s: seq<real>, c: real)
    ensures Sum(ScaleAll(s, c)) == Sum(s) * c
  {
    if s != [] {
      var p := s[..|s| - 1];
      SumOfScale(p, c);
      assert ScaleAll(s, c)[..|s| - 1] == ScaleAll(p, c) by {
        assert forall i | 0 <= i < |p| :: ScaleAll(s, c)[i] == ScaleAll(p, c)[i];
      }
      Distributes(Sum(p), s[|s| - 1], c);
    }
  }

  lemma Distributes(a: real, b: real, c: real)
    ensures a * c + b * c == (a + b) * c
  {
  }

  /** Scaling every entry scales the mean: averaging percentages equals taking
      the percentage of the averaged ratios. */
  lemma MeanOfScale(v: seq<Option<real>>, c: real)
    ensures MeanDefined(Scale(v, c)) == Times(MeanDefined(v), c)
  {
    var total, scaled, n := ScaledSums(v, c);
    if n > 0.0 {
      var a, b := MeanDefined(v), MeanDefined(Scale(v, c));
      ScaledMean(total, scaled, n, c, a, b);
    }
  }

  /** The sums and the common count behind the two means of `MeanOfScale`. */
  lemma ScaledSums(v: seq<Option<real>>, c: real) returns (total: real, scaled: real, n: real)
    ensures scaled == total * c && n >= 0.0
    ensures n == 0.0 ==> AllUndefined(v) && AllUndefined(Scale(v, c))
    ensures n > 0.0 ==> MeanDefined(v) == Some(total / n) && MeanDefined(Scale(v, c)) == Some(scaled / n)
  {
    var d, e := Defined(v), Defined(Scale(v, c));
    DefinedOfScale(v, c);
    SumOfScale(d, c);
    DefinedEmptyIffAllUndefined(v);
    DefinedEmptyIffAllUndefined(Scale(v, c));
    total, scaled, n := Sum(d), Sum(e), |d| as real;
    assert |e| as real == n;
  }

  lemma ScaledMean(total: real, scaled: real, n: real, c: real, a: Option<real>, b: Option<real>)
    requires n > 0.0 && scaled == total * c
    requires a == Some(total / n) && b == Some(scaled / n)
    ensures b == Times(a, c)
  {
    DivisionScales(total, scaled, n, c);
    var r := Times(a, c);
    assert r.value == (total / n) * c;
  }

  lemma MeanOfNonEmpty(v: seq<Option<real>>)
    requires |Defined(v)| > 0
    ensures MeanDefined(v) == Some(Sum(Defined(v)) / (|Defined(v)| as real))
  {
  }

  /** `m`, when defined, spreads the sum of the defined entries of `v` evenly
      over them: it times their number is their sum. */
  predicate SpreadsEvenly(m: Option<real>, v: seq<Option<real>>)
  {
    m.Some? ==> m.value * (|Defined(v)| as real) == Sum(Defined(v))
  }

  /** A defined mean times the number of defined entries is their sum. */
  lemma MeanTimesCount(v: seq<Option<real>>)
    ensures SpreadsEvenly(MeanDefined(v), v)
  {
    var d := Defined(v);
    if |d| > 0 {
      QuotientTimesDivisor(Sum(d), |d| as real);
    }
  }

  /** A mean read off a sum and a count, restated with the values they are
      known to have. */
  lemma MeanOfKnownParts(m: Option<real>, total: real, count: nat, total': real, count': nat)
    requires count > 0 && m == Some(total / (count as real)) && total == total' && count == count'
    ensures m == Some(total' / (count' as real))
  {
  }

  lemma QuotientTimesDivisor(total: real, n: real)
    requires n != 0.0
    ensures (total / n) * n == total
  {
  }

  lemma DivisionScales(total: real, scaled: real, n: real, c: real)
    requires n > 0.0 && scaled == total * c
    ensures scaled / n == (total / n) * c
  {
    var m := total / n;
    assert m * n == total;
    assert (m * c) * n == scaled;
  }
}
