/**
  Outlier detection on GDP per capita: rows whose z-score is above 2 are the
  overperformers, listed by z-score descending; rows below -2 are the
  underperformers, listed ascending; the rest between -2 and 2 are typical.
  The z-scores come from `scipy.stats.zscore` and are inputs here; a NaN
  z-score (all values equal, zero variance) is None.  A NaN compares false, so
  such a row is in none of the sets.  The quadrant chart samples up to 20 typical
  rows, but sizes that sample by the whole table, so it can ask for more typical
  rows than there are.
 */
module Outliers {
  import opened Wrappers
  import Tables
  import opened Loader

  const Threshold: real := 2.0

  /** A clean row together with its z-score. */
  datatype Scored = Scored(metro: Metro, z: Option<real>)

  function ZOf(s: Scored): real { if s.z.Some? then s.z.value else 0.0 }
  function NegZOf(s: Scored): real { -ZOf(s) }

  predicate IsHigh(s: Scored) { s.z.Some? && s.z.value > Threshold }
  predicate IsLow(s: Scored) { s.z.Some? && s.z.value < -Threshold }
  predicate IsTypical(s: Scored) { s.z.Some? && -Threshold <= s.z.value <= Threshold }
  predicate IsNaN(s: Scored) { s.z.None? }

  /** `clean_df['z_score'] = z_scores`: one score per clean row, in table order. */
  function AttachScores(ms: seq<Metro>, zs: seq<Option<real>>): (r: seq<Scored>)
    requires |zs| == |ms|
    ensures |r| == |ms|
    ensures forall i :: 0 <= i < |ms| ==> r[i].metro == ms[i] && r[i].z == zs[i]
  {
    seq(|ms|, i requires 0 <= i < |ms| => Scored(ms[i], zs[i]))
  }

  /** `clean_df[clean_df['z_score'] > 2].sort_values('z_score', ascending=False)` */
  function OutliersHigh(rows: seq<Scored>): (r: seq<Scored>)
    ensures multiset(r) == multiset(Tables.Filter(rows, IsHigh))
    ensures forall i :: 0 <= i < |r| ==> IsHigh(r[i])
    ensures forall i :: 0 <= i < |rows| && IsHigh(rows[i]) ==> rows[i] in r
    ensures forall i, j :: 0 <= i < j < |r| ==> r[i].z.value >= r[j].z.value
  {
    var high := Tables.Filter(rows, IsHigh);
    var r := Tables.SortDesc(high, ZOf);
    Tables.SameMembers(high, r);
    assert forall i :: 0 <= i < |r| ==> IsHigh(r[i]) by {
      forall i | 0 <= i < |r| ensures IsHigh(r[i]) {
        Tables.InFilter(rows, IsHigh, r[i]);
      }
    }
    r
  }

  /** `clean_df[clean_df['z_score'] < -2].sort_values('z_score')` */
  function OutliersLow(rows: seq<Scored>): (r: seq<Scored>)
    ensures multiset(r) == multiset(Tables.Filter(rows, IsLow))
    ensures forall i :: 0 <= i < |r| ==> IsLow(r[i])
    ensures forall i :: 0 <= i < |rows| && IsLow(rows[i]) ==> rows[i] in r
    ensures forall i, j :: 0 <= i < j < |r| ==> r[i].z.value <= r[j].z.value
  {
    var low := Tables.Filter(rows, IsLow);
    var r := Tables.SortDesc(low, NegZOf);
    LowSorted(rows, r);
    Tables.SameMembers(low, r);
    r
  }

  /** The sorted underperformers are exactly the low rows, ascending. */
  lemma {:induction false} LowSorted(rows: seq<Scored>, r: seq<Scored>)
    requires r == Tables.SortDesc(Tables.Filter(rows, IsLow), NegZOf)
    ensures forall i :: 0 <= i < |r| ==> IsLow(r[i])
    ensures forall i, j :: 0 <= i < j < |r| ==> r[i].z.value <= r[j].z.value
  {
    var low := Tables.Filter(rows, IsLow);
    Tables.SameMembers(low, r);
    forall i | 0 <= i < |r| ensures IsLow(r[i]) {
      Tables.InFilter(rows, IsLow, r[i]);
    }
    AscendingByZ(r);
  }

  /** Descending by the negated z-score is ascending by the z-score. */
  lemma {:induction false} AscendingByZ(r: seq<Scored>)
    requires Tables.SortedDesc(r, NegZOf)
    ensures forall i, j :: 0 <= i < j < |r| ==> ZOf(r[i]) <= ZOf(r[j])
  {
    forall i, j | 0 <= i < j < |r| ensures ZOf(r[i]) <= ZOf(r[j]) {
      assert NegZOf(r[i]) >= NegZOf(r[j]);
    }
  }

  /** The typical rows, `(z <= 2) & (z >= -2)`, from which the chart samples. */
  function Typical(rows: seq<Scored>): (r: seq<Scored>)
    ensures r == Tables.Filter(rows, IsTypical)
    ensures multiset(r) <= multiset(rows)
    ensures |r| <= |rows|
    ensures forall i :: 0 <= i < |r| ==> IsTypical(r[i])
    ensures forall i :: 0 <= i < |rows| && IsTypical(rows[i]) ==> rows[i] in r
  {
    Tables.FilterIncluded(rows, IsTypical);
    Tables.Filter(rows, IsTypical)
  }

  /** No row is both an overperformer and an underperformer. */
  lemma {:induction false} OutliersDisjoint(rows: seq<Scored>)
    ensures forall x :: x in OutliersHigh(rows) ==> x !in OutliersLow(rows)
  {
  }

  /** Each row is high, low, typical or NaN, so the four filters split the rows. */
  lemma {:induction false} FourWaySplit(rows: seq<Scored>)
    ensures multiset(Tables.Filter(rows, IsHigh)) + multiset(Tables.Filter(rows, IsLow))
              + multiset(Tables.Filter(rows, IsTypical)) + multiset(Tables.Filter(rows, IsNaN))
         == multiset(rows)
  {
    if rows != [] {
      var x, tail := rows[0], rows[1..];
      assert multiset(rows) == multiset{x} + multiset(tail) by {
        assert rows == [x] + tail;
      }
      FourWaySplit(tail);
      Tables.FilterCons(rows, IsHigh);
      Tables.FilterCons(rows, IsLow);
      Tables.FilterCons(rows, IsTypical);
      Tables.FilterCons(rows, IsNaN);
      var h, l, t, n := multiset(Tables.Filter(tail, IsHigh)), multiset(Tables.Filter(tail, IsLow)),
                        multiset(Tables.Filter(tail, IsTypical)), multiset(Tables.Filter(tail, IsNaN));
      assert h + l + t + n == multiset(tail);
      if IsHigh(x) {
        assert multiset(Tables.Filter(rows, IsHigh)) == multiset{x} + h;
      } else if IsLow(x) {
        assert multiset(Tables.Filter(rows, IsLow)) == multiset{x} + l;
      } else if IsTypical(x) {
        assert multiset(Tables.Filter(rows, IsTypical)) == multiset{x} + t;
      } else {
        assert multiset(Tables.Filter(rows, IsNaN)) == multiset{x} + n;
      }
    }
  }

  /**
    The high, low and typical sets, with the rows whose z-score is NaN, are a
    partition of the rows: every row is in exactly one of the four, once.
   */
  lemma {:induction false} OutlierPartition(rows: seq<Scored>)
    ensures multiset(OutliersHigh(rows)) + multiset(OutliersLow(rows)) + multiset(Typical(rows))
              + multiset(Tables.Filter(rows, IsNaN))
         == multiset(rows)
  {
    FourWaySplit(rows);
  }

  /** With zero variance every z-score is NaN: both outlier lists and the typical set come out empty. */
  lemma {:induction false} ZeroVarianceSelectsNothing(rows: seq<Scored>)
    requires forall i :: 0 <= i < |rows| ==> rows[i].z.None?
    ensures OutliersHigh(rows) == [] && OutliersLow(rows) == [] && Typical(rows) == []
  {
    Tables.FilterNone(rows, IsHigh);
    Tables.FilterNone(rows, IsLow);
    Tables.FilterNone(rows, IsTypical);
    assert |OutliersHigh(rows)| == |multiset(OutliersHigh(rows))|;
    assert |OutliersLow(rows)| == |multiset(OutliersLow(rows))|;
  }

  // ---------------------------------------------------------------- sampling the typical rows

  /** At most this many typical rows are drawn for the quadrant chart. */
  const SampleCap: nat := 20

  /** `.sample(n)` draws n distinct rows without replacement, so it needs at least n rows. */
  predicate CanSample(population: seq<Scored>, n: nat)
  {
    n <= |population|
  }

  /** The sample size as written, `min(20, len(clean_df))`: counted over the whole table. */
  function RequestedSample(rows: seq<Scored>): (n: nat)
    ensures n <= SampleCap && n <= |rows|
    ensures n == SampleCap || n == |rows|
  {
    Tables.Min(SampleCap, |rows|)
  }

  /**
    With zero variance every typical row is gone while the table is not empty, so
    the request exceeds the typical rows and `.sample` raises.
   */
  lemma {:induction false} ZeroVarianceSampleFails(rows: seq<Scored>)
    requires rows != []
    requires forall i :: 0 <= i < |rows| ==> rows[i].z.None?
    ensures !CanSample(Typical(rows), RequestedSample(rows))
  {
    ZeroVarianceSelectsNothing(rows);
  }

  predicate NotTypical(s: Scored) { !IsTypical(s) }

  /** A row that is not typical is missing from the typical rows, so there are fewer of them than rows. */
  lemma {:induction false} FewerTypical(rows: seq<Scored>, i: nat)
    requires i < |rows| && !IsTypical(rows[i])
    ensures |Typical(rows)| < |rows|
  {
    Tables.FilterPartition(rows, IsTypical, NotTypical);
    var others := Tables.Filter(rows, NotTypical);
    assert rows[i] in others;
    assert |multiset(others)| >= 1;
    assert |multiset(rows)| == |multiset(Typical(rows))| + |multiset(others)|;
  }

  /**
    In a table of at most 20 rows one outlier (or one NaN score) is enough: the
    request is the whole table, which the typical rows no longer fill.
   */
  lemma {:induction false} SmallTableSampleFails(rows: seq<Scored>, i: nat)
    requires |rows| <= SampleCap
    requires i < |rows| && !IsTypical(rows[i])
    ensures !CanSample(Typical(rows), RequestedSample(rows))
  {
    FewerTypical(rows, i);
  }

  /** The sample size the chart evidently intends: at most 20 of the typical rows, which can always be drawn. */
  function TypicalSample(rows: seq<Scored>): (n: nat)
    ensures CanSample(Typical(rows), n)
    ensures n <= SampleCap
    ensures n == SampleCap || n == |Typical(rows)|
  {
    Tables.Min(SampleCap, |Typical(rows)|)
  }

  /** Wherever the sample as written succeeds, the corrected size is the same. */
  lemma {:induction false} TypicalSampleAgrees(rows: seq<Scored>)
    requires CanSample(Typical(rows), RequestedSample(rows))
    ensures TypicalSample(rows) == RequestedSample(rows)
  {
  }
}
