/**
  The outlier quadrant chart: GDP per capita and population are min-max
  normalised over the clean table, and each metro is labelled by which side of
  0.5 the two normalised values fall on.  The label column starts as "Average"
  and four masked assignments overwrite it in order; a value exactly 0.5, or a
  NaN from a column whose values are all equal, matches no mask.
 */
module Quadrants {
  import opened Floats
  import opened Loader

  const Middle: real := 0.5

  datatype Quadrant = Average | LargeEfficient | SmallEfficient | LargeLessEfficient | SmallLessEfficient

  /** The label the chart shows. */
  function Label(q: Quadrant): string
  {
    match q
    case Average => "Average"
    case LargeEfficient => "Large & Efficient"
    case SmallEfficient => "Small & Efficient"
    case LargeLessEfficient => "Large & Less Efficient"
    case SmallLessEfficient => "Small & Less Efficient"
  }

  /** Distinct quadrants have distinct labels. */
  lemma {:induction false} LabelsDistinct(p: Quadrant, q: Quadrant)
    requires p != q
    ensures Label(p) != Label(q)
  {
  }

  function MinOf(xs: seq<real>): (m: real)
    requires |xs| > 0
    ensures m in xs
    ensures forall i :: 0 <= i < |xs| ==> m <= xs[i]
  {
    if |xs| == 1 then xs[0]
    else
      var rest := MinOf(xs[1..]);
      if xs[0] <= rest then xs[0] else rest
  }

  function MaxOf(xs: seq<real>): (m: real)
    requires |xs| > 0
    ensures m in xs
    ensures forall i :: 0 <= i < |xs| ==> xs[i] <= m
  {
    if |xs| == 1 then xs[0]
    else
      var rest := MaxOf(xs[1..]);
      if xs[0] >= rest then xs[0] else rest
  }

  /** `(col - col.min()) / (col.max() - col.min())` */
  function Normalize(xs: seq<real>): (r: seq<Quotient>)
    ensures |r| == |xs|
  {
    if xs == [] then [] else Rescale(xs, MinOf(xs), MaxOf(xs))
  }

  /** Each value shifted by `lo` and divided by `hi - lo`. */
  function Rescale(xs: seq<real>, lo: real, hi: real): (r: seq<Quotient>)
    ensures |r| == |xs|
  {
    if xs == [] then [] else [Ratio(xs[0] - lo, hi - lo)] + Rescale(xs[1..], lo, hi)
  }

  lemma {:induction false} RescaleAt(xs: seq<real>, lo: real, hi: real, i: nat)
    requires i < |xs|
    ensures Rescale(xs, lo, hi)[i] == Ratio(xs[i] - lo, hi - lo)
  {
    if i > 0 {
      RescaleAt(xs[1..], lo, hi, i - 1);
    }
  }

  /** With at least two distinct values, every normalised value lies in [0, 1], the smallest at 0 and the largest at 1. */
  lemma {:induction false} NormalizeInUnitRange(xs: seq<real>)
    requires |xs| > 0 && MinOf(xs) < MaxOf(xs)
    ensures forall i :: 0 <= i < |xs| ==> Normalize(xs)[i].Value? && 0.0 <= Normalize(xs)[i].v <= 1.0
    ensures forall i :: 0 <= i < |xs| && xs[i] == MinOf(xs) ==> Normalize(xs)[i] == Value(0.0)
    ensures forall i :: 0 <= i < |xs| && xs[i] == MaxOf(xs) ==> Normalize(xs)[i] == Value(1.0)
  {
    var lo, hi := MinOf(xs), MaxOf(xs);
    forall i | 0 <= i < |xs|
      ensures Normalize(xs)[i].Value? && 0.0 <= Normalize(xs)[i].v <= 1.0
      ensures xs[i] == lo ==> Normalize(xs)[i] == Value(0.0)
      ensures xs[i] == hi ==> Normalize(xs)[i] == Value(1.0)
    {
      NormalizeAt(xs, i);
      RescaleInUnitRange(xs, lo, hi, i);
    }
  }

  lemma {:induction false} NormalizeAt(xs: seq<real>, i: nat)
    requires i < |xs|
    ensures Normalize(xs)[i] == Rescale(xs, MinOf(xs), MaxOf(xs))[i]
  {
  }

  /** A value between `lo` and `hi` rescales into [0, 1], `lo` to 0 and `hi` to 1. */
  lemma {:induction false} RescaleInUnitRange(xs: seq<real>, lo: real, hi: real, i: nat)
    requires i < |xs| && lo < hi && lo <= xs[i] <= hi
    ensures Rescale(xs, lo, hi)[i].Value? && 0.0 <= Rescale(xs, lo, hi)[i].v <= 1.0
    ensures xs[i] == lo ==> Rescale(xs, lo, hi)[i] == Value(0.0)
    ensures xs[i] == hi ==> Rescale(xs, lo, hi)[i] == Value(1.0)
  {
    RescaleAt(xs, lo, hi, i);
    UnitFraction(xs[i] - lo, hi - lo);
    UnitFractionEnds(hi - lo);
  }

  /** 0 / d is 0 and d / d is 1. */
  lemma {:induction false} UnitFractionEnds(d: real)
    requires d > 0.0
    ensures Ratio(0.0, d) == Value(0.0) && Ratio(d, d) == Value(1.0)
  {
  }

  /** A quotient n / d with 0 <= n <= d and d > 0 lies in [0, 1]. */
  lemma {:induction false} UnitFraction(n: real, d: real)
    requires d > 0.0 && 0.0 <= n <= d
    ensures Ratio(n, d).Value? && 0.0 <= Ratio(n, d).v <= 1.0
  {
    var v := Ratio(n, d).v;
    assert v == n / d;
  }

  /** A column whose values are all equal normalises to NaN throughout (0 / 0). */
  lemma {:induction false} NormalizeConstant(xs: seq<real>)
    requires |xs| > 0 && MinOf(xs) == MaxOf(xs)
    ensures forall i :: 0 <= i < |xs| ==> Normalize(xs)[i].NaN?
  {
    var lo := MinOf(xs);
    forall i | 0 <= i < |xs| ensures Normalize(xs)[i].NaN? {
      NormalizeAt(xs, i);
      RescaleConstant(xs, lo, i);
    }
  }

  /** Rescaling `lo` by a zero width is 0 / 0. */
  lemma {:induction false} RescaleConstant(xs: seq<real>, lo: real, i: nat)
    requires i < |xs| && xs[i] == lo
    ensures Rescale(xs, lo, lo)[i].NaN?
  {
    RescaleAt(xs, lo, lo, i);
  }

  /** The reference labelling: both sides of 0.5 must be strict for a non-Average label. */
  function QuadrantOf(g: Quotient, p: Quotient): (q: Quadrant)
    ensures q == LargeEfficient <==> Greater(g, Middle) && Greater(p, Middle)
    ensures q == SmallEfficient <==> Greater(g, Middle) && Less(p, Middle)
    ensures q == LargeLessEfficient <==> Less(g, Middle) && Greater(p, Middle)
    ensures q == SmallLessEfficient <==> Less(g, Middle) && Less(p, Middle)
  {
    if Greater(g, Middle) && Greater(p, Middle) then LargeEfficient
    else if Greater(g, Middle) && Less(p, Middle) then SmallEfficient
    else if Less(g, Middle) && Greater(p, Middle) then LargeLessEfficient
    else if Less(g, Middle) && Less(p, Middle) then SmallLessEfficient
    else Average
  }

  /** Mask `k` (1 to 4) of the four `clean_df.loc[mask, 'quadrant'] = ...` assignments, in source order. */
  predicate Mask(k: nat, g: Quotient, p: Quotient)
  {
    if k == 1 then Greater(g, Middle) && Greater(p, Middle)
    else if k == 2 then Greater(g, Middle) && Less(p, Middle)
    else if k == 3 then Less(g, Middle) && Greater(p, Middle)
    else k == 4 && Less(g, Middle) && Less(p, Middle)
  }

  function MaskLabel(k: nat): Quadrant
  {
    if k == 1 then LargeEfficient
    else if k == 2 then SmallEfficient
    else if k == 3 then LargeLessEfficient
    else SmallLessEfficient
  }

  /** The label of one row after the first `k` masked assignments: the last mask that matched wins. */
  function AfterMasks(k: nat, g: Quotient, p: Quotient): (q: Quadrant)
    ensures q == Average <==> forall j :: 1 <= j <= k ==> !Mask(j, g, p)
    ensures 1 <= k && Mask(k, g, p) ==> q == MaskLabel(k)
  {
    if k == 0 then Average
    else if Mask(k, g, p) then MaskLabel(k)
    else AfterMasks(k - 1, g, p)
  }

  /** No two masks match the same row, so the order of the assignments does not matter. */
  lemma {:induction false} MasksExclusive(j: nat, k: nat, g: Quotient, p: Quotient)
    requires 1 <= j < k <= 4
    requires Mask(j, g, p)
    ensures !Mask(k, g, p)
  {
  }

  /** After all four assignments a row carries the reference label. */
  lemma {:induction false} AfterAllMasks(g: Quotient, p: Quotient)
    ensures AfterMasks(4, g, p) == QuadrantOf(g, p)
  {
    assert AfterMasks(1, g, p) == (if Mask(1, g, p) then LargeEfficient else Average);
    assert AfterMasks(2, g, p) == (if Mask(2, g, p) then SmallEfficient else AfterMasks(1, g, p));
    assert AfterMasks(3, g, p) == (if Mask(3, g, p) then LargeLessEfficient else AfterMasks(2, g, p));
    assert AfterMasks(4, g, p) == (if Mask(4, g, p) then SmallLessEfficient else AfterMasks(3, g, p));
    if Mask(1, g, p) {
      MasksExclusive(1, 2, g, p);
      MasksExclusive(1, 3, g, p);
      MasksExclusive(1, 4, g, p);
    } else if Mask(2, g, p) {
      MasksExclusive(2, 3, g, p);
      MasksExclusive(2, 4, g, p);
    } else if Mask(3, g, p) {
      MasksExclusive(3, 4, g, p);
    }
  }

  /** A row keeps "Average" exactly when one of its two coordinates is neither above nor below 0.5. */
  lemma {:induction false} AverageExactly(g: Quotient, p: Quotient)
    ensures QuadrantOf(g, p) == Average <==>
              (!Greater(g, Middle) && !Less(g, Middle)) || (!Greater(p, Middle) && !Less(p, Middle))
  {
  }

  /** A coordinate exactly at 0.5, or NaN, leaves the row "Average". */
  lemma {:induction false} MiddleIsAverage(g: Quotient, p: Quotient)
    requires g == Value(Middle) || g.NaN? || p == Value(Middle) || p.NaN?
    ensures QuadrantOf(g, p) == Average
  {
    AverageExactly(g, p);
  }

  function PerCapitaValues(ms: seq<Metro>): (r: seq<real>)
    ensures |r| == |ms|
    ensures forall i :: 0 <= i < |ms| ==> r[i] == ms[i].perCapita
  {
    seq(|ms|, i requires 0 <= i < |ms| => ms[i].perCapita)
  }

  function PopulationValues(ms: seq<Metro>): (r: seq<real>)
    ensures |r| == |ms|
    ensures forall i :: 0 <= i < |ms| ==> r[i] == ms[i].population as real
  {
    seq(|ms|, i requires 0 <= i < |ms| => ms[i].population as real)
  }

  /** `clean_df.loc[mask_k, 'quadrant'] = label_k`: overwrite the rows mask `k` matches, leave the rest. */
  method ApplyMask(column: array<Quadrant>, k: nat, g: seq<Quotient>, p: seq<Quotient>)
    requires 1 <= k && column.Length == |g| == |p|
    requires forall i :: 0 <= i < column.Length ==> column[i] == AfterMasks(k - 1, g[i], p[i])
    modifies column
    ensures forall i :: 0 <= i < column.Length ==> column[i] == AfterMasks(k, g[i], p[i])
  {
    for i := 0 to column.Length
      invariant forall t :: 0 <= t < i ==> column[t] == AfterMasks(k, g[t], p[t])
      invariant forall t :: i <= t < column.Length ==> column[t] == AfterMasks(k - 1, g[t], p[t])
    {
      if Mask(k, g[i], p[i]) {
        column[i] := MaskLabel(k);
      }
    }
  }

  /**
    The quadrant column of the clean table: normalise both columns, start every
    row at "Average", then apply the four masked assignments in order.
   */
  method AssignQuadrants(ms: seq<Metro>) returns (labels: seq<Quadrant>)
    ensures |labels| == |ms|
    ensures forall i :: 0 <= i < |ms| ==>
              labels[i] == QuadrantOf(Normalize(PerCapitaValues(ms))[i], Normalize(PopulationValues(ms))[i])
  {
    var g := Normalize(PerCapitaValues(ms));
    var p := Normalize(PopulationValues(ms));
    var n := |ms|;
    var column := new Quadrant[n](_ => Average);
    for k := 1 to 5
      invariant forall i :: 0 <= i < n ==> column[i] == AfterMasks(k - 1, g[i], p[i])
    {
      ApplyMask(column, k, g, p);
    }
    labels := column[..];
    forall i | 0 <= i < n ensures labels[i] == QuadrantOf(g[i], p[i]) {
      AfterAllMasks(g[i], p[i]);
    }
  }
}
