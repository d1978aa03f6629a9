/**
  Population size classes (`pd.cut` on the population column) and the
  per-class summary the size-efficiency chart is drawn from.  `pd.cut` with its
  defaults makes right-closed bins (low, high]: a population equal to the lowest
  edge, or above the highest, falls in no class.
 */
module Bucketing {
  import opened Wrappers
  import Tables
  import opened Loader

  /** Edges and labels of the four size classes of the box plot. */
  const SizeEdges: seq<int> := [0, 1000000, 5000000, 10000000, 50000000]
  const SizeLabels: seq<string> := ["Small (<1M)", "Medium (1-5M)", "Large (5-10M)", "Mega (>10M)"]

  /** Edges and labels of the six classes of the size-efficiency chart. */
  const EfficiencyEdges: seq<int> := [0, 500000, 1000000, 2000000, 5000000, 10000000, 50000000]
  const EfficiencyLabels: seq<string> := ["<500K", "500K-1M", "1M-2M", "2M-5M", "5M-10M", ">10M"]

  predicate Increasing(edges: seq<int>)
  {
    forall i, j :: 0 <= i < j < |edges| ==> edges[i] < edges[j]
  }

  /**
    `pd.cut` for one value: the index k of the bin (edges[k], edges[k + 1]] holding p,
    or None when p is at or below the first edge or above the last.
   */
  function Bin(edges: seq<int>, p: int): (r: Option<nat>)
    requires Increasing(edges)
    ensures r.Some? <==> |edges| >= 2 && edges[0] < p <= edges[|edges| - 1]
    ensures r.Some? ==> r.value + 1 < |edges| && edges[r.value] < p <= edges[r.value + 1]
    decreases |edges|
  {
    if |edges| < 2 then None
    else if edges[0] < p <= edges[1] then Some(0)
    else
      match Bin(edges[1..], p)
      case None => None
      case Some(k) => Some(k + 1)
  }

  /** The bins do not overlap: a value inside bin k is placed in bin k and in no other. */
  lemma {:induction false} BinUnique(edges: seq<int>, p: int, k: nat)
    requires Increasing(edges)
    requires k + 1 < |edges| && edges[k] < p <= edges[k + 1]
    ensures Bin(edges, p) == Some(k)
  {
    assert edges[0] <= edges[k] && edges[k + 1] <= edges[|edges| - 1];
  }

  /** The size class of the box plot: the label of the class (edges[k], edges[k + 1]] holding p, None outside (0, 50M]. */
  function SizeCategory(p: int): (r: Option<string>)
    ensures r.Some? <==> 0 < p <= 50000000
    ensures forall k :: 0 <= k < 4 && SizeEdges[k] < p <= SizeEdges[k + 1] ==> r == Some(SizeLabels[k])
  {
    assert Increasing(SizeEdges);
    forall k | 0 <= k < 4 && SizeEdges[k] < p <= SizeEdges[k + 1] ensures Bin(SizeEdges, p) == Some(k) {
      BinUnique(SizeEdges, p, k);
    }
    match Bin(SizeEdges, p)
    case None => None
    case Some(k) => Some(SizeLabels[k])
  }

  /** The boundary values land on the side the right-closed bins put them. */
  lemma {:induction false} SizeCategoryBoundaries()
    ensures SizeCategory(0) == None
    ensures SizeCategory(1) == Some("Small (<1M)")
    ensures SizeCategory(1000000) == Some("Small (<1M)")
    ensures SizeCategory(1000001) == Some("Medium (1-5M)")
    ensures SizeCategory(5000000) == Some("Medium (1-5M)")
    ensures SizeCategory(10000000) == Some("Large (5-10M)")
    ensures SizeCategory(10000001) == Some("Mega (>10M)")
    ensures SizeCategory(50000000) == Some("Mega (>10M)")
    ensures SizeCategory(50000001) == None
  {
    assert Increasing(SizeEdges);
    BinUnique(SizeEdges, 1, 0);
    BinUnique(SizeEdges, 1000000, 0);
    BinUnique(SizeEdges, 1000001, 1);
    BinUnique(SizeEdges, 5000000, 1);
    BinUnique(SizeEdges, 10000000, 2);
    BinUnique(SizeEdges, 10000001, 3);
    BinUnique(SizeEdges, 50000000, 3);
  }

  // ---------------------------------------------------------------- per-class summary

  /** The mask `lo < population <= hi` of one right-closed class. */
  function InRange(lo: int, hi: int): Metro -> bool
  {
    (m: Metro) => lo < m.population <= hi
  }

  /**
    The rows whose population lies in (lo, hi], in table order: the boolean mask of
    the class applied to the table, so each row appears as often as in `ms`.
   */
  function InBin(ms: seq<Metro>, lo: int, hi: int): (r: seq<Metro>)
    ensures r == Tables.Filter(ms, InRange(lo, hi))
    ensures |r| <= |ms|
    ensures forall i :: 0 <= i < |r| ==> lo < r[i].population <= hi
    ensures forall i :: 0 <= i < |ms| && lo < ms[i].population <= hi ==> ms[i] in r
  {
    if ms == [] then []
    else
      assert forall i :: 1 <= i < |ms| ==> ms[i] == ms[1..][i - 1];
      (if lo < ms[0].population <= hi then [ms[0]] else []) + InBin(ms[1..], lo, hi)
  }

  lemma {:induction false} InBinEmptyRange(ms: seq<Metro>, lo: int, hi: int)
    requires hi <= lo
    ensures InBin(ms, lo, hi) == []
  {
    if ms != [] {
      InBinEmptyRange(ms[1..], lo, hi);
    }
  }

  /** Two adjacent bins hold exactly the rows of the bin that spans both. */
  lemma {:induction false} InBinSplit(ms: seq<Metro>, a: int, b: int, c: int)
    requires a <= b <= c
    ensures |InBin(ms, a, c)| == |InBin(ms, a, b)| + |InBin(ms, b, c)|
  {
    if ms != [] {
      InBinSplit(ms[1..], a, b, c);
    }
  }

  /** One row of the size-efficiency summary: count and means of one class (NaN means for an empty class). */
  datatype ClassSummary = ClassSummary(name: string, count: nat, meanPerCapita: Option<real>, meanGdp: Option<real>)

  function Mean(rs: seq<Metro>, f: Metro -> real): (r: Option<real>)
    ensures r.Some? <==> rs != []
    ensures r.Some? ==> r.value * |rs| as real == Tables.SumBy(rs, f)
  {
    if rs == [] then None else Some(Tables.SumBy(rs, f) / |rs| as real)
  }

  function Summarize(name: string, rs: seq<Metro>): ClassSummary
  {
    ClassSummary(name, |rs|, Mean(rs, PerCapitaOf), Mean(rs, GdpOf))
  }

  /** A summary row of the class `name` holding `rs`: its count, and means that are absent exactly for an empty class. */
  predicate Describes(c: ClassSummary, name: string, rs: seq<Metro>)
  {
    && c.name == name && c.count == |rs|
    && (c.meanPerCapita.Some? <==> rs != []) && (c.meanGdp.Some? <==> rs != [])
    && (c.meanPerCapita.Some? ==> c.meanPerCapita.value * |rs| as real == Tables.SumBy(rs, PerCapitaOf))
    && (c.meanGdp.Some? ==> c.meanGdp.value * |rs| as real == Tables.SumBy(rs, GdpOf))
  }

  lemma {:induction false} SummarizeDescribes(name: string, rs: seq<Metro>)
    ensures Describes(Summarize(name, rs), name, rs)
  {
  }

  /**
    `groupby` over the cut column: one summary per class, empty classes included
    (categorical groupings report unobserved categories with a zero count).
   */
  function ClassSummaries(ms: seq<Metro>, edges: seq<int>, labels: seq<string>): (r: seq<ClassSummary>)
    requires Increasing(edges) && |edges| == |labels| + 1
    ensures |r| == |labels|
    ensures forall k :: 0 <= k < |labels| ==> Describes(r[k], labels[k], InBin(ms, edges[k], edges[k + 1]))
  {
    var r := seq(|labels|, k requires 0 <= k < |labels| => Summarize(labels[k], InBin(ms, edges[k], edges[k + 1])));
    forall k | 0 <= k < |labels| ensures Describes(r[k], labels[k], InBin(ms, edges[k], edges[k + 1])) {
      SummarizeDescribes(labels[k], InBin(ms, edges[k], edges[k + 1]));
    }
    r
  }

  /** A row is in the rows of class k exactly when `pd.cut` puts it in class k. */
  lemma {:induction false} BinMembership(ms: seq<Metro>, edges: seq<int>, k: nat, m: Metro)
    requires Increasing(edges) && k + 1 < |edges| && m in ms
    ensures Bin(edges, m.population) == Some(k) <==> m in InBin(ms, edges[k], edges[k + 1])
  {
    if edges[k] < m.population <= edges[k + 1] {
      BinUnique(edges, m.population, k);
    }
  }

  function SumCounts(r: seq<ClassSummary>): int
  {
    if r == [] then 0 else r[0].count + SumCounts(r[1..])
  }

  /**
    The class counts add up to the number of rows with a population in
    (first edge, last edge]: every such row is counted in exactly one class.
   */
  lemma {:induction false} ClassCountsTotal(ms: seq<Metro>, edges: seq<int>, labels: seq<string>)
    requires Increasing(edges) && |edges| == |labels| + 1
    ensures SumCounts(ClassSummaries(ms, edges, labels)) == |InBin(ms, edges[0], edges[|edges| - 1])|
  {
    var r := ClassSummaries(ms, edges, labels);
    if |labels| == 0 {
      InBinEmptyRange(ms, edges[0], edges[0]);
    } else {
      assert Increasing(edges[1..]);
      ClassCountsTotal(ms, edges[1..], labels[1..]);
      assert r[1..] == ClassSummaries(ms, edges[1..], labels[1..]);
      InBinSplit(ms, edges[0], edges[1], edges[|edges| - 1]);
    }
  }

  /** The six-class summary of the size-efficiency chart. */
  function SizeEfficiency(ms: seq<Metro>): (r: seq<ClassSummary>)
    ensures |r| == 6
    ensures forall k :: 0 <= k < 6 ==>
              Describes(r[k], EfficiencyLabels[k], InBin(ms, EfficiencyEdges[k], EfficiencyEdges[k + 1]))
    ensures SumCounts(r) == |InBin(ms, 0, 50000000)|
  {
    assert Increasing(EfficiencyEdges);
    ClassCountsTotal(ms, EfficiencyEdges, EfficiencyLabels);
    ClassSummaries(ms, EfficiencyEdges, EfficiencyLabels)
  }
}
