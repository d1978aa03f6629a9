/**
  The data behind the regional sunburst chart: for each region, in order of first
  appearance, its five metros with the largest GDP and, when more remain, one
  entry aggregating the rest.
 */
module Sunburst {
  import opened Floats
  import Tables
  import opened Loader

  /** One dict appended to `region_metro_data`. */
  datatype Entry = Entry(region: string, metro: string, gdp: real, population: int, perCapita: Quotient)

  function EntryGdp(e: Entry): real { e.gdp }

  /** How many metros of a region are shown individually. */
  const TopCount: nat := 5

  function OtherLabel(region: string): string
  {
    "Other " + region + " Metros"
  }

  function MetroEntry(region: string, m: Metro): Entry
  {
    Entry(region, m.city, m.gdp, m.population, Value(m.perCapita))
  }

  function MetroEntries(region: string, top: seq<Metro>): (r: seq<Entry>)
    ensures |r| == |top|
    ensures forall i :: 0 <= i < |top| ==> r[i] == MetroEntry(region, top[i])
  {
    seq(|top|, i requires 0 <= i < |top| => MetroEntry(region, top[i]))
  }

  /**
    The entry standing for the metros outside the top five: their summed GDP and
    population, and `sum_gdp * 1e9 / sum_population` as its per-capita value.
   */
  function OtherEntry(region: string, rest: seq<Metro>): (e: Entry)
    ensures e.region == region && e.metro == OtherLabel(region)
    ensures e.gdp == Tables.SumBy(rest, GdpOf) && e.population == Tables.SumInt(rest, PopulationOf)
    ensures e.population != 0 ==> e.perCapita == Value(e.gdp * 1000000000.0 / e.population as real)
  {
    var gdp := Tables.SumBy(rest, GdpOf);
    var population := Tables.SumInt(rest, PopulationOf);
    var q := Ratio(gdp * 1000000000.0, population as real);
    assert population != 0 ==> q.v == gdp * 1000000000.0 / population as real;
    Entry(region, OtherLabel(region), gdp, population, q)
  }

  /**
    The entries of one region, given the rows of that region: one per metro shown,
    then the aggregated entry exactly when more than five metros remain.
   */
  function RegionEntries(region: string, rs: seq<Metro>): (r: seq<Entry>)
    ensures |r| == Tables.Min(TopCount, |rs|) + (if |rs| > TopCount then 1 else 0)
    ensures forall i :: 0 <= i < |r| ==> r[i].region == region
  {
    var rest := Tables.Remaining(rs, TopCount, GdpOf);
    MetroEntries(region, Tables.Largest(rs, TopCount, GdpOf))
      + (if |rest| > 0 then [OtherEntry(region, rest)] else [])
  }

  /** The entries of the listed regions, one region after another. */
  function SunburstFor(ms: seq<Metro>, regions: seq<string>): (r: seq<Entry>)
    ensures forall i :: 0 <= i < |r| ==> r[i].region in regions
  {
    if regions == [] then []
    else
      var here, later := RegionEntries(regions[0], Tables.Where(ms, RegionOfMetro, regions[0])), SunburstFor(ms, regions[1..]);
      assert forall i :: 0 <= i < |later| ==> later[i].region in regions[1..];
      here + later
  }

  /** The sunburst data of a table: its regions in order of first appearance (`unique()`). */
  function Sunburst(ms: seq<Metro>): (r: seq<Entry>)
    ensures forall i :: 0 <= i < |r| ==> r[i].region in Tables.Keys(ms, RegionOfMetro)
  {
    SunburstFor(ms, Tables.Unique(Tables.Keys(ms, RegionOfMetro)))
  }

  /** The loop of the chart code over the regions, in order of first appearance. */
  method BuildSunburst(ms: seq<Metro>) returns (data: seq<Entry>)
    ensures data == Sunburst(ms)
  {
    var regions := Tables.Unique(Tables.Keys(ms, RegionOfMetro));
    data := [];
    for i := 0 to |regions|
      invariant data + SunburstFor(ms, regions[i..]) == SunburstFor(ms, regions)
    {
      var regionRows := Tables.Where(ms, RegionOfMetro, regions[i]);
      ghost var prev := data;
      data := AppendRegion(data, regions[i], regionRows);
      ghost var entries, later := RegionEntries(regions[i], regionRows), SunburstFor(ms, regions[i + 1..]);
      SunburstForStep(ms, regions, i);
      assert SunburstFor(ms, regions[i..]) == entries + later;
      AppendAssoc(prev, entries, later);
    }
    assert regions[|regions|..] == [];
  }

  /** The body of that loop for one region: append each top metro, then the aggregated rest if any. */
  method AppendRegion(data: seq<Entry>, region: string, regionRows: seq<Metro>) returns (data': seq<Entry>)
    ensures data' == data + RegionEntries(region, regionRows)
  {
    var top := Tables.Largest(regionRows, TopCount, GdpOf);
    data' := data;
    for j := 0 to |top|
      invariant data' == data + MetroEntries(region, top[..j])
    {
      MetroEntriesSnoc(region, top, j);
      data' := data' + [MetroEntry(region, top[j])];
    }
    assert top[..|top|] == top;
    var others := Tables.Remaining(regionRows, TopCount, GdpOf);
    ghost var tail: seq<Entry> := if |others| > 0 then [OtherEntry(region, others)] else [];
    assert RegionEntries(region, regionRows) == MetroEntries(region, top) + tail;
    AppendAssoc(data, MetroEntries(region, top), tail);
    if |others| > 0 {
      data' := data' + [OtherEntry(region, others)];
    }
  }

  lemma {:induction false} AppendAssoc(a: seq<Entry>, b: seq<Entry>, c: seq<Entry>)
    ensures (a + b) + c == a + (b + c)
  {
  }

  lemma {:induction false} MetroEntriesSnoc(region: string, top: seq<Metro>, j: nat)
    requires j < |top|
    ensures MetroEntries(region, top[..j + 1]) == MetroEntries(region, top[..j]) + [MetroEntry(region, top[j])]
  {
  }

  lemma {:induction false} SunburstForStep(ms: seq<Metro>, regions: seq<string>, i: nat)
    requires i < |regions|
    ensures SunburstFor(ms, regions[i..])
         == RegionEntries(regions[i], Tables.Where(ms, RegionOfMetro, regions[i])) + SunburstFor(ms, regions[i + 1..])
  {
    assert regions[i..][1..] == regions[i + 1..];
  }

  /**
    A region contributes its top min(5, n) metros, largest GDP first, and one
    aggregated entry exactly when more than five remain: never more than six entries.
   */
  lemma {:induction false} RegionEntriesShape(region: string, rs: seq<Metro>)
    ensures var es := RegionEntries(region, rs);
            && |es| == Tables.Min(TopCount, |rs|) + (if |rs| > TopCount then 1 else 0)
            && |es| <= 6
            && (forall i :: 0 <= i < |es| ==> es[i].region == region)
            && (forall i, j :: 0 <= i < j < Tables.Min(TopCount, |rs|) ==> es[i].gdp >= es[j].gdp)
            && (|rs| > TopCount ==> es[|es| - 1].metro == OtherLabel(region))
  {
    var top := Tables.Largest(rs, TopCount, GdpOf);
    assert forall i, j :: 0 <= i < j < |top| ==> GdpOf(top[i]) >= GdpOf(top[j]);
  }

  /**
    The metros shown are the region's rows with the largest GDP: each entry shown is
    one of the rows `nlargest` takes, and no metro folded into "Other" has a larger
    GDP than a metro shown.  The last entry aggregates exactly the rows left out.
   */
  lemma {:induction false} RegionEntriesTop(region: string, rs: seq<Metro>)
    ensures var es, top, rest := RegionEntries(region, rs), Tables.Largest(rs, TopCount, GdpOf), Tables.Remaining(rs, TopCount, GdpOf);
            && multiset(top) + multiset(rest) == multiset(rs)
            && (forall i :: 0 <= i < |top| ==> es[i] == MetroEntry(region, top[i]))
            && (forall i, j :: 0 <= i < |top| && 0 <= j < |rest| ==> rest[j].gdp <= es[i].gdp)
            && (|rest| > 0 ==> es[|es| - 1] == OtherEntry(region, rest))
  {
    var top, rest := Tables.Largest(rs, TopCount, GdpOf), Tables.Remaining(rs, TopCount, GdpOf);
    assert forall i, j :: 0 <= i < |top| && 0 <= j < |rest| ==> GdpOf(rest[j]) <= GdpOf(top[i]);
  }

  lemma {:induction false} MetroEntriesGdp(region: string, top: seq<Metro>)
    ensures Tables.SumBy(MetroEntries(region, top), EntryGdp) == Tables.SumBy(top, GdpOf)
  {
    if top != [] {
      assert MetroEntries(region, top)[1..] == MetroEntries(region, top[1..]);
      MetroEntriesGdp(region, top[1..]);
    }
  }

  /** The entries of a region carry exactly the region's total GDP: nothing is lost or counted twice. */
  lemma {:induction false} RegionEntriesGdp(region: string, rs: seq<Metro>)
    ensures Tables.SumBy(RegionEntries(region, rs), EntryGdp) == Tables.SumBy(rs, GdpOf)
  {
    var top := Tables.Largest(rs, TopCount, GdpOf);
    var rest := Tables.Remaining(rs, TopCount, GdpOf);
    var other: seq<Entry> := if |rest| > 0 then [OtherEntry(region, rest)] else [];
    Tables.SumByAppend(MetroEntries(region, top), other, EntryGdp);
    MetroEntriesGdp(region, top);
    OtherGdp(region, rest);
    Tables.LargestSplitsSum(rs, TopCount, GdpOf, GdpOf);
  }

  /** The aggregated entry, when present, carries the GDP of the rows it stands for. */
  lemma {:induction false} OtherGdp(region: string, rest: seq<Metro>)
    ensures Tables.SumBy(if |rest| > 0 then [OtherEntry(region, rest)] else [], EntryGdp) == Tables.SumBy(rest, GdpOf)
  {
    if |rest| == 0 {
      assert rest == [];
    }
  }

  lemma {:induction false} SunburstForGdp(ms: seq<Metro>, regions: seq<string>)
    ensures Tables.SumBy(SunburstFor(ms, regions), EntryGdp) == Tables.GroupSums(ms, RegionOfMetro, regions, GdpOf)
  {
    if regions != [] {
      var rs := Tables.Where(ms, RegionOfMetro, regions[0]);
      var here, later := RegionEntries(regions[0], rs), SunburstFor(ms, regions[1..]);
      assert SunburstFor(ms, regions) == here + later;
      SunburstForGdp(ms, regions[1..]);
      RegionEntriesGdp(regions[0], rs);
      Tables.SumByAppend(here, later, EntryGdp);
    }
  }

  /** The sunburst's GDP values add up to the GDP of the whole table. */
  lemma {:induction false} SunburstGdpTotal(ms: seq<Metro>)
    ensures Tables.SumBy(Sunburst(ms), EntryGdp) == Tables.SumBy(ms, GdpOf)
  {
    var keys := Tables.Keys(ms, RegionOfMetro);
    var regions := Tables.Unique(keys);
    SunburstForGdp(ms, regions);
    assert forall i :: 0 <= i < |ms| ==> RegionOfMetro(ms[i]) in regions by {
      forall i | 0 <= i < |ms|
        ensures RegionOfMetro(ms[i]) in regions
      {
        assert keys[i] in keys;
      }
    }
    Tables.GroupSumsTotal(ms, RegionOfMetro, regions, GdpOf);
  }
}
