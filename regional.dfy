/**
  The regional summary: `clean_df.groupby('Region').agg(...)` with the metro
  count, the mean GDP per capita, the population and GDP totals, and the
  derived regional productivity.  `groupby` sorts its keys, so the rows come in
  ascending order of region name.
 */
module Regional {
  import opened Floats
  import Tables
  import opened Loader

  /** Python's string order: lexicographic by code point, a proper prefix first. */
  predicate Before(a: string, b: string)
    decreases |a|
  {
    if a == [] then b != []
    else b != [] && (a[0] < b[0] || (a[0] == b[0] && Before(a[1..], b[1..])))
  }

  lemma {:induction false} BeforeIrreflexive(a: string)
    ensures !Before(a, a)
  {
    if a != [] {
      BeforeIrreflexive(a[1..]);
    }
  }

  lemma {:induction false} BeforeTransitive(a: string, b: string, c: string)
    requires Before(a, b) && Before(b, c)
    ensures Before(a, c)
  {
    if a != [] && a[0] == b[0] && b[0] == c[0] {
      BeforeTransitive(a[1..], b[1..], c[1..]);
    }
  }

  lemma {:induction false} BeforeTotal(a: string, b: string)
    ensures a == b || Before(a, b) || Before(b, a)
  {
    if a != [] && b != [] && a[0] == b[0] {
      BeforeTotal(a[1..], b[1..]);
      assert a == [a[0]] + a[1..] && b == [b[0]] + b[1..];
    }
  }

  predicate StrictlySorted(s: seq<string>)
  {
    forall i, j :: 0 <= i < j < |s| ==> Before(s[i], s[j])
  }

  lemma {:induction false} SortedIsDistinct(s: seq<string>)
    requires StrictlySorted(s)
    ensures Tables.Distinct(s)
  {
    forall i, j | 0 <= i < j < |s|
      ensures s[i] != s[j]
    {
      BeforeIrreflexive(s[i]);
    }
  }

  /** Adds a key to a sorted key list unless it is there already. */
  function InsertKey(k: string, s: seq<string>): (r: seq<string>)
    requires StrictlySorted(s)
    ensures StrictlySorted(r)
    ensures forall x :: x in r <==> x == k || x in s
  {
    if s == [] then [k]
    else if k == s[0] then s
    else if Before(k, s[0]) then
      assert StrictlySorted([k] + s) by {
        forall j | 0 <= j < |s|
          ensures Before(k, s[j])
        {
          if j > 0 { BeforeTransitive(k, s[0], s[j]); }
        }
      }
      [k] + s
    else
      BeforeTotal(k, s[0]);
      var t := InsertKey(k, s[1..]);
      assert StrictlySorted([s[0]] + t) by {
        forall j | 0 <= j < |t|
          ensures Before(s[0], t[j])
        {
          assert t[j] in t;
        }
      }
      [s[0]] + t
  }

  /** The distinct regions of the rows, in ascending order. */
  function GroupKeys(ms: seq<Metro>): (r: seq<string>)
    ensures StrictlySorted(r)
    ensures forall x :: x in r <==> x in Tables.Keys(ms, RegionOfMetro)
  {
    if ms == [] then []
    else
      var init := ms[..|ms| - 1];
      var ks := Tables.Keys(ms, RegionOfMetro);
      assert forall x :: x in ks <==> x in Tables.Keys(init, RegionOfMetro) || x == ms[|ms| - 1].region by {
        assert ks == Tables.Keys(init, RegionOfMetro) + [ms[|ms| - 1].region];
      }
      InsertKey(ms[|ms| - 1].region, GroupKeys(init))
  }

  /** One row of the regional summary. */
  datatype RegionSummary = RegionSummary(
    region: string,
    metroCount: nat,
    meanPerCapita: real,
    totalPopulation: int,
    totalGdp: real,
    productivity: Quotient)

  function MetroCountOf(r: RegionSummary): real { r.metroCount as real }
  function TotalGdpOf(r: RegionSummary): real { r.totalGdp }
  function TotalPopulationOf(r: RegionSummary): real { r.totalPopulation as real }

  function PopulationReal(m: Metro): real { m.population as real }

  /**
    The summary of one region present in the rows.  Regional productivity is total
    GDP over total population in millions: dollars (in thousands) per person.
   */
  function SummaryOf(ms: seq<Metro>, k: string): (r: RegionSummary)
    requires k in Tables.Keys(ms, RegionOfMetro)
    ensures r.metroCount > 0
    ensures Summarizes(r, k, Tables.Where(ms, RegionOfMetro, k))
  {
    var rs := Tables.Where(ms, RegionOfMetro, k);
    WhereNonEmpty(ms, k);
    Aggregate(k, rs)
  }

  /**
    `r` is the summary row of region `k` whose rows are `rs`: the count of the rows,
    a mean per capita that times the count is their sum, their population and GDP
    totals, and productivity `total_gdp * 1e6 / total_population` when that total is
    not zero.
   */
  predicate Summarizes(r: RegionSummary, k: string, rs: seq<Metro>)
  {
    && r.region == k
    && r.metroCount == |rs|
    && r.metroCount as real * r.meanPerCapita == Tables.SumBy(rs, PerCapitaOf)
    && r.totalPopulation == Tables.SumInt(rs, PopulationOf)
    && r.totalGdp == Tables.SumBy(rs, GdpOf)
    && (r.totalPopulation != 0 ==> r.productivity == Value(r.totalGdp * 1000000.0 / r.totalPopulation as real))
  }

  /** The aggregates of one region's rows. */
  function Aggregate(k: string, rs: seq<Metro>): (r: RegionSummary)
    requires rs != []
    ensures Summarizes(r, k, rs)
  {
    var population := Tables.SumInt(rs, PopulationOf);
    var gdp := Tables.SumBy(rs, GdpOf);
    RegionSummary(k, |rs|, MeanOf(Tables.SumBy(rs, PerCapitaOf), |rs|), population, gdp, Productivity(gdp, population))
  }

  /** `Total_GDP / (Total_Population / 1000000)` */
  function Productivity(gdp: real, population: int): (q: Quotient)
    ensures population != 0 ==> q == Value(gdp * 1000000.0 / population as real)
    ensures population == 0 ==> !q.Value?
  {
    var pr := population as real;
    RatioScaled(gdp, pr, 1000000.0);
    Ratio(gdp, pr / 1000000.0)
  }

  /** The mean of `n` values summing to `total`. */
  function MeanOf(total: real, n: nat): (m: real)
    requires n > 0
    ensures n as real * m == total
  {
    MeanTimesCount(total, n);
    total / n as real
  }

  lemma {:induction false} WhereNonEmpty(ms: seq<Metro>, k: string)
    requires k in Tables.Keys(ms, RegionOfMetro)
    ensures |Tables.Where(ms, RegionOfMetro, k)| > 0
  {
    var i :| 0 <= i < |ms| && Tables.Keys(ms, RegionOfMetro)[i] == k;
    assert ms[i] in Tables.Where(ms, RegionOfMetro, k);
  }

  lemma {:induction false} MeanTimesCount(total: real, n: nat)
    requires n > 0
    ensures n as real * (total / n as real) == total
  {
  }

  function SummariesFor(ms: seq<Metro>, keys: seq<string>): (r: seq<RegionSummary>)
    requires forall j :: 0 <= j < |keys| ==> keys[j] in Tables.Keys(ms, RegionOfMetro)
    ensures |r| == |keys|
    ensures forall j :: 0 <= j < |keys| ==> r[j] == SummaryOf(ms, keys[j]) && r[j].region == keys[j]
  {
    if keys == [] then []
    else
      var rest := SummariesFor(ms, keys[1..]);
      assert forall j :: 0 < j < |keys| ==> keys[j] == keys[1..][j - 1];
      [SummaryOf(ms, keys[0])] + rest
  }

  /** The regional summary table: one row per distinct region, in ascending region order. */
  function RegionalSummary(ms: seq<Metro>): (r: seq<RegionSummary>)
    ensures forall i, j :: 0 <= i < j < |r| ==> Before(r[i].region, r[j].region)
    ensures forall i :: 0 <= i < |r| ==> r[i].region in Tables.Keys(ms, RegionOfMetro)
    ensures forall k :: k in Tables.Keys(ms, RegionOfMetro) ==> k in Regions(r)
    ensures forall i :: 0 <= i < |r| ==> r[i] == SummaryOf(ms, r[i].region)
  {
    var keys := GroupKeys(ms);
    var r := SummariesFor(ms, keys);
    assert Regions(r) == keys;
    r
  }

  function RegionOfSummary(r: RegionSummary): string { r.region }

  /** The region column of the summary. */
  function Regions(r: seq<RegionSummary>): seq<string>
  {
    Tables.Keys(r, RegionOfSummary)
  }

  lemma {:induction false} CountsMatchGroupSums(ms: seq<Metro>, keys: seq<string>)
    requires forall j :: 0 <= j < |keys| ==> keys[j] in Tables.Keys(ms, RegionOfMetro)
    ensures Tables.SumBy(SummariesFor(ms, keys), MetroCountOf) == Tables.GroupSums(ms, RegionOfMetro, keys, Tables.One)
  {
    if keys != [] {
      CountsMatchGroupSums(ms, keys[1..]);
      Tables.SumByOne(Tables.Where(ms, RegionOfMetro, keys[0]));
    }
  }

  lemma {:induction false} GdpMatchesGroupSums(ms: seq<Metro>, keys: seq<string>)
    requires forall j :: 0 <= j < |keys| ==> keys[j] in Tables.Keys(ms, RegionOfMetro)
    ensures Tables.SumBy(SummariesFor(ms, keys), TotalGdpOf) == Tables.GroupSums(ms, RegionOfMetro, keys, GdpOf)
  {
    if keys != [] {
      GdpMatchesGroupSums(ms, keys[1..]);
    }
  }

  lemma {:induction false} PopulationMatchesGroupSums(ms: seq<Metro>, keys: seq<string>)
    requires forall j :: 0 <= j < |keys| ==> keys[j] in Tables.Keys(ms, RegionOfMetro)
    ensures Tables.SumBy(SummariesFor(ms, keys), TotalPopulationOf)
         == Tables.GroupSums(ms, RegionOfMetro, keys, PopulationReal)
  {
    if keys != [] {
      PopulationMatchesGroupSums(ms, keys[1..]);
      Tables.SumIntAsReal(Tables.Where(ms, RegionOfMetro, keys[0]), PopulationOf, PopulationReal);
    }
  }

  /**
    The summary is a partition of the rows: the metro counts add up to the number of
    rows, and the population and GDP totals add up to the table's totals.
   */
  lemma {:induction false} RegionalSummaryConserves(ms: seq<Metro>)
    ensures Tables.SumBy(RegionalSummary(ms), MetroCountOf) == |ms| as real
    ensures Tables.SumBy(RegionalSummary(ms), TotalGdpOf) == Tables.SumBy(ms, GdpOf)
    ensures Tables.SumBy(RegionalSummary(ms), TotalPopulationOf) == Tables.SumInt(ms, PopulationOf) as real
  {
    var keys := GroupKeys(ms);
    SortedIsDistinct(keys);
    assert forall i :: 0 <= i < |ms| ==> RegionOfMetro(ms[i]) in keys by {
      forall i | 0 <= i < |ms|
        ensures RegionOfMetro(ms[i]) in keys
      {
        assert Tables.Keys(ms, RegionOfMetro)[i] == RegionOfMetro(ms[i]);
      }
    }
    CountsMatchGroupSums(ms, keys);
    Tables.GroupSumsTotal(ms, RegionOfMetro, keys, Tables.One);
    Tables.SumByOne(ms);
    GdpMatchesGroupSums(ms, keys);
    Tables.GroupSumsTotal(ms, RegionOfMetro, keys, GdpOf);
    PopulationMatchesGroupSums(ms, keys);
    Tables.GroupSumsTotal(ms, RegionOfMetro, keys, PopulationReal);
    Tables.SumIntAsReal(ms, PopulationOf, PopulationReal);
  }

  /** The summary has exactly one row per distinct region of the rows. */
  lemma {:induction false} RegionalOneRowPerRegion(ms: seq<Metro>)
    ensures Tables.Distinct(Regions(RegionalSummary(ms)))
    ensures forall k :: k in Regions(RegionalSummary(ms)) <==> k in Tables.Keys(ms, RegionOfMetro)
  {
    var r := RegionalSummary(ms);
    assert Regions(r) == GroupKeys(ms);
    SortedIsDistinct(GroupKeys(ms));
  }
}
