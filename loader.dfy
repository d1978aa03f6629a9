/**
  Loading the metro table (`load_data` and the upload fallback, which run the same
  steps): clean and parse the population column, parse the GDP column, derive GDP
  per capita and the region.  `Frame` follows the code's step-by-step reassignment
  of the table's columns; `DeriveRow` is the same derivation for one row.
 */
module Loader {
  import opened Wrappers
  import opened Floats
  import Cleaning
  import Regions
  import Tables

  /** One row as `read_csv` yields it: the cells as text, None for an empty cell. */
  datatype RawRow = RawRow(city: string, country: Option<string>, population: Option<string>, gdp: Option<string>)

  /** A loaded row: parsed numbers (None where pandas holds NaN), GDP per capita and region. */
  datatype Row = Row(city: string, country: Option<string>, population: Option<int>, gdp: Option<real>,
                     perCapita: Quotient, region: string)

  /** A row with population, GDP and a finite GDP per capita, as the analyses use it. */
  datatype Metro = Metro(city: string, region: string, population: int, gdp: real, perCapita: real)

  function CityOf(m: Metro): string { m.city }
  function RegionOfMetro(m: Metro): string { m.region }
  function PopulationOf(m: Metro): int { m.population }
  function GdpOf(m: Metro): real { m.gdp }
  function PerCapitaOf(m: Metro): real { m.perCapita }

  /** Population column step 1: remove commas and strip; an empty cell stays empty. */
  function CleanCell(cell: Option<string>): (r: Option<string>)
    ensures r.Some? <==> cell.Some?
    ensures cell.Some? ==> r.value == Cleaning.CleanPopulation(cell.value)
    ensures r.Some? ==> ',' !in r.value
    ensures r.Some? && r.value != [] ==> !Cleaning.IsSpace(r.value[0]) && !Cleaning.IsSpace(r.value[|r.value| - 1])
  {
    match cell
    case None => None
    case Some(s) => Some(Cleaning.CleanPopulation(s))
  }

  /**
    Population column step 2: `to_numeric(errors='coerce')` on the cleaned text.  A
    number exactly for an optional sign followed by digits; digit text reads as its
    decimal value.
   */
  function ParsePopulation(cell: Option<string>): (r: Option<int>)
    ensures r.Some? <==> cell.Some? && ((cell.value != [] && Cleaning.AllDigits(cell.value))
                                      || (|cell.value| >= 2 && Cleaning.IsSign(cell.value[0]) && Cleaning.AllDigits(cell.value[1..])))
    ensures cell.Some? && cell.value != [] && Cleaning.AllDigits(cell.value) ==> r == Some(Cleaning.DigitsValue(cell.value))
    ensures r.Some? && |cell.value| >= 2 && Cleaning.IsSign(cell.value[0]) ==>
              r.value == (if cell.value[0] == '-' then -(Cleaning.DigitsValue(cell.value[1..]) as int)
                          else Cleaning.DigitsValue(cell.value[1..]))
  {
    match cell
    case None => None
    case Some(s) => Cleaning.ParseInt(s)
  }

  /**
    The GDP column: `to_numeric(errors='coerce')`.  A present cell holding a decimal
    literal (optional sign, digits, at most one point) reads as the value it denotes;
    an empty cell or any other text is NaN.
   */
  function ParseGdp(cell: Option<string>): (r: Option<real>)
    ensures r.Some? <==> cell.Some? && Cleaning.DecimalLiteral(cell.value)
    ensures cell.Some? && Cleaning.UnsignedLiteral(cell.value) ==> r == Some(Cleaning.LiteralValue(cell.value))
    ensures cell.Some? && cell.value != [] && cell.value[0] == '-' && r.Some? ==>
              r == Some(-Cleaning.LiteralValue(cell.value[1..]))
    ensures r.Some? ==> cell.Some? && cell.value != []
    ensures cell.Some? && cell.value != [] && Cleaning.AllDigits(cell.value) ==> r == Some(Cleaning.DigitsValue(cell.value) as real)
  {
    match cell
    case None => None
    case Some(s) => Cleaning.ParseDecimal(s)
  }

  /**
    `gdp * 1000 / (population / 1_000_000)`: GDP in billions over population in
    millions, i.e. dollars per person.  NaN when either input is missing; a zero
    population gives a float division by zero.
   */
  function PerCapita(gdp: Option<real>, population: Option<int>): (q: Quotient)
    ensures gdp.None? || population.None? ==> q.NaN?
    ensures gdp.Some? && population.Some? && population.value != 0 ==>
              q == Value(gdp.value * 1000000000.0 / population.value as real)
    ensures gdp.Some? && population.Some? && population.value == 0 ==> !q.Value?
  {
    if gdp.Some? && population.Some? then
      var n := gdp.value * 1000.0;
      RatioScaled(n, population.value as real, 1000000.0);
      Ratio(n, population.value as real / 1000000.0)
    else NaN
  }

  /** `Series.map(get_region)`: an empty country cell (NaN) is not a key of the table either. */
  function RegionOf(country: Option<string>): (r: string)
    ensures r in Regions.RegionLabels || r == Regions.Other
    ensures country.Some? ==> r == Regions.GetRegion(country.value)
    ensures r == Regions.Other <==> country.None? || country.value !in Regions.RegionTable
    ensures country.Some? && country.value in Regions.RegionTable ==> r == Regions.RegionTable[country.value]
  {
    match country
    case None => Regions.Other
    case Some(c) => Regions.GetRegion(c)
  }

  /**
    The whole load derivation for one row: the text cells kept, the two numbers
    parsed, and the per-capita value and region derived from them.
   */
  function DeriveRow(raw: RawRow): (r: Row)
    ensures r.city == raw.city && r.country == raw.country
    ensures r.population == ParsePopulation(CleanCell(raw.population))
    ensures r.gdp == ParseGdp(raw.gdp)
    ensures WellDerived(r)
  {
    var population := ParsePopulation(CleanCell(raw.population));
    var gdp := ParseGdp(raw.gdp);
    Row(raw.city, raw.country, population, gdp, PerCapita(gdp, population), RegionOf(raw.country))
  }

  /** The loaded table: the derivation row by row, same length and same order. */
  function DeriveAll(raw: seq<RawRow>): (rows: seq<Row>)
    ensures |rows| == |raw|
    ensures forall i :: 0 <= i < |raw| ==> rows[i] == DeriveRow(raw[i])
    ensures forall i :: 0 <= i < |rows| ==> WellDerived(rows[i])
  {
    seq(|raw|, i requires 0 <= i < |raw| => DeriveRow(raw[i]))
  }

  /** A population written with thousands separators and padded with spaces loads as its number. */
  lemma {:induction false} LoadedPopulation(city: string, country: Option<string>, pre: string, n: nat, post: string, gdp: Option<string>)
    requires Cleaning.AllSpace(pre) && Cleaning.AllSpace(post)
    ensures DeriveRow(RawRow(city, country, Some(pre + Cleaning.Grouped(n) + post), gdp)).population == Some(n)
  {
    Cleaning.PopulationRoundTrip(pre, n, post);
  }

  // Column-wise versions of the steps, as pandas applies them to a whole column.

  function CleanColumn(col: seq<Option<string>>): (r: seq<Option<string>>)
    ensures |r| == |col|
  {
    seq(|col|, i requires 0 <= i < |col| => CleanCell(col[i]))
  }

  function ParsePopulationColumn(col: seq<Option<string>>): (r: seq<Option<int>>)
    ensures |r| == |col|
  {
    seq(|col|, i requires 0 <= i < |col| => ParsePopulation(col[i]))
  }

  function ParseGdpColumn(col: seq<Option<string>>): (r: seq<Option<real>>)
    ensures |r| == |col|
  {
    seq(|col|, i requires 0 <= i < |col| => ParseGdp(col[i]))
  }

  function PerCapitaColumn(gdp: seq<Option<real>>, population: seq<Option<int>>): (r: seq<Quotient>)
    requires |gdp| == |population|
    ensures |r| == |gdp|
  {
    seq(|gdp|, i requires 0 <= i < |gdp| => PerCapita(gdp[i], population[i]))
  }

  function RegionColumn(col: seq<Option<string>>): (r: seq<string>)
    ensures |r| == |col|
  {
    seq(|col|, i requires 0 <= i < |col| => RegionOf(col[i]))
  }

  /**
    The table as `load_data` rebuilds it: the CSV's columns, then each derived column,
    written one after another.  The population text column holds the cleaned text
    after the first step, as the code overwrites that column in place.
   */
  class Frame {
    var city: seq<string>
    var country: seq<Option<string>>
    var populationText: seq<Option<string>>
    var gdpText: seq<Option<string>>
    var population: seq<Option<int>>
    var gdp: seq<Option<real>>
    var perCapita: seq<Quotient>
    var region: seq<string>

    /** The columns read from the CSV have one cell per row. */
    ghost predicate Valid()
      reads this
    {
      |country| == |city| && |populationText| == |city| && |gdpText| == |city|
    }

    /** Every derived column has been written. */
    ghost predicate Derived()
      reads this
    {
      Valid() && |population| == |city| && |gdp| == |city| && |perCapita| == |city| && |region| == |city|
    }

    /** The text columns as rows. */
    ghost function Source(): (raw: seq<RawRow>)
      reads this
      requires Valid()
      ensures |raw| == |city|
      ensures forall i :: 0 <= i < |city| ==>
                raw[i] == RawRow(city[i], country[i], populationText[i], gdpText[i])
    {
      var c, k, p, g := city, country, populationText, gdpText;
      seq(|c|, i requires 0 <= i < |c| => RawRow(c[i], k[i], p[i], g[i]))
    }

    /** The derived columns as rows. */
    ghost function Rows(): (rows: seq<Row>)
      reads this
      requires Derived()
      ensures |rows| == |city|
      ensures forall i :: 0 <= i < |city| ==>
                rows[i] == Row(city[i], country[i], population[i], gdp[i], perCapita[i], region[i])
    {
      var c, k, p, g, q, r := city, country, population, gdp, perCapita, region;
      seq(|c|, i requires 0 <= i < |c| => Row(c[i], k[i], p[i], g[i], q[i], r[i]))
    }

    /** The table as read from the CSV, before any derived column exists. */
    constructor (raw: seq<RawRow>)
      ensures Valid() && Source() == raw
      ensures population == [] && gdp == [] && perCapita == [] && region == []
    {
      city := seq(|raw|, i requires 0 <= i < |raw| => raw[i].city);
      country := seq(|raw|, i requires 0 <= i < |raw| => raw[i].country);
      populationText := seq(|raw|, i requires 0 <= i < |raw| => raw[i].population);
      gdpText := seq(|raw|, i requires 0 <= i < |raw| => raw[i].gdp);
      population, gdp, perCapita, region := [], [], [], [];
    }

    /** `df[pop] = df[pop].str.replace(',', '').str.strip()` */
    method CleanPopulation()
      requires Valid()
      modifies this`populationText
      ensures Valid()
      ensures populationText == CleanColumn(old(populationText))
    {
      populationText := CleanColumn(populationText);
    }

    /** `df[pop] = pd.to_numeric(df[pop], errors='coerce')` */
    method ParsePopulation()
      requires Valid()
      modifies this`population
      ensures population == ParsePopulationColumn(populationText)
    {
      population := ParsePopulationColumn(populationText);
    }

    /** `df[gdp] = pd.to_numeric(df[gdp], errors='coerce')` */
    method ParseGdp()
      requires Valid()
      modifies this`gdp
      ensures gdp == ParseGdpColumn(gdpText)
    {
      gdp := ParseGdpColumn(gdpText);
    }

    /** `df['GDP_per_capita'] = df[gdp] * 1000 / (df[pop] / 1_000_000)` */
    method DerivePerCapita()
      requires |population| == |gdp|
      modifies this`perCapita
      ensures perCapita == PerCapitaColumn(gdp, population)
    {
      perCapita := PerCapitaColumn(gdp, population);
    }

    /** `df['Region'] = df['Country/Region'].map(get_region)` */
    method AssignRegion()
      modifies this`region
      ensures region == RegionColumn(country)
    {
      region := RegionColumn(country);
    }

    /** The load steps in the code's order; the result is the row-by-row derivation of the input. */
    method Prepare()
      requires Valid()
      modifies this
      ensures Derived()
      ensures Rows() == DeriveAll(old(Source()))
    {
      ghost var raw := Source();
      CleanPopulation();
      ParsePopulation();
      ParseGdp();
      DerivePerCapita();
      AssignRegion();
      assert forall i :: 0 <= i < |city| ==> Rows()[i] == DeriveRow(raw[i]);
    }
  }

  /**
    Both ingestion paths, the default file and the uploaded file, run this on the
    table `read_csv` produced, so identical input gives identical tables.
   */
  method LoadTable(raw: seq<RawRow>) returns (f: Frame)
    ensures fresh(f) && f.Derived()
    ensures f.Rows() == DeriveAll(raw)
  {
    f := new Frame(raw);
    f.Prepare();
  }

  // ---------------------------------------------------------------- dropping rows with missing values

  /** A row whose population, GDP and GDP per capita are all numbers (NaN-free and finite). */
  predicate IsClean(r: Row)
  {
    r.population.Some? && r.gdp.Some? && r.perCapita.Value?
  }

  function ToMetro(r: Row): Metro
    requires IsClean(r)
  {
    Metro(r.city, r.region, r.population.value, r.gdp.value, r.perCapita.v)
  }

  /** A row whose derived cells are what loading computes from its parsed cells. */
  predicate WellDerived(r: Row)
  {
    r.perCapita == PerCapita(r.gdp, r.population) && r.region == RegionOf(r.country)
  }

  /** No NaN among population, GDP and GDP per capita; an infinity is not NaN. */
  predicate NotNa(r: Row)
  {
    r.population.Some? && r.gdp.Some? && !r.perCapita.NaN?
  }

  /**
    `dropna(subset=[per capita, population, GDP])` as written: NaN goes, but an
    infinite GDP per capita is a float like any other and stays.  The rows kept are
    exactly the rows without NaN, in table order: the mask `NotNa`.
   */
  function DropNa(rows: seq<Row>): (r: seq<Row>)
    ensures r == Tables.Filter(rows, NotNa)
    ensures forall i :: 0 <= i < |r| ==> NotNa(r[i])
    ensures forall i :: 0 <= i < |rows| && NotNa(rows[i]) ==> rows[i] in r
    ensures forall x :: x in r ==> x in rows
  {
    if rows == [] then []
    else
      var row := rows[0];
      (if row.population.Some? && row.gdp.Some? && !row.perCapita.NaN? then [row] else []) + DropNa(rows[1..])
  }

  /** The metros of clean rows, row by row. */
  function Metros(rows: seq<Row>): (ms: seq<Metro>)
    requires forall i :: 0 <= i < |rows| ==> IsClean(rows[i])
    ensures |ms| == |rows|
    ensures forall i :: 0 <= i < |rows| ==> ms[i] == ToMetro(rows[i])
  {
    seq(|rows|, i requires 0 <= i < |rows| => ToMetro(rows[i]))
  }

  /**
    The rows the analyses use: every cell present and GDP per capita finite, in table
    order.  Every row kept has a non-zero population and the per-capita formula holds.
   */
  function CleanRows(rows: seq<Row>): (ms: seq<Metro>)
    requires forall i :: 0 <= i < |rows| ==> WellDerived(rows[i])
    ensures |ms| <= |rows|
    ensures forall i :: 0 <= i < |ms| ==> Consistent(ms[i])
    ensures forall i :: 0 <= i < |rows| && IsClean(rows[i]) ==> ToMetro(rows[i]) in ms
    ensures ms == Metros(Tables.Filter(rows, IsClean))
  {
    if rows == [] then []
    else
      var rest := CleanRows(rows[1..]);
      assert forall i :: 1 <= i < |rows| ==> rows[i] == rows[1..][i - 1];
      MetrosCons(rows, IsClean(rows[0]));
      if IsClean(rows[0]) then
        ToMetroConsistent(rows[0]);
        [ToMetro(rows[0])] + rest
      else rest
  }

  /**
    A metro as loading derives it: a non-zero population, GDP per capita equal to
    `gdp * 1e9 / population`, and a region label or `'Other'`.
   */
  predicate Consistent(m: Metro)
  {
    && m.population != 0
    && m.perCapita == m.gdp * 1000000000.0 / m.population as real
    && (m.region in Regions.RegionLabels || m.region == Regions.Other)
  }

  lemma {:induction false} ToMetroConsistent(r: Row)
    requires IsClean(r) && WellDerived(r)
    ensures Consistent(ToMetro(r))
  {
  }

  lemma {:induction false} MetrosCons(rows: seq<Row>, clean: bool)
    requires rows != [] && clean == IsClean(rows[0])
    ensures Metros(Tables.Filter(rows, IsClean))
         == (if clean then [ToMetro(rows[0])] else []) + Metros(Tables.Filter(rows[1..], IsClean))
  {
  }

  /** A loaded row is kept exactly when both numbers parse and the population is not zero. */
  lemma {:induction false} CleanExactly(raw: RawRow)
    ensures IsClean(DeriveRow(raw)) <==>
              && ParsePopulation(CleanCell(raw.population)).Some?
              && ParseGdp(raw.gdp).Some?
              && ParsePopulation(CleanCell(raw.population)).value != 0
  {
  }

  /**
    A zero population with a positive GDP loads as an infinite GDP per capita, which
    `DropNa` keeps while `CleanRows` drops it.
   */
  lemma {:induction false} ZeroPopulationSurvivesDropNa()
    ensures var row := DeriveRow(RawRow("Ghost Town", Some("Nowhere"), Some("0"), Some("5")));
            && row.population == Some(0)
            && row.perCapita == Inf(true)
            && DropNa([row]) == [row]
            && CleanRows([row]) == []
  {
    CleanZero();
    assert Cleaning.ParseInt("0") == Some(0);
    assert Cleaning.ParseDecimal("5") == Some(5.0);
  }

  lemma {:induction false} CleanZero()
    ensures Cleaning.CleanPopulation("0") == "0"
  {
    Cleaning.RemoveCommasNoop("0");
    Cleaning.StripPadded([], "0", []);
    assert [] + "0" + [] == "0";
  }
}
