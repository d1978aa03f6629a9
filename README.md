# Metro GDP dashboard — a verified model of its data rules

The dashboard is a Streamlit application that loads a table of metropolitan areas. Each row has a city, a country, a population written as text and an estimated GDP in billions of US dollars. The application derives a GDP per capita and a region for every row, then charts the table in several ways. This project models the deterministic rules behind those charts and proves their properties:

- **Loading.** Commas are removed from the population text and it is stripped. Both numbers are parsed with a parse-or-null policy. GDP per capita is `gdp * 1000 / (population / 1_000_000)`. The region comes from a fixed 33-country table that falls back to `'Other'`. The default file and an uploaded file go through the same steps.
- **Clean rows.** `dropna` drops the rows with a missing value. An infinite GDP per capita survives it; the analyses are modelled over the rows whose GDP per capita is finite.
- **Top performers.** The 15 rows with the largest GDP per capita.
- **Size classes.** `pd.cut` on population with right-closed bins, and the per-class summary of the size-efficiency chart.
- **Regional summary.** `groupby('Region')`: count, mean per capita, total population, total GDP and regional productivity.
- **Sunburst data.** Per region, the five largest metros by GDP and one aggregated "Other" entry.
- **Outliers.** Rows with a z-score above 2 or below -2, and the typical rows between.
- **Quadrants.** The four-way label on min-max normalised GDP per capita and population.

Python and pandas semantics are modelled explicitly where they matter:

- Populations are exact integers and money is `real`.
- A missing or unparsable cell is `None`.
- A float division is a `Floats.Quotient`: a value, a signed infinity when the divisor is zero, or NaN for 0 / 0.
- NaN compares false in a mask.
- `groupby` sorts its keys by code point.
- `unique()` keeps first-appearance order.
- `nlargest` breaks ties in table order (`keep='first'`): among rows tied at one key, the earliest are taken.
- The size bins are right-closed `pd.cut` intervals, (low, high].
- A zero population yields an infinite GDP per capita, or NaN for zero GDP; the division raises no error.
- Zero variance in the GDP per capita makes every z-score NaN.

The modules follow the pipeline:

- `Wrappers`: `Option`.
- `Floats`: float division and comparisons.
- `Regions`: `get_region`.
- `Cleaning`: string cleaning and numeric parsing.
- `Tables`: filters, sums, grouping, stable sort and `nlargest`.
- `Loader`: the load steps as a `Frame` class whose methods overwrite the columns in the code's order, the row-by-row derivation they are proved against, and the dropping of incomplete rows.
- `Selection`: the top 15.
- `Bucketing`: the size classes.
- `Regional`: the regional summary.
- `Sunburst`: a method with the chart code's two loops, proved equal to a specification function.
- `Outliers`: the outlier sets.
- `Quadrants`: the labelling, as a method that fills an array with "Average" and applies four masked passes.

## Model

| member | source | states |
|---|---|---|
| Regions.GetRegion | app.py:692-730 | The result is one of the nine region labels or `'Other'`. It is `'Other'` exactly when the country is not one of the 33 keys; otherwise it is that key's region. |
| Regions.GetRegionCaseSensitive | app.py:692-730 | The lookup matches the country name exactly: "United States" is North America, while "united states" and "USA" are `'Other'`. |
| Floats.Ratio | app.py:679 | Float division: finite exactly when the divisor is non-zero, and then the quotient times the divisor is the dividend. NaN exactly for 0 / 0, otherwise an infinity signed like the dividend. |
| Floats.RatioScaled | app.py:679 | Dividing by `p / 1e6` equals multiplying by `1e6` and dividing by `p`, for any non-zero `p`. |
| Cleaning.RemoveCommas | app.py:672 | `str.replace(',', '')` leaves no comma. |
| Cleaning.RemoveCommasContents | app.py:672 | Removing commas keeps every other character with its multiplicity. |
| Cleaning.RemoveCommasAppend | app.py:672 | Comma removal distributes over concatenation. |
| Cleaning.RemoveCommasNoop | app.py:672 | Text without commas is unchanged. |
| Cleaning.LeadingSpaces | app.py:672 | The length of the leading whitespace run, which is followed by a non-space or the end. |
| Cleaning.TrailingSpaces | app.py:672 | The length of the trailing whitespace run, which is preceded by a non-space or the start. |
| Cleaning.Strip | app.py:672 | `str.strip()`: the result is a contiguous slice of the input, neither end is whitespace, and only whitespace was removed on either side. |
| Cleaning.StripTrims | app.py:672 | The stripped text is a contiguous piece of the input with only whitespace before and after it, and stripping adds no comma. |
| Cleaning.StripPadded | app.py:672 | Stripping whitespace padding around a core that neither starts nor ends with whitespace gives back the core. |
| Cleaning.CleanPopulation | app.py:672 | The cleaned population text has no comma and no whitespace at either end. It is a contiguous piece of the comma-free text with only whitespace around it, so only commas and surrounding whitespace were removed. |
| Cleaning.CleanPopulationIdempotent | app.py:672 | Cleaning cleaned text changes nothing. |
| Cleaning.ParseInt | app.py:673 | `to_numeric(errors='coerce')` on integer text: a value exactly when the text is an optional sign followed by at least one digit. All-digit text parses to its decimal value; signed text parses to its digits' value, negated after a '-' ("-05" is -5, "+5" is 5); a negative result has a leading `-`. |
| Cleaning.ParseIntShowInt | app.py:673 | Parsing the decimal rendering of any integer gives back that integer. |
| Cleaning.DigitsValueShowNat | app.py:673 | The digits of a natural number evaluate back to it. |
| Cleaning.ShowNatSplit | app.py:672-673 | The digits of n ≥ 1000 are the digits of n / 1000 followed by the three zero-padded digits of n % 1000. |
| Cleaning.RemoveCommasGrouped | app.py:672 | Removing the thousands separators of a grouped number leaves its plain digits. |
| Cleaning.PopulationRoundTrip | app.py:672-673 | A population written with thousands separators and padded with whitespace cleans and parses to its number. |
| Cleaning.LiteralValue | app.py:676 | The number an unsigned literal denotes is non-negative. |
| Cleaning.UnsignedLiteralSplit | app.py:676 | Read off the first point, an unsigned literal is a non-empty digit string, or digits before and after one point with at least one digit in all. |
| Cleaning.ParseUnsigned | app.py:676 | Unsigned GDP text parses exactly when it is an unsigned literal (digits and at most one point, at least one digit), and then to the number the literal denotes. All-digit text parses to its integer value. |
| Cleaning.ParseDecimal | app.py:676 | GDP text parses exactly when it is a decimal literal: an unsigned literal with an optional sign. A '-' negates the literal's value and a '+' keeps it; text without a sign reads as unsigned. Empty text or a lone sign is NaN (None). |
| Cleaning.ParseDecimalRejects | app.py:676 | "abc", "1.2.3", "-x", ".", "-" and " 5" are all NaN. |
| Cleaning.ParseDecimalNegative | app.py:676 | "-2.5" reads as -2.5. |
| Cleaning.ParseDecimalPlusFraction | app.py:676 | "+.5" reads as 0.5. |
| Cleaning.ParseDecimalExtendsParseInt | app.py:673-676 | Wherever integer parsing succeeds, decimal parsing succeeds with the same value. |
| Cleaning.ParseDecimalFraction | app.py:676 | `a.b` with digit strings `a` and `b` parses to `a + b / 10^len(b)`. |
| Loader.CleanCell | app.py:672 | An empty cell stays empty. A present cell becomes its cleaned text, with no comma and no whitespace at either end. |
| Loader.ParsePopulation | app.py:673 | A population cell parses exactly when it is present and is digits, or a sign followed by digits. Digit text parses to its decimal value, and signed text to its digits' value, negated after a '-'. |
| Loader.ParseGdp | app.py:676 | A GDP value exists exactly when the cell is present and holds a decimal literal. An unsigned literal gives the number it denotes, a '-' literal its negation, and digit text its decimal value. |
| Loader.PerCapita | app.py:676-680 | NaN when either input is missing. `gdp * 1e9 / population` for a non-zero population. Not finite for a zero population. |
| Loader.RegionOf | app.py:683 | A present country maps through `get_region`. The result is `'Other'` exactly when the cell is empty or the country is not one of the 33 keys; otherwise it is that key's region. |
| Loader.DeriveRow | app.py:672-683 | A derived row keeps its city and country. Its population is the parsed cleaned text, its GDP the parsed GDP text, and its per capita and region are derived from those. |
| Loader.DeriveAll | app.py:672-683 | The loaded table has one derived row per input row, in order, each derived by the same rules. |
| Loader.LoadedPopulation | app.py:672-673 | A grouped, padded population cell loads as its number. |
| Loader.Frame.constructor | app.py:666 | The table as read: its text columns are the input rows and no derived column exists yet. |
| Loader.Frame.CleanPopulation | app.py:672 | Overwrites the population column with its cleaned text. |
| Loader.Frame.ParsePopulation | app.py:673 | Writes the parsed population column. |
| Loader.Frame.ParseGdp | app.py:676 | Writes the parsed GDP column. |
| Loader.Frame.DerivePerCapita | app.py:679 | Writes the per-capita column from the parsed columns. |
| Loader.Frame.AssignRegion | app.py:683 | Writes the region column. |
| Loader.Frame.Prepare | app.py:672-683 | After the five steps in the code's order, the table is the row-by-row derivation of the table as read. |
| Loader.LoadTable | app.py:747-758 | Both ingestion paths give the same derived table for the same input. |
| Loader.DropNa | app.py:1513 | As written: exactly the rows with a population, a GDP and a per capita that is not NaN, in table order. A kept per capita may still be infinite. |
| Loader.CleanRows | app.py:1513 | The clean rows, in order, as metros. Every one has a non-zero population, a per capita equal to `gdp * 1e9 / population`, and a region label or `'Other'`. Every complete row with a finite per capita is kept. |
| Loader.CleanExactly | app.py:672-683 | A loaded row is clean exactly when both numbers parse and the population is non-zero. |
| Loader.ZeroPopulationSurvivesDropNa | app.py:676-680 | A population of "0" with GDP "5" loads as +inf per capita; `DropNa` keeps the row and `CleanRows` drops it. |
| Tables.Filter | app.py:1769-1770 | A boolean mask keeps only rows that pass, keeps every row that passes, and adds nothing. |
| Tables.FilterOrder | app.py:1769-1770 | The rows a mask keeps are the input rows at the ascending positions that pass, one for each such position. |
| Tables.Where | app.py:1623 | `region_df = clean_df[clean_df['Region'] == region]` keeps exactly the rows of that region. |
| Tables.WhereIsFilter | app.py:1623 | Selecting one group is the boolean mask on that group, so it keeps table order. |
| Tables.FilterPartition | app.py:1769-1770 | A mask and its complement split the rows. |
| Tables.SortDesc | app.py:1769 | Sorting by a key gives a permutation of the rows with descending keys. |
| Tables.SortDescStable | app.py:1625 | The sort is stable: for every key value, the rows with that key appear in the sorted table in their table order. |
| Tables.TiesIsFilter | app.py:1625 | The rows tied at one key value, in order, are the boolean mask `key == c` applied to the table. |
| Tables.Largest | app.py:1625 | `nlargest(n)` returns min(n, rows) rows in descending key order. With the rows left out it is the whole table, and no row left out has a larger key than one taken. |
| Tables.LargestKeepsFirst | app.py:1625 | `keep='first'`: for every key value, the tied rows in table order are the tied rows taken followed by the tied rows left out, so the earliest tied rows are the ones taken. |
| Tables.SumByPermutation | app.py:1643 | A column sum does not depend on row order. |
| Tables.GroupSumsTotal | app.py:1516-1521 | Per-key sums over keys that cover every row add up to the column total. |
| Tables.Unique | app.py:1622 | `unique()` gives distinct values, each a value of the column, and every value of the column occurs. They are in order of first appearance. |
| Tables.Remaining | app.py:1638 | `drop(top_metros.index)` leaves the rows beyond the first min(n, rows); `Tables.Largest` states that the two together are the whole table. |
| Selection.TopPerCapita | app.py:1109 | Takes min(15, rows with a per capita) rows of the table, all with a per capita, no row more often than it occurs. They are in descending order with +inf above and -inf below every real. No row left out ranks above a row taken. |
| Selection.SplitByRankRows | app.py:1109 | Every row with a per capita is +inf, finite or -inf, and in exactly one of the three classes. |
| Bucketing.Bin | app.py:1337-1341 | `pd.cut` places p in a bin exactly when first edge < p ≤ last edge, and then in the right-closed bin (edges[k], edges[k+1]]. |
| Bucketing.BinUnique | app.py:1337-1341 | A value in (edges[k], edges[k+1]] is placed in bin k and no other. |
| Bucketing.SizeCategory | app.py:1337-1341 | The four-class size label exists exactly for 0 < p ≤ 50,000,000, and a population in (edges[k], edges[k+1]] gets label k. |
| Bucketing.SizeCategoryBoundaries | app.py:1337-1341 | Each edge value falls in the class below it; 0 and 50,000,001 fall in none. |
| Bucketing.InBin | app.py:1379-1380 | The rows of one class are the boolean mask `low < population <= high` applied to the table: each row in range, in table order and as often as it occurs, and nothing else. |
| Bucketing.Mean | app.py:1380-1383 | A class mean is absent exactly for an empty class; otherwise the mean times the count is the class sum. |
| Bucketing.InBinSplit | app.py:1376-1379 | Two adjacent bins hold as many rows as the bin spanning both. |
| Bucketing.BinMembership | app.py:1379 | A row is among the rows of class k exactly when `pd.cut` puts its population in class k. |
| Bucketing.ClassSummaries | app.py:1379-1387 | One summary per class, empty classes included. Each count is the number of rows in that class. The means are absent exactly for an empty class; otherwise each mean times the count is the class sum. |
| Bucketing.ClassCountsTotal | app.py:1379-1383 | The class counts add up to the number of rows inside the outer edges. |
| Bucketing.SizeEfficiency | app.py:1376-1387 | Six classes, each summarising exactly the rows in its bin with its label, whose counts add up to the rows with 0 < population ≤ 50M. |
| Regional.GroupKeys | app.py:1516 | The group keys are the regions present, each once, in ascending code-point order. |
| Regional.Productivity | app.py:1530 | `Total_GDP / (Total_Population / 1e6)` equals `total_gdp * 1e6 / total_population` for a non-zero population. It is not finite for a zero population. |
| Regional.MeanOf | app.py:1518 | The mean times the count gives back the sum. |
| Regional.SummaryOf | app.py:1516-1530 | The summary of a present region aggregates exactly that region's rows: a positive count equal to their number, a mean per capita that times the count is their sum, their population and GDP totals, and productivity `total_gdp * 1e6 / total_population` when the total is non-zero. |
| Regional.Aggregate | app.py:1516-1530 | The aggregates of a non-empty group of rows satisfy the same summary facts. |
| Regional.SummariesFor | app.py:1516-1530 | One summary per key, in key order, each the summary of that key. |
| Regional.RegionalSummary | app.py:1516-1530 | Rows are strictly ascending by region, every row's region is present in the data, every region present has a row, and each row is the summary of its region's rows. |
| Regional.RegionalSummaryConserves | app.py:1516-1530 | The metro counts add up to the number of clean rows, and the GDP and population totals to the table's totals. |
| Regional.RegionalOneRowPerRegion | app.py:1516-1521 | No region appears twice, and a region has a row exactly when some clean row has it. |
| Regional.BeforeTransitive | app.py:1516 | The string order used for the group keys is transitive. |
| Regional.BeforeTotal | app.py:1516 | Any two different strings are ordered one way or the other. |
| Sunburst.MetroEntries | app.py:1628-1635 | One entry per top metro, in order, each carrying that metro's GDP, population and per capita. |
| Sunburst.RegionEntries | app.py:1623-1646 | A region of n metros gets min(5, n) entries plus one exactly when n > 5, all tagged with the region. |
| Sunburst.Sunburst | app.py:1620-1646 | Every entry belongs to a region present in the data. |
| Sunburst.OtherEntry | app.py:1638-1646 | The Other entry carries the summed GDP and population of the remaining metros, and `sum_gdp * 1e9 / sum_pop` as its per capita. |
| Sunburst.BuildSunburst | app.py:1620-1646 | The loop over regions builds exactly the specification `Sunburst`. |
| Sunburst.AppendRegion | app.py:1623-1646 | One loop iteration appends exactly that region's entries. |
| Sunburst.RegionEntriesShape | app.py:1625-1646 | A region of n metros gets min(5, n) metro entries in descending GDP order, then an Other entry exactly when n > 5. That is at most six entries, all tagged with the region. |
| Sunburst.RegionEntriesTop | app.py:1625-1646 | The top metros and the rest together are the region's rows. Each metro shown is the matching `nlargest` row, no metro folded into Other has a larger GDP than one shown, and the last entry aggregates exactly the rest. |
| Sunburst.RegionEntriesGdp | app.py:1625-1646 | A region's entries carry exactly the region's total GDP. |
| Sunburst.SunburstGdpTotal | app.py:1620-1646 | The sunburst's GDP values add up to the whole table's GDP. |
| Outliers.AttachScores | app.py:1765-1766 | Each clean row is paired with its own z-score, in order. |
| Outliers.OutliersHigh | app.py:1769 | Exactly the rows with z > 2, in descending z order. |
| Outliers.OutliersLow | app.py:1770 | Exactly the rows with z < -2, in ascending z order. |
| Outliers.Typical | app.py:1982 | The boolean mask `(z <= 2) & (z >= -2)` applied to the rows: each typical row in table order and as often as it occurs, and no other row. |
| Outliers.OutliersDisjoint | app.py:1769-1770 | No row is both an overperformer and an underperformer. |
| Outliers.OutlierPartition | app.py:1769-1770 | The high, low and typical sets and the NaN-scored rows together hold every row exactly once. |
| Outliers.ZeroVarianceSelectsNothing | app.py:1765-1770 | When every z-score is NaN, both outlier lists and the typical set are empty. |
| Outliers.RequestedSample | app.py:1982 | As written, the sample size is min(20, rows of the whole table). |
| Outliers.ZeroVarianceSampleFails | app.py:1982 | With every z-score NaN and at least one row, more typical rows are requested than exist, so `.sample` cannot draw them. |
| Outliers.SmallTableSampleFails | app.py:1982 | In a table of at most 20 rows with one row that is not typical, the request exceeds the typical rows. |
| Outliers.TypicalSample | app.py:1979-1982 | The corrected size, min(20, typical rows), can always be drawn and is at most 20. |
| Outliers.TypicalSampleAgrees | app.py:1982 | Wherever the sample as written succeeds, the corrected size is the same. |
| Quadrants.Normalize | app.py:1968-1969 | Min-max normalisation keeps one value per row. |
| Quadrants.NormalizeInUnitRange | app.py:1968-1969 | When max > min, every normalised value is finite and in [0, 1]; the minimum maps to 0 and the maximum to 1. |
| Quadrants.NormalizeConstant | app.py:1968-1969 | A column whose values are all equal normalises to NaN everywhere. |
| Quadrants.LabelsDistinct | app.py:1972-1976 | The five label strings the chart shows are pairwise distinct, so each label names one quadrant. |
| Quadrants.QuadrantOf | app.py:1972-1976 | Each of the four labels is given exactly when both coordinates are on that label's sides of 0.5. |
| Quadrants.AfterMasks | app.py:1972-1976 | After the first k masked overwrites a row is still "Average" exactly when none of them matched, and the label of mask k when mask k matches. |
| Quadrants.MasksExclusive | app.py:1973-1976 | No two of the four masks match the same row. |
| Quadrants.AfterAllMasks | app.py:1972-1976 | After the four overwrites in order, a row carries the reference label `QuadrantOf`. |
| Quadrants.AverageExactly | app.py:1972-1976 | A row stays "Average" exactly when one of its coordinates is neither above nor below 0.5. |
| Quadrants.MiddleIsAverage | app.py:1972-1976 | A coordinate exactly 0.5, or NaN, leaves the row "Average". |
| Quadrants.ApplyMask | app.py:1973-1976 | One masked assignment overwrites exactly the rows its mask matches. |
| Quadrants.AssignQuadrants | app.py:1968-1976 | The label column equals `QuadrantOf` of the two normalised coordinates, row by row. |

## Left out

- The Streamlit layout, CSS, narrative text, navigation, metric cards and every Plotly/Altair chart are presentation only.
- File probing, the hard-coded path, `read_csv`, the upload widget and `@st.cache_data` are I/O and framework plumbing. The model starts from the rows `read_csv` would produce, with every cell as text or empty.
- dtype inference is not modelled. If `read_csv` infers a numeric population column, `.str` raises and the loader returns None. The model treats every cell as text.
- Missing-column errors (`KeyError`) and the loader's catch-all exception handler are not modelled.
- `to_numeric` on the population: the text is read with the integer grammar (optional sign, digits). A fractional population such as "1.5", an exponent or `inf` becomes None in the model; pandas accepts them.
- `to_numeric` on GDP: the text is read with the decimal grammar (optional sign, digits, at most one point), so "1.5" and ".5" parse. An exponent ("1e3"), `inf`/`nan` text, and GDP text padded with whitespace (the code does not strip the GDP column) become None in the model; pandas accepts some of these.
- Reals stand in for doubles. Rounding error, the signed zero and the rounding to two decimals are not modelled.
- The median and standard-deviation aggregates are not modelled.
- `scipy.stats.zscore` is a foreign numeric routine. The z-scores are an input of `Outliers.AttachScores`, and None means NaN.
- The statsmodels OLS fit is not modelled.
- The random `.sample(min(20, n))` of typical rows is non-deterministic. `Outliers.Typical` is the set it samples from.
- The filter widgets are never applied to data. The display-only `fillna` and the radar-chart scaling are presentation tweaks.
- Outliers.OutliersHigh: `sort_values` does not keep ties in table order. The contract states only the order and the contents, and the model's sort happens to be stable.
- Selection.TopPerCapita: the tie order of `nlargest` (`keep='first'`) holds by construction but is not stated in the contract.
- Outliers.Typical: the `.sample(min(20, len(clean_df)))` at app.py:1982 draws without replacement and raises `ValueError` when fewer typical rows exist than requested. The model states when that happens (`Outliers.ZeroVarianceSampleFails`, `Outliers.SmallTableSampleFails`) but not the exception, and not which rows are drawn.
- Loader.CleanRows: the regional, sunburst, outlier and quadrant analyses are modelled over the rows with a finite GDP per capita. The code keeps a +inf row after `dropna` (app.py:1513, app.py:1762), and the model does not capture what follows from it beyond `Loader.ZeroPopulationSurvivesDropNa` and `Loader.DropNa`:
  - the regional mean per capita of that region is inf;
  - the sunburst (app.py:1620-1646) shows the row, or folds it into its region's "Other" entry, while the model's `Sunburst` omits it;
  - every z-score is NaN (inf - inf), so the typical set is empty and the `.sample` at app.py:1982 raises before the quadrant chart is drawn;
  - in the min-max normalisation at app.py:1968 the maximum is inf, so every finite row normalises to 0 and falls on the "Less Efficient" side, and only the +inf row is NaN.
  - The size classes are unaffected: a zero population falls in no `pd.cut` bin.
- Regional.SummaryOf: `Metro_Count` counts the non-null city cells of a region. In the model the city is always present, so the count is the number of the region's rows.
- Tables.Remaining: its own contract states only its size; the contents of `drop(top_metros.index)` are stated by `Tables.Largest` and `Sunburst.RegionEntriesTop`.

## Findings

| source | as written | input that shows it | evidently intended | confidence | as-written member | corrected member |
|---|---|---|---|---|---|---|
| app.py:1982 | `.sample(min(20, len(clean_df)))` sizes the sample of typical rows by the whole table. | every GDP per capita equal (all z-scores NaN) in a non-empty table; or at most 20 rows, one of them an outlier | min(20, number of typical rows) | not executed | Outliers.ZeroVarianceSampleFails | Outliers.TypicalSample |
| app.py:679 with app.py:1513 and app.py:1762 | A zero population divides by zero and gives an infinite GDP per capita. `dropna` keeps it, so it reaches the clean table, the regional means and the z-scores. | population cell "0", GDP cell "5" | Analyses use only rows with a finite GDP per capita. | not executed | Loader.ZeroPopulationSurvivesDropNa | Loader.CleanRows |
