/** The fixed country-to-region lookup of the dashboard (`get_region`). */
module Regions {
  const Other: string := "Other"

  /** The 33 listed countries and the region each belongs to; the match is exact and case-sensitive. */
  const RegionTable: map<string, string> := map[
    "United States" := "North America",
    "Canada" := "North America",
    "Mexico" := "North America",
    "China" := "East Asia",
    "Japan" := "East Asia",
    "South Korea" := "East Asia",
    "Taiwan" := "East Asia",
    "India" := "South Asia",
    "Pakistan" := "South Asia",
    "Bangladesh" := "South Asia",
    "United Kingdom" := "Europe",
    "Germany" := "Europe",
    "France" := "Europe",
    "Italy" := "Europe",
    "Spain" := "Europe",
    "Russia" := "Europe",
    "Brazil" := "South America",
    "Argentina" := "South America",
    "Colombia" := "South America",
    "Australia" := "Oceania",
    "New Zealand" := "Oceania",
    "South Africa" := "Africa",
    "Nigeria" := "Africa",
    "Egypt" := "Africa",
    "Saudi Arabia" := "Middle East",
    "United Arab Emirates" := "Middle East",
    "Israel" := "Middle East",
    "Singapore" := "Southeast Asia",
    "Malaysia" := "Southeast Asia",
    "Indonesia" := "Southeast Asia",
    "Thailand" := "Southeast Asia",
    "Vietnam" := "Southeast Asia",
    "Philippines" := "Southeast Asia"
  ]

  /** The nine region labels the table can produce. */
  const RegionLabels: set<string> := {
    "North America", "East Asia", "South Asia", "Europe", "South America",
    "Oceania", "Africa", "Middle East", "Southeast Asia"
  }

  /** Region of a country name; every name not listed falls back to `Other`. */
  function GetRegion(country: string): (r: string)
    ensures r in RegionLabels || r == Other
    ensures r == Other <==> country !in RegionTable
    ensures country in RegionTable ==> r == RegionTable[country]
  {
    if country in RegionTable then RegionTable[country] else Other
  }

  /** The lookup is case-sensitive: a listed name in lower case is not listed. */
  lemma {:induction false} GetRegionCaseSensitive()
    ensures GetRegion("United States") == "North America"
    ensures GetRegion("united states") == Other
    ensures GetRegion("USA") == Other
  {
  }
}
