/** The indicator catalog `grouped_indicators` (Economics_DashBoard.py:35-93), the list of
    rank indicators (lines 266-275), and the two loops that flatten the catalog
    (lines 345-348 and 388-396). A Python dict keeps insertion order, so the nested dict
    is a sequence of groups, each a sequence of (id, name) entries. */
module Catalog {

  datatype Indicator = Indicator(id: string, name: string)

  datatype Group = Group(topic: string, indicators: seq<Indicator>)

  /** One row of `indicators_df`: indicator_id, indicator_name, topic. */
  datatype CatalogRow = CatalogRow(id: string, name: string, topic: string)

  const PopulationTotalId: string := "SP.POP.TOTL"
  const PopulationGrowthId: string := "SP.POP.GROW"

  /** Indicators drawn as grouped bars (a rank: lower is better). */
  const RankIndicators: seq<string> := [
    "IC.BUS.EASE.XQ",
    "IC.CNST.PRMT.RK",
    "IC.CRED.ACC.CRD.RK",
    "IC.ELC.ACES.RK.DB19",
    "IC.REG.STRT.BUS.RK.DB19",
    "PAY.TAX.RK.DB19",
    "RESLV.ISV.RK.DB19",
    "TRD.ACRS.BRDR.RK.DB19"
  ]

  const GroupedIndicators: seq<Group> :=
    [
      Group("Business Environment", [
        Indicator("IC.BUS.EASE.DFRN.XQ.DB1719", "Global: Ease of doing business score (DB17-20 methodology)"),
        Indicator("IC.BUS.EASE.XQ", "Ease of doing business rank (1=most business-friendly regulations)"),
        Indicator("IC.CNST.PRMT.RK", "Rank: Dealing with construction permits (1=most business-friendly regulations)"),
        Indicator("IC.CRED.ACC.CRD.RK", "Rank: Getting credit (1=most business-friendly regulations)"),
        Indicator("IC.ELC.ACES.RK.DB19", "Rank: Getting electricity (1=most business-friendly regulations)"),
        Indicator("IC.REG.STRT.BUS.RK.DB19", "Rank: Starting a business (1=most business-friendly regulations)"),
        Indicator("PAY.TAX.RK.DB19", "Rank: Paying taxes (1=most business-friendly regulations)"),
        Indicator("RESLV.ISV.RK.DB19", "Rank: Resolving insolvency (1=most business-friendly regulations)"),
        Indicator("TRD.ACRS.BRDR.RK.DB19", "Rank: Trading across borders (1=most business-friendly regulations)")
      ]),
      Group("Economic Performance", [
        Indicator("NY.GDP.MKTP.CD", "GDP (current US$)"),
        Indicator("NY.GDP.PCAP.CD", "GDP per capita (current US$)"),
        Indicator("NY.GDP.DEFL.KD.ZG", "Inflation, GDP deflator (annual %)"),
        Indicator("NY.GDP.MKTP.KD.ZG", "GDP growth (annual %)"),
        Indicator("NY.GDP.PCAP.KD.ZG", "GDP per capita growth (annual %)"),
        Indicator("NY.GNS.ICTR.CD", "Gross savings (current US$)")
      ]),
      Group("Trade & Investment", [
        Indicator("BG.GSR.NFSV.GD.ZS", "Trade in services (% of GDP)"),
        Indicator("BM.GSR.GNFS.CD", "Imports of goods and services (BoP, current US$)"),
        Indicator("BM.KLT.DINV.WD.GD.ZS", "Foreign direct investment, net outflows (% of GDP)"),
        Indicator("BN.CAB.XOKA.GD.ZS", "Current account balance (% of GDP)"),
        Indicator("BN.KLT.DINV.CD", "Foreign direct investment, net (BoP, current US$)"),
        Indicator("BN.KLT.PTXL.CD", "Portfolio Investment, net (BoP, current US$)"),
        Indicator("BX.GSR.GNFS.CD", "Exports of goods and services (BoP, current US$)")
      ]),
      Group("Financial Indicators", [
        Indicator("CM.MKT.LCAP.GD.ZS", "Market capitalization of listed domestic companies (% of GDP)"),
        Indicator("GB.XPD.RSDV.GD.ZS", "Research and development expenditure (% of GDP)"),
        Indicator("GC.DOD.TOTL.GD.ZS", "Central government debt, total (% of GDP)")
      ]),
      Group("Social Indicators", [
        Indicator("EN.POP.DNST", "Population density (people per sq. km of land area)"),
        Indicator("FI.RES.TOTL.CD", "Total reserves (includes gold, current US$)"),
        Indicator("FP.CPI.TOTL", "Consumer price index (2010 = 100)"),
        Indicator("FP.CPI.TOTL.ZG", "Inflation, consumer prices (annual %)"),
        Indicator("FP.WPI.TOTL", "Wholesale price index (2010 = 100)"),
        Indicator("SE.ADT.LITR.ZS", "Literacy rate, adult total (% of people ages 15 and above)"),
        Indicator("SE.ADT.1524.LT.ZS", "Literacy rate, youth total (% of people ages 15-24)"),
        Indicator("SH.DTH.IMRT", "Number of infant deaths"),
        Indicator("SH.MED.BEDS.ZS", "Hospital beds (per 1,000 people)"),
        Indicator("SI.POV.GINI", "Gini index"),
        Indicator("SL.UEM.1524.NE.ZS", "Unemployment, youth total (% of total labor force ages 15-24) (national estimate)"),
        Indicator("SL.UEM.TOTL.NE.ZS", "Unemployment, total (% of total labor force) (national estimate)"),
        Indicator("SM.POP.NETM", "Net migration"),
        Indicator("SP.DYN.LE00.IN", "Life expectancy at birth, total (years)"),
        Indicator("SP.POP.GROW", "Population growth (annual %)"),
        Indicator("SP.POP.TOTL", "Population, total"),
        Indicator("SP.RUR.TOTL", "Rural population"),
        Indicator("SP.URB.TOTL", "Urban population")
      ]),
      Group("Governance Indicators", [
        Indicator("GE.EST", "Government Effectiveness: Estimate"),
        Indicator("PV.EST", "Political Stability and Absence of Violence/Terrorism: Estimate")
      ])
    ]

  /** The rows one group contributes, in the group's order. */
  function GroupRows(g: Group): seq<CatalogRow> {
    seq(|g.indicators|, k requires 0 <= k < |g.indicators| =>
      CatalogRow(g.indicators[k].id, g.indicators[k].name, g.topic))
  }

  /** The flattened catalog: group after group, entry after entry. */
  function Flat(groups: seq<Group>): seq<CatalogRow> {
    if groups == [] then [] else Flat(groups[..|groups| - 1]) + GroupRows(groups[|groups| - 1])
  }

  /** `r` is entry `k` of group `i` for some `i` and `k`. */
  ghost predicate Listed(groups: seq<Group>, r: CatalogRow) {
    exists i, k | 0 <= i < |groups| && 0 <= k < |groups[i].indicators| ::
      r == CatalogRow(groups[i].indicators[k].id, groups[i].indicators[k].name, groups[i].topic)
  }

  /** The flattened catalog holds exactly the entries of the nested one, each with its topic. */
  lemma {:induction false} FlatListsEveryEntry(groups: seq<Group>)
    ensures forall r :: r in Flat(groups) <==> Listed(groups, r)
  {
    if groups != [] {
      var n := |groups| - 1;
      var init := groups[..n];
      FlatListsEveryEntry(init);
      forall r ensures r in Flat(groups) <==> Listed(groups, r) {
        if r in GroupRows(groups[n]) {
          var k :| 0 <= k < |groups[n].indicators| && GroupRows(groups[n])[k] == r;
          assert r == CatalogRow(groups[n].indicators[k].id, groups[n].indicators[k].name, groups[n].topic);
        }
        if Listed(groups, r) {
          var i, k :| 0 <= i < |groups| && 0 <= k < |groups[i].indicators| &&
            r == CatalogRow(groups[i].indicators[k].id, groups[i].indicators[k].name, groups[i].topic);
          if i < n {
            assert init[i] == groups[i];
            assert Listed(init, r);
          } else {
            assert GroupRows(groups[n])[k] == r;
          }
        }
        if Listed(init, r) {
          var i, k :| 0 <= i < |init| && 0 <= k < |init[i].indicators| &&
            r == CatalogRow(init[i].indicators[k].id, init[i].indicators[k].name, init[i].topic);
          assert groups[i] == init[i];
        }
      }
    }
  }

  /** The loop at lines 388-395 that builds `indicators_flat`. */
  method FlattenCatalog(groups: seq<Group>) returns (flat: seq<CatalogRow>)
    ensures flat == Flat(groups)
    ensures forall r :: r in flat <==> Listed(groups, r)
  {
    flat := [];
    for i := 0 to |groups|
      invariant flat == Flat(groups[..i])
    {
      var g := groups[i];
      for k := 0 to |g.indicators|
        invariant flat == Flat(groups[..i]) + GroupRows(g)[..k]
      {
        flat := flat + [CatalogRow(g.indicators[k].id, g.indicators[k].name, g.topic)];
      }
      assert groups[..i + 1][..i] == groups[..i];
      assert GroupRows(g)[..|g.indicators|] == GroupRows(g);
    }
    assert groups[..|groups|] == groups;
    FlatListsEveryEntry(groups);
  }

  /** The loop at lines 345-348 that builds `all_indicators`: the (id, name) pairs of the
      flattened catalog, in the same order. */
  method CollectIndicators(groups: seq<Group>) returns (pairs: seq<(string, string)>)
    ensures |pairs| == |Flat(groups)|
    ensures forall j | 0 <= j < |pairs| :: pairs[j] == (Flat(groups)[j].id, Flat(groups)[j].name)
  {
    pairs := [];
    for i := 0 to |groups|
      invariant |pairs| == |Flat(groups[..i])|
      invariant forall j | 0 <= j < |pairs| :: pairs[j] == (Flat(groups[..i])[j].id, Flat(groups[..i])[j].name)
    {
      var g := groups[i];
      ghost var done := Flat(groups[..i]);
      for k := 0 to |g.indicators|
        invariant |pairs| == |done| + k
        invariant forall j | 0 <= j < |pairs| ::
          pairs[j] == ((done + GroupRows(g))[j].id, (done + GroupRows(g))[j].name)
      {
        pairs := pairs + [(g.indicators[k].id, g.indicators[k].name)];
      }
      assert groups[..i + 1][..i] == groups[..i];
      assert Flat(groups[..i + 1]) == done + GroupRows(g);
    }
    assert groups[..|groups|] == groups;
  }

  /** The population pair that the combined chart needs sits in one topic, so both series
      reach it through the same topic's rows. */
  lemma PopulationPairInSocialIndicators()
    ensures GroupedIndicators[4].topic == "Social Indicators"
    ensures Indicator(PopulationTotalId, "Population, total") in GroupedIndicators[4].indicators
    ensures Indicator(PopulationGrowthId, "Population growth (annual %)") in GroupedIndicators[4].indicators
  {
    assert GroupedIndicators[4].indicators[14] == Indicator(PopulationGrowthId, "Population growth (annual %)");
    assert GroupedIndicators[4].indicators[15] == Indicator(PopulationTotalId, "Population, total");
  }
}
