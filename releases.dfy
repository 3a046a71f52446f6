/** The search for the latest World Economic Outlook release of a year
    (Economics_DashBoard.py:689-701). The download itself is an oracle: `downloads(year,
    release, filename)` says whether fetching that release succeeds. */
module Releases {
  import opened Wrappers
  import Decimal

  /** `desired_release_month` (line 687): the search starts at October. */
  const DesiredReleaseMonth: nat := 10

  /** `strftime('%b')` in the C locale, for months 1 to 12. */
  const MonthAbbreviations: seq<string> :=
    ["Jan", "Feb", "Mar", "Apr", "May", "Jun", "Jul", "Aug", "Sep", "Oct", "Nov", "Dec"]

  /** The pair `(filename, release_str)` returned on success. */
  datatype Release = Release(filename: string, release: string)

  function Abbreviation(month: nat): string
    requires 1 <= month <= 12
  {
    MonthAbbreviations[month - 1]
  }

  /** `f'weo_{year}_{release_str}.csv'`. */
  function ReleaseFile(year: nat, month: nat): string
    requires 1 <= month <= 12
  {
    "weo_" + Decimal.ToDecimal(year) + "_" + Abbreviation(month) + ".csv"
  }

  predicate Succeeds(year: nat, month: nat, downloads: (nat, string, string) -> bool)
    requires 1 <= month <= 12
  {
    downloads(year, Abbreviation(month), ReleaseFile(year, month))
  }

  /** The latest month from `month` down to January whose download succeeds, if any. */
  function Latest(year: nat, month: nat, downloads: (nat, string, string) -> bool): (r: Option<nat>)
    requires month <= 12
    ensures r.Some? ==> 1 <= r.value <= month && Succeeds(year, r.value, downloads)
    ensures r.Some? ==> forall m | r.value < m <= month :: !Succeeds(year, m, downloads)
    ensures r.None? ==> forall m | 1 <= m <= month :: !Succeeds(year, m, downloads)
  {
    if month == 0 then None
    else if Succeeds(year, month, downloads) then Some(month)
    else Latest(year, month - 1, downloads)
  }

  /** The releases tried and warned about, from October down to just above `stop`. */
  function FailedFrom(stop: nat): (r: seq<string>)
    requires stop <= DesiredReleaseMonth
    ensures |r| == DesiredReleaseMonth - stop
  {
    seq(DesiredReleaseMonth - stop, i requires 0 <= i < DesiredReleaseMonth - stop => Abbreviation(DesiredReleaseMonth - i))
  }

  /** The loop of lines 690-701: October first, then one month earlier after each failed
      download, returning at the first success. The result is the latest release from
      October down to January that downloads, and a warning names each release tried
      before it, latest first. */
  method FindLatestRelease(year: nat, downloads: (nat, string, string) -> bool)
    returns (found: Option<Release>, warnings: seq<string>)
    requires 1 <= year <= 9999
    ensures match Latest(year, DesiredReleaseMonth, downloads)
      case None => found == None && warnings == FailedFrom(0)
      case Some(m) =>
        found == Some(Release(ReleaseFile(year, m), Abbreviation(m))) && warnings == FailedFrom(m)
  {
    warnings := [];
    var monthOffset := 0;
    while monthOffset < DesiredReleaseMonth
      invariant 0 <= monthOffset <= DesiredReleaseMonth
      invariant Latest(year, DesiredReleaseMonth, downloads) == Latest(year, DesiredReleaseMonth - monthOffset, downloads)
      invariant warnings == FailedFrom(DesiredReleaseMonth - monthOffset)
    {
      var releaseMonth := DesiredReleaseMonth - monthOffset;
      var releaseStr := MonthAbbreviations[releaseMonth - 1];
      var filename := "weo_" + Decimal.ToDecimal(year) + "_" + releaseStr + ".csv";
      if downloads(year, releaseStr, filename) {
        return Some(Release(filename, releaseStr)), warnings;
      }
      warnings := warnings + [releaseStr];
      monthOffset := monthOffset + 1;
    }
    found := None;
  }

  /** Each month of the search has its own file name, so a downloaded file always names
      the release it holds. */
  lemma ReleaseFilesDistinct(year: nat, m1: nat, m2: nat)
    requires 1 <= m1 <= 12 && 1 <= m2 <= 12 && m1 != m2
    ensures ReleaseFile(year, m1) != ReleaseFile(year, m2)
  {
    var prefix := "weo_" + Decimal.ToDecimal(year) + "_";
    var n := |prefix|;
    assert ReleaseFile(year, m1)[n..n + 3] == Abbreviation(m1);
    assert ReleaseFile(year, m2)[n..n + 3] == Abbreviation(m2);
  }
}
