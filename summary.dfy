// The statistics generateSummary computes over the fetched releases, and the
// three outcomes it shows: invalid input, no release data, or a summary.

module Summary {
  import opened Releases
  import opened Pagination

  /** The page size generateSummary asks for. */
  const PerPage: nat := 50

  datatype Stats = Stats(
    numberReleases: nat,
    totalDownloads: nat,
    latestRelease: Option<Release>,
    latestStableRelease: Option<Release>)

  /** What the summary element ends up showing. The catch branch of
      generateSummary cannot be reached from the logic modelled here; only an
      error in writing the HTML reaches it. */
  datatype View =
    | InvalidName        // "Invalid owner and/or repository name"
    | NoReleaseData      // "Couldn't get any release data for the provided repository."
    | Report(stats: Stats)

  /** The sum of `total_downloads` over a list of releases, first to last. */
  function SumTotals(rs: seq<Release>): nat {
    if rs == [] then 0 else SumTotals(rs[..|rs| - 1]) + rs[|rs| - 1].totalDownloads
  }

  lemma {:induction false} SumTotalsAppend(a: seq<Release>, b: seq<Release>)
    ensures SumTotals(a + b) == SumTotals(a) + SumTotals(b)
    decreases |b|
  {
    if b != [] {
      assert (a + b)[..|a + b| - 1] == a + b[..|b| - 1];
      SumTotalsAppend(a, b[..|b| - 1]);
    } else {
      assert a + b == a;
    }
  }

  /** No single release has more downloads than the repository total. */
  lemma {:induction false} ReleaseBoundedByTotal(rs: seq<Release>, i: nat)
    requires i < |rs|
    ensures rs[i].totalDownloads <= SumTotals(rs)
  {
    if i < |rs| - 1 {
      ReleaseBoundedByTotal(rs[..|rs| - 1], i);
    }
  }

  /** The repository total over several pages is the sum of each page's total. */
  lemma {:induction false} TotalOverPages(server: Server, urls: seq<string>)
    ensures SumTotals(Collected(server, urls)) == PageTotals(server, urls)
  {
    if urls != [] {
      TotalOverPages(server, urls[1..]);
      SumTotalsAppend(ReplyReleases(Get(server, urls[0])), Collected(server, urls[1..]));
    }
  }

  function PageTotals(server: Server, urls: seq<string>): nat {
    if urls == [] then 0 else SumTotals(ReplyReleases(Get(server, urls[0]))) + PageTotals(server, urls[1..])
  }

  /** The `releases.forEach` fold of generateSummary. An undefined or empty
      list gives no statistics. Otherwise the count is the length, the total is
      the sum of the per-release totals, the latest release is the first one and
      the latest stable release is the first one that is not a prerelease, or
      none when all are prereleases. */
  method SummarizeReleases(releases: Option<seq<Release>>) returns (stats: Option<Stats>)
    ensures stats.None? <==> releases.None? || releases.value == []
    ensures stats.Some? ==> var rs := releases.value; var s := stats.value;
      && s.numberReleases == |rs|
      && s.totalDownloads == SumTotals(rs)
      && s.latestRelease == Some(rs[0])
      && (s.latestStableRelease.None? <==> forall i :: 0 <= i < |rs| ==> rs[i].prerelease)
      && (s.latestStableRelease.Some? ==> exists i ::
            && 0 <= i < |rs| && s.latestStableRelease.value == rs[i] && !rs[i].prerelease
            && forall j :: 0 <= j < i ==> rs[j].prerelease)
  {
    if releases.None? || |releases.value| == 0 {
      return None;
    }
    var rs := releases.value;
    var totalDownloads := 0;
    var numberReleases := 0;
    var latestRelease: Option<Release> := None;
    var latestStableRelease: Option<Release> := None;
    ghost var stableAt := 0;
    for i := 0 to |rs|
      invariant numberReleases == i
      invariant totalDownloads == SumTotals(rs[..i])
      invariant i == 0 ==> latestRelease.None?
      invariant i > 0 ==> latestRelease == Some(rs[0])
      invariant latestStableRelease.None? ==> forall j :: 0 <= j < i ==> rs[j].prerelease
      invariant latestStableRelease.Some? ==>
        && stableAt < i && latestStableRelease.value == rs[stableAt] && !rs[stableAt].prerelease
        && forall j :: 0 <= j < stableAt ==> rs[j].prerelease
    {
      var data := rs[i];
      numberReleases := numberReleases + 1;
      assert rs[..i + 1][..i] == rs[..i];
      totalDownloads := totalDownloads + data.totalDownloads;
      if latestRelease.None? {
        latestRelease := Some(data);
      }
      if latestStableRelease.None? {
        if !data.prerelease {
          latestStableRelease := Some(data);
          stableAt := i;
        }
      }
    }
    assert rs[..|rs|] == rs;
    stats := Some(Stats(numberReleases, totalDownloads, latestRelease, latestStableRelease));
  }

  /** generateSummary(repoOwner, repoName), without the HTML it writes. */
  method GenerateSummary(server: Server, owner: string, repo: string, ghost fuel: nat) returns (view: View)
    requires owner != "" && repo != "" ==> EndsWithin(server, FirstUrl(owner, repo, PerPage), fuel)
    ensures view == InvalidName <==> owner == "" || repo == ""
    ensures owner != "" && repo != "" ==>
      var fetched := Walk(server, FirstUrl(owner, repo, PerPage), fuel);
      (view == NoReleaseData <==> fetched.None? || fetched.value == [])
    ensures view.Report? ==>
      var rs := Walk(server, FirstUrl(owner, repo, PerPage), fuel).value;
      && view.stats.numberReleases == |rs|
      && view.stats.totalDownloads == SumTotals(rs)
      && view.stats.latestRelease == Some(rs[0])
      && (view.stats.latestStableRelease.None? <==> forall i :: 0 <= i < |rs| ==> rs[i].prerelease)
      && (view.stats.latestStableRelease.Some? ==> exists i ::
            && 0 <= i < |rs| && view.stats.latestStableRelease.value == rs[i] && !rs[i].prerelease
            && forall j :: 0 <= j < i ==> rs[j].prerelease)
  {
    if owner == "" || repo == "" {
      return InvalidName;
    }
    var releases, _ := FetchReleasesData(server, owner, repo, PerPage, fuel);
    var stats := SummarizeReleases(releases);
    if stats.Some? {
      view := Report(stats.value);
    } else {
      view := NoReleaseData;
    }
  }
}
