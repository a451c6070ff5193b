// Release records as the GitHub releases endpoint delivers them, and the
// per-release download total that fetchReleasesData writes into each one.

module Releases {

  datatype Option<T> = None | Some(value: T)

  /** One downloadable file of a release. `downloadCount` is None when the
      API omits the field or sends null. */
  datatype Asset = Asset(name: string, browserDownloadUrl: string, size: nat, downloadCount: Option<nat>)

  /** A release object as received, with the `total_downloads` field the
      script writes into it. `assets` is None when the field is absent or null;
      a missing `prerelease` reads as false. */
  datatype Release = Release(
    name: string,
    tagName: string,
    htmlUrl: string,
    prerelease: bool,
    assets: Option<seq<Asset>>,
    totalDownloads: nat)

  /** JavaScript truthiness of `element.download_count`: present, not null, not 0. */
  predicate CountIsTruthy(a: Asset) {
    a.downloadCount.Some? && a.downloadCount.value != 0
  }

  /** What one asset adds to its release's total. */
  function Contribution(a: Asset): nat {
    if CountIsTruthy(a) then a.downloadCount.value else 0
  }

  /** The running total after visiting `s` from left to right, as forEach does. */
  function SumContributions(s: seq<Asset>): nat {
    if s == [] then 0 else SumContributions(s[..|s| - 1]) + Contribution(s[|s| - 1])
  }

  /** The value total_downloads ends up with for a release whose assets field
      is `assets`: the sum of the known counts, and 0 without assets. */
  function AssetTotal(assets: Option<seq<Asset>>): (t: nat)
    ensures assets.None? || assets == Some([]) ==> t == 0
    ensures assets.Some? ==> t == Sum(KnownCounts(assets.value))
  {
    match assets
    case None => 0
    case Some(s) => TotalIsSumOfKnownCounts(s); SumContributions(s)
  }

  /** The release after its total has been recomputed; every other field is kept. */
  function Tallied(r: Release): Release {
    r.(totalDownloads := AssetTotal(r.assets))
  }

  /** Every release of a page, tallied, in the server's order. */
  function TallyAll(data: seq<Release>): (out: seq<Release>)
    ensures |out| == |data|
    ensures forall i :: 0 <= i < |data| ==> out[i] == Tallied(data[i])
  {
    if data == [] then [] else TallyAll(data[..|data| - 1]) + [Tallied(data[|data| - 1])]
  }

  // ----- an independent reference: the download counts that are known -----

  /** The download counts the API reports for `s`, in order, skipping missing and null ones. */
  function KnownCounts(s: seq<Asset>): seq<nat> {
    if s == [] then []
    else (if s[0].downloadCount.Some? then [s[0].downloadCount.value] else []) + KnownCounts(s[1..])
  }

  function Sum(xs: seq<nat>): nat {
    if xs == [] then 0 else xs[0] + Sum(xs[1..])
  }

  lemma {:induction false} SumAppend(xs: seq<nat>, ys: seq<nat>)
    ensures Sum(xs + ys) == Sum(xs) + Sum(ys)
  {
    if xs != [] {
      assert (xs + ys)[1..] == xs[1..] + ys;
      SumAppend(xs[1..], ys);
    } else {
      assert xs + ys == ys;
    }
  }

  /** Totals of consecutive asset lists add up. */
  lemma {:induction false} SumContributionsAppend(a: seq<Asset>, b: seq<Asset>)
    ensures SumContributions(a + b) == SumContributions(a) + SumContributions(b)
    decreases |b|
  {
    if b != [] {
      assert (a + b)[..|a + b| - 1] == a + b[..|b| - 1];
      SumContributionsAppend(a, b[..|b| - 1]);
    } else {
      assert a + b == a;
    }
  }

  /** The total of a release is exactly the sum of its known per-asset counts;
      a missing or null count adds nothing, and a count of 0 adds 0. */
  lemma {:induction false} TotalIsSumOfKnownCounts(s: seq<Asset>)
    ensures SumContributions(s) == Sum(KnownCounts(s))
  {
    if s != [] {
      TotalIsSumOfKnownCounts(s[1..]);
      SumContributionsAppend([s[0]], s[1..]);
      assert [s[0]] + s[1..] == s;
      assert [s[0]][..0] == [];
      var head := if s[0].downloadCount.Some? then [s[0].downloadCount.value] else [];
      SumAppend(head, KnownCounts(s[1..]));
    }
  }

  /** An asset without a truthy count (missing, null or 0), inserted anywhere,
      leaves the total unchanged. */
  lemma IgnoredAssetAddsNothing(s: seq<Asset>, i: nat, a: Asset)
    requires i <= |s|
    requires !CountIsTruthy(a)
    ensures SumContributions(s[..i] + [a] + s[i..]) == SumContributions(s)
  {
    SumContributionsAppend(s[..i] + [a], s[i..]);
    SumContributionsAppend(s[..i], [a]);
    assert [a][..0] == [];
    SumContributionsAppend(s[..i], s[i..]);
    assert s[..i] + s[i..] == s;
  }

  /** Every known count is bounded by the release total. */
  lemma {:induction false} CountBoundedByTotal(s: seq<Asset>, i: nat)
    requires i < |s| && s[i].downloadCount.Some?
    ensures s[i].downloadCount.value <= SumContributions(s)
  {
    if i < |s| - 1 {
      CountBoundedByTotal(s[..|s| - 1], i);
    }
  }

  // ----- the loops of fetchReleasesData -----

  /** The body of `response.data.forEach` for one release: reset the total to 0,
      then add every truthy asset count in turn. */
  method TallyRelease(r: Release) returns (t: Release)
    ensures t == Tallied(r)
  {
    t := r.(totalDownloads := 0);
    if r.assets.Some? {
      var assets := r.assets.value;
      var i := 0;
      while i < |assets|
        invariant 0 <= i <= |assets|
        invariant t == r.(totalDownloads := SumContributions(assets[..i]))
      {
        var element := assets[i];
        if element.downloadCount.Some? && element.downloadCount.value != 0 {
          t := t.(totalDownloads := t.totalDownloads + element.downloadCount.value);
        }
        assert assets[..i + 1][..i] == assets[..i];
        i := i + 1;
      }
      assert assets[..|assets|] == assets;
    }
  }

  /** `response.data.forEach(...)` with `releases.push`: tallies each release of
      the page and appends it to the releases collected so far. */
  method TallyPage(releases: seq<Release>, data: seq<Release>) returns (out: seq<Release>)
    ensures out == releases + TallyAll(data)
  {
    out := releases;
    var i := 0;
    while i < |data|
      invariant 0 <= i <= |data|
      invariant out == releases + TallyAll(data[..i])
    {
      var t := TallyRelease(data[i]);
      assert data[..i + 1][..i] == data[..i];
      out := out + [t];
      i := i + 1;
    }
    assert data[..|data|] == data;
  }
}
