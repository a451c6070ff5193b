// The page walk of fetchReleasesData: request a page, tally and collect its
// releases, and follow the Link header's next link until there is none.
// Any failure turns the whole result into `undefined`.

module Pagination {
  import opened Releases
  import opened LinkHeader

  /** The part of an axios response the loop reads: `response.data` (None when
      it is absent or null) and `response.headers.link` (None when absent). */
  datatype Response = Response(data: Option<seq<Release>>, link: Option<string>)

  /** What `axios.get(url)` settles to: a response, or a rejection, with the HTTP
      status when the server answered (404 included) and None when it did not. */
  datatype Reply = Received(response: Response) | Rejected(status: Option<int>)

  /** The GitHub API as a finite table of pages; a URL it does not hold is answered with 404. */
  type Server = map<string, Reply>

  function Get(server: Server, url: string): Reply {
    if url in server then server[url] else Rejected(Some(404))
  }

  /** `linkHeader && linkHeader.includes('rel="next"')`. */
  predicate WantsNextPage(r: Response) {
    r.link.Some? && AnnouncesNext(r.link.value)
  }

  /** What the loop body does with one reply. */
  datatype Step =
    | Fails                  // `response.data` or `.match(...)[0]` throws
    | Stops                  // no next page announced: the loop ends
    | Continues(next: string)

  function StepOf(reply: Reply): Step {
    match reply
    case Rejected(_) =>
      // the .catch handler returns undefined for every error, 404 or not
      Fails
    case Received(r) =>
      if !WantsNextPage(r) then Stops
      else
        match NextUrl(r.link.value)
        case None => Fails
        case Some(next) => Continues(next)
  }

  /** The releases a reply contributes: its data, tallied, or nothing. */
  function ReplyReleases(reply: Reply): seq<Release> {
    if reply.Received? && reply.response.data.Some? then TallyAll(reply.response.data.value) else []
  }

  /** The chain of next links starting at `url` stops, one way or the other,
      within `fuel` further requests. */
  predicate EndsWithin(server: Server, url: string, fuel: nat)
    decreases fuel
  {
    match StepOf(Get(server, url))
    case Continues(next) => fuel > 0 && EndsWithin(server, next, fuel - 1)
    case _ => true
  }

  function Prepend(acc: seq<Release>, rest: Option<seq<Release>>): Option<seq<Release>> {
    match rest
    case None => None
    case Some(rs) => Some(acc + rs)
  }

  /** The value fetchReleasesData resolves to when its first request is `url`;
      None is `undefined`. */
  function Walk(server: Server, url: string, fuel: nat): Option<seq<Release>>
    requires EndsWithin(server, url, fuel)
    decreases fuel
  {
    var reply := Get(server, url);
    match StepOf(reply)
    case Fails => None
    case Stops => Some(ReplyReleases(reply))
    case Continues(next) => Prepend(ReplyReleases(reply), Walk(server, next, fuel - 1))
  }

  /** The URLs the loop requests, in order. */
  function Requests(server: Server, url: string, fuel: nat): (urls: seq<string>)
    requires EndsWithin(server, url, fuel)
    ensures 1 <= |urls| <= fuel + 1 && urls[0] == url
    decreases fuel
  {
    match StepOf(Get(server, url))
    case Continues(next) => [url] + Requests(server, next, fuel - 1)
    case _ => [url]
  }

  /** The releases of the given pages, concatenated in the given order. */
  function Collected(server: Server, urls: seq<string>): seq<Release> {
    if urls == [] then [] else ReplyReleases(Get(server, urls[0])) + Collected(server, urls[1..])
  }

  // ----- the walk, characterised by its requests -----

  /** Each request but the last is followed by the next link of its response,
      and the last one either stops or fails: another request is issued exactly
      when the request succeeded, its link header contains `rel="next"` and the
      pattern extracts a URL from it, and that URL is the one requested next. */
  lemma {:induction false} RequestsFollowNextLinks(server: Server, url: string, fuel: nat)
    requires EndsWithin(server, url, fuel)
    ensures var urls := Requests(server, url, fuel);
      forall i :: 0 <= i < |urls| - 1 ==>
        && Get(server, urls[i]).Received?
        && WantsNextPage(Get(server, urls[i]).response)
        && NextUrl(Get(server, urls[i]).response.link.value) == Some(urls[i + 1])
    ensures var urls := Requests(server, url, fuel); var last := Get(server, urls[|urls| - 1]);
      || last.Rejected?
      || !WantsNextPage(last.response)
      || NextUrl(last.response.link.value).None?
    decreases fuel
  {
    match StepOf(Get(server, url))
    case Continues(next) =>
      RequestsFollowNextLinks(server, next, fuel - 1);
    case _ =>
  }

  /** All or nothing: the call yields a list exactly when its last request
      stops the loop cleanly, and that list is the releases of every requested
      page, in request order and in the server's order within each page. */
  lemma {:induction false} WalkIsAllOrNothing(server: Server, url: string, fuel: nat)
    requires EndsWithin(server, url, fuel)
    ensures var urls := Requests(server, url, fuel);
      && (Walk(server, url, fuel).Some? <==> StepOf(Get(server, urls[|urls| - 1])) == Stops)
      && (Walk(server, url, fuel).Some? ==> Walk(server, url, fuel).value == Collected(server, urls))
    decreases fuel
  {
    var reply := Get(server, url);
    match StepOf(reply)
    case Continues(next) =>
      WalkIsAllOrNothing(server, next, fuel - 1);
      var rest := Requests(server, next, fuel - 1);
      assert Requests(server, url, fuel) == [url] + rest;
      assert ([url] + rest)[1..] == rest;
    case Fails =>
    case Stops =>
      assert Collected(server, [url]) == ReplyReleases(reply) + Collected(server, []);
  }

  /** One failed request anywhere in the chain, a 404 included, discards
      everything collected before it. */
  lemma FailureDiscardsEverything(server: Server, url: string, fuel: nat, i: nat)
    requires EndsWithin(server, url, fuel)
    requires i < |Requests(server, url, fuel)|
    requires Get(server, Requests(server, url, fuel)[i]).Rejected?
    ensures Walk(server, url, fuel).None?
  {
    RequestsFollowNextLinks(server, url, fuel);
    WalkIsAllOrNothing(server, url, fuel);
  }

  /** A response that announces `rel="next"` without a URL the pattern can
      extract makes the whole call undefined. */
  lemma UnreadableNextLinkDiscardsEverything(server: Server, url: string, fuel: nat, i: nat)
    requires EndsWithin(server, url, fuel)
    requires i < |Requests(server, url, fuel)|
    requires Get(server, Requests(server, url, fuel)[i]).Received?
    requires WantsNextPage(Get(server, Requests(server, url, fuel)[i]).response)
    requires NextUrl(Get(server, Requests(server, url, fuel)[i]).response.link.value).None?
    ensures Walk(server, url, fuel).None?
  {
    RequestsFollowNextLinks(server, url, fuel);
    WalkIsAllOrNothing(server, url, fuel);
  }

  /** More fuel does not change whether the chain ends. */
  lemma {:induction false} EndsWithinMonotone(server: Server, url: string, fuel: nat, more: nat)
    requires EndsWithin(server, url, fuel) && fuel <= more
    ensures EndsWithin(server, url, more)
    decreases fuel
  {
    match StepOf(Get(server, url))
    case Continues(next) =>
      EndsWithinMonotone(server, next, fuel - 1, more - 1);
    case _ =>
  }

  /** The bound is only a proof device: any bound under which the chain ends
      gives the same result and the same requests. */
  lemma {:induction false} FuelIsIrrelevant(server: Server, url: string, f1: nat, f2: nat)
    requires EndsWithin(server, url, f1) && EndsWithin(server, url, f2)
    ensures Walk(server, url, f1) == Walk(server, url, f2)
    ensures Requests(server, url, f1) == Requests(server, url, f2)
    decreases f1
  {
    match StepOf(Get(server, url))
    case Continues(next) =>
      FuelIsIrrelevant(server, next, f1 - 1, f2 - 1);
    case _ =>
  }

  /** The number of releases collected is the number the pages hold. */
  function PageSize(reply: Reply): nat {
    if reply.Received? && reply.response.data.Some? then |reply.response.data.value| else 0
  }

  function TotalPageSize(server: Server, urls: seq<string>): nat {
    if urls == [] then 0 else PageSize(Get(server, urls[0])) + TotalPageSize(server, urls[1..])
  }

  lemma {:induction false} CollectedLength(server: Server, urls: seq<string>)
    ensures |Collected(server, urls)| == TotalPageSize(server, urls)
  {
    if urls != [] {
      CollectedLength(server, urls[1..]);
    }
  }

  // ----- fetchReleasesData -----

  /** `${n}` for a natural number. */
  function Decimal(n: nat): string {
    if n < 10 then [Digit(n)] else Decimal(n / 10) + [Digit(n % 10)]
  }

  function FirstUrl(owner: string, repo: string, perPage: nat): string {
    "https://api.github.com/repos/" + owner + "/" + repo + "/releases?per_page=" + Decimal(perPage)
  }

  /** The character of a decimal digit. */
  function Digit(d: nat): char
    requires d < 10
  {
    ('0' as int + d) as char
  }

  /** The number a string of decimal digits denotes. */
  function ValueOf(s: string): nat {
    if s == [] then 0 else ValueOf(s[..|s| - 1]) * 10 + DigitValue(s[|s| - 1])
  }

  function DigitValue(c: char): nat {
    if '0' <= c <= '9' then c as int - '0' as int else 0
  }

  /** `${n}` is a non-empty string of decimal digits, without a leading zero
      unless n is 0, that denotes n. */
  lemma {:induction false} DecimalMeaning(n: nat)
    ensures |Decimal(n)| >= 1
    ensures forall k :: 0 <= k < |Decimal(n)| ==> '0' <= Decimal(n)[k] <= '9'
    ensures Decimal(n)[0] == '0' <==> n == 0
    ensures ValueOf(Decimal(n)) == n
  {
    if n >= 10 {
      DecimalMeaning(n / 10);
      var d := Decimal(n / 10) + [Digit(n % 10)];
      assert d[..|d| - 1] == Decimal(n / 10);
    }
  }

  /** The page generateSummary asks for first. */
  lemma FirstUrlAt50(owner: string, repo: string)
    ensures FirstUrl(owner, repo, 50) == "https://api.github.com/repos/" + owner + "/" + repo + "/releases?per_page=50"
  {
  }

  /** One step of the walk, unfolded, for each way the loop body can end. */
  lemma WalkFails(server: Server, url: string, fuel: nat)
    requires EndsWithin(server, url, fuel) && StepOf(Get(server, url)) == Fails
    ensures Walk(server, url, fuel) == None && Requests(server, url, fuel) == [url]
  {
  }

  lemma WalkStops(server: Server, url: string, fuel: nat)
    requires EndsWithin(server, url, fuel) && StepOf(Get(server, url)) == Stops
    ensures Walk(server, url, fuel) == Some(ReplyReleases(Get(server, url)))
    ensures Requests(server, url, fuel) == [url]
  {
  }

  lemma WalkContinues(server: Server, url: string, fuel: nat, next: string)
    requires EndsWithin(server, url, fuel) && StepOf(Get(server, url)) == Continues(next)
    ensures fuel > 0 && EndsWithin(server, next, fuel - 1)
    ensures Walk(server, url, fuel) == Prepend(ReplyReleases(Get(server, url)), Walk(server, next, fuel - 1))
    ensures Requests(server, url, fuel) == [url] + Requests(server, next, fuel - 1)
  {
  }

  /** Kept as a lemma so that the proof of FetchReleasesData stays small. */
  lemma AppendAssociates<T>(a: seq<T>, b: seq<T>, c: seq<T>)
    ensures a + (b + c) == (a + b) + c
  {
  }

  lemma PrependTwice(a: seq<Release>, b: seq<Release>, rest: Option<seq<Release>>)
    ensures Prepend(a, Prepend(b, rest)) == Prepend(a + b, rest)
  {
    if rest.Some? {
      assert a + (b + rest.value) == (a + b) + rest.value;
    }
  }

  /** fetchReleasesData(repoOwner, repoName, perPage). `fuel` bounds the length
      of the next-link chain; the code itself has no such bound. */
  method FetchReleasesData(server: Server, owner: string, repo: string, perPage: nat, ghost fuel: nat)
    returns (result: Option<seq<Release>>, ghost requested: seq<string>)
    requires EndsWithin(server, FirstUrl(owner, repo, perPage), fuel)
    ensures result == Walk(server, FirstUrl(owner, repo, perPage), fuel)
    ensures requested == Requests(server, FirstUrl(owner, repo, perPage), fuel)
  {
    var releases: seq<Release> := [];
    var nextPageUrl := FirstUrl(owner, repo, perPage);
    var getNextPage := true;
    ghost var f := fuel;
    ghost var whole := Walk(server, nextPageUrl, fuel);
    ghost var chain := Requests(server, nextPageUrl, fuel);
    requested := [];
    assert whole == Prepend(releases, whole) by {
      if whole.Some? { assert releases + whole.value == whole.value; }
    }
    while getNextPage
      invariant getNextPage ==> EndsWithin(server, nextPageUrl, f)
      invariant getNextPage ==> whole == Prepend(releases, Walk(server, nextPageUrl, f))
      invariant getNextPage ==> chain == requested + Requests(server, nextPageUrl, f)
      invariant !getNextPage ==> whole == Some(releases) && chain == requested
      decreases if getNextPage then f + 1 else 0
    {
      ghost var before, url, sent := releases, nextPageUrl, requested;
      requested := requested + [nextPageUrl];
      var reply := Get(server, nextPageUrl);
      if reply.Rejected? {
        // response is undefined, so response.data throws
        assert whole == None && chain == requested by { WalkFails(server, url, f); }
        return None, requested;
      }
      var response := reply.response;
      if response.data.Some? {
        releases := TallyPage(releases, response.data.value);
      }
      assert releases == before + ReplyReleases(reply);
      getNextPage := response.link.Some? && Contains(response.link.value, NextRelation);
      assert getNextPage == WantsNextPage(response);
      if getNextPage {
        var next := NextUrl(response.link.value);
        if next.None? {
          // linkHeader.match(...) is null, so [0] throws
          assert whole == None && chain == requested by { WalkFails(server, url, f); }
          return None, requested;
        }
        nextPageUrl := next.value;
        f := f - 1;
        assert EndsWithin(server, nextPageUrl, f)
          && whole == Prepend(releases, Walk(server, nextPageUrl, f))
          && chain == requested + Requests(server, nextPageUrl, f) by {
          WalkContinues(server, url, f + 1, nextPageUrl);
          PrependTwice(before, ReplyReleases(reply), Walk(server, nextPageUrl, f));
          AppendAssociates(sent, [url], Requests(server, nextPageUrl, f));
        }
      } else {
        assert whole == Some(releases) && chain == requested by {
          WalkStops(server, url, f);
          assert releases + [] == releases;
        }
      }
    }
    result := Some(releases);
  }
}
