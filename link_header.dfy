// The two tests fetchReleasesData applies to a response's Link header
// (the link relation format of RFC 8288, section 3): whether it announces a
// next page, and the URL of that page.

module LinkHeader {
  import opened Releases

  /** The literal searched for with `includes`, compared exactly. */
  const NextRelation: string := "rel=\"next\""

  /** The lookahead of the next-page pattern; the pattern carries the `i` flag,
      so it is compared ignoring case. */
  const NextMarker: string := ">; rel=\"next\""

  // ----- String.prototype.includes -----

  /** `t` occurs in `s` starting at index `i`. */
  predicate OccursAt(s: string, t: string, i: int) {
    0 <= i && i + |t| <= |s| && s[i..i + |t|] == t
  }

  function ContainsFrom(s: string, t: string, i: nat): bool
    decreases |s| - i
  {
    if i + |t| > |s| then false
    else if s[i..i + |t|] == t then true
    else ContainsFrom(s, t, i + 1)
  }

  /** `s.includes(t)`. */
  function Contains(s: string, t: string): bool {
    ContainsFrom(s, t, 0)
  }

  /** The search from i succeeds exactly when `t` occurs at or after i. */
  lemma {:induction false} ContainsFromMeaning(s: string, t: string, i: nat)
    ensures ContainsFrom(s, t, i) <==> exists j :: i <= j && OccursAt(s, t, j)
    decreases |s| - i
  {
    if i + |t| > |s| {
    } else if s[i..i + |t|] == t {
      assert OccursAt(s, t, i);
    } else {
      ContainsFromMeaning(s, t, i + 1);
      assert !OccursAt(s, t, i);
    }
  }

  /** `includes` holds exactly when the literal occurs somewhere, case respected. */
  lemma ContainsMeaning(s: string, t: string)
    ensures Contains(s, t) <==> exists j :: OccursAt(s, t, j)
  {
    ContainsFromMeaning(s, t, 0);
  }

  /** `linkHeader.includes('rel="next"')`: case-sensitive. */
  predicate AnnouncesNext(h: string) {
    Contains(h, NextRelation)
  }

  // ----- the pattern /(?<=<)([\S]*)(?=>; rel="Next")/i -----

  /** Membership in `\s`: the ECMAScript WhiteSpace and LineTerminator code points. */
  predicate IsSpace(c: char) {
    c == '\t' || c == '\n' || c == '\U{000B}' || c == '\U{000C}' || c == '\r' || c == ' '
    || c == '\U{00A0}' || c == '\U{1680}' || ('\U{2000}' <= c <= '\U{200A}')
    || c == '\U{2028}' || c == '\U{2029}' || c == '\U{202F}' || c == '\U{205F}'
    || c == '\U{3000}' || c == '\U{FEFF}'
  }

  /** Case folding of a non-unicode `i` pattern for the characters of NextMarker,
      which are all ASCII: the canonical form of an ASCII character is its ASCII
      upper case, and no other character has an ASCII canonical form. */
  function AsciiUpper(c: char): char {
    if 'a' <= c <= 'z' then (c as int - 32) as char else c
  }

  /** Characters equal under the case folding of the pattern. */
  predicate SameIgnoringCase(c: char, d: char) {
    AsciiUpper(c) == AsciiUpper(d)
  }

  /** The lookahead `(?=>; rel="Next")` holds at index q. */
  predicate LookaheadAt(h: string, q: int) {
    0 <= q && q + |NextMarker| <= |h|
    && forall k :: 0 <= k < |NextMarker| ==> SameIgnoringCase(h[q + k], NextMarker[k])
  }

  /** The pattern matches `h[p..q]`: `<` just before p, no whitespace in between,
      the marker from q on. */
  predicate MatchAt(h: string, p: int, q: int) {
    1 <= p <= q <= |h| && h[p - 1] == '<'
    && (forall k :: p <= k < q ==> !IsSpace(h[k]))
    && LookaheadAt(h, q)
  }

  /** Where the greedy `[\S]*` started at p stops: the first whitespace at or
      after p, or the end of the header. */
  function RunEnd(h: string, p: nat): (e: nat)
    requires p <= |h|
    ensures p <= e <= |h|
    decreases |h| - p
  {
    if p == |h| || IsSpace(h[p]) then p else RunEnd(h, p + 1)
  }

  /** Backtracking of `[\S]*`: tries the ends q, q - 1, ..., p in turn and keeps
      the first at which the lookahead holds. */
  function Backtrack(h: string, p: nat, q: nat): (e: Option<nat>)
    requires p <= q <= |h|
    ensures e.Some? ==> p <= e.value <= q
    decreases q - p
  {
    if LookaheadAt(h, q) then Some(q)
    else if q == p then None
    else Backtrack(h, p, q - 1)
  }

  /** The match the regular expression engine finds when it tries the start
      positions p, p + 1, ..., |h| in turn. */
  function Search(h: string, p: nat): (m: Option<(nat, nat)>)
    requires p <= |h| + 1
    ensures m.Some? ==> p <= m.value.0 <= m.value.1 <= |h|
    decreases |h| + 1 - p
  {
    if p > |h| then None
    else if 1 <= p && h[p - 1] == '<' then
      match Backtrack(h, p, RunEnd(h, p))
      case Some(q) => Some((p, q))
      case None => Search(h, p + 1)
    else Search(h, p + 1)
  }

  /** `linkHeader.match(nextPagePattern)`, reduced to its element 0; None stands
      for the null that makes `[0]` throw. */
  function NextUrl(h: string): Option<string> {
    match Search(h, 0)
    case None => None
    case Some((p, q)) => Some(h[p..q])
  }

  // ----- the search meets the pattern -----

  lemma {:induction false} RunEndMeaning(h: string, p: nat)
    requires p <= |h|
    ensures forall k :: p <= k < RunEnd(h, p) ==> !IsSpace(h[k])
    ensures RunEnd(h, p) < |h| ==> IsSpace(h[RunEnd(h, p)])
    decreases |h| - p
  {
    if p < |h| && !IsSpace(h[p]) {
      RunEndMeaning(h, p + 1);
    }
  }

  lemma {:induction false} BacktrackMeaning(h: string, p: nat, q: nat)
    requires p <= q <= |h|
    ensures Backtrack(h, p, q).Some? ==>
      LookaheadAt(h, Backtrack(h, p, q).value)
      && forall q' :: Backtrack(h, p, q).value < q' <= q ==> !LookaheadAt(h, q')
    ensures Backtrack(h, p, q).None? ==> forall q' :: p <= q' <= q ==> !LookaheadAt(h, q')
    decreases q - p
  {
    if LookaheadAt(h, q) {
      assert Backtrack(h, p, q) == Some(q);
    } else if q == p {
      assert Backtrack(h, p, q) == None;
    } else {
      assert Backtrack(h, p, q) == Backtrack(h, p, q - 1);
      BacktrackMeaning(h, p, q - 1);
    }
  }

  /** From a start just after a `<`, backtracking finds the longest match, or
      none when there is none. */
  lemma MatchFromStart(h: string, p: nat)
    requires 1 <= p <= |h| && h[p - 1] == '<'
    ensures var m := Backtrack(h, p, RunEnd(h, p));
      && (m.Some? ==> MatchAt(h, p, m.value) && forall q' :: m.value < q' ==> !MatchAt(h, p, q'))
      && (m.None? ==> forall q' :: !MatchAt(h, p, q'))
  {
    RunEndMeaning(h, p);
    BacktrackMeaning(h, p, RunEnd(h, p));
  }

  /** When nothing is found from p on, nothing matches from p on. */
  lemma {:induction false} SearchNotFound(h: string, p: nat)
    requires p <= |h| + 1 && Search(h, p).None?
    ensures forall p', q' :: p <= p' ==> !MatchAt(h, p', q')
    decreases |h| + 1 - p
  {
    if p <= |h| {
      if 1 <= p && h[p - 1] == '<' {
        MatchFromStart(h, p);
      }
      SearchNotFound(h, p + 1);
    }
  }

  /** What is found from p on is a match, at the leftmost start and, there, the longest. */
  lemma {:induction false} SearchFound(h: string, p: nat)
    requires p <= |h| + 1 && Search(h, p).Some?
    ensures MatchAt(h, Search(h, p).value.0, Search(h, p).value.1)
    ensures forall p', q' :: p <= p' < Search(h, p).value.0 ==> !MatchAt(h, p', q')
    ensures forall q' :: Search(h, p).value.1 < q' ==> !MatchAt(h, Search(h, p).value.0, q')
    decreases |h| + 1 - p
  {
    if 1 <= p && h[p - 1] == '<' {
      MatchFromStart(h, p);
      if Backtrack(h, p, RunEnd(h, p)).None? {
        SearchFound(h, p + 1);
      }
    } else {
      SearchFound(h, p + 1);
    }
  }

  /** The search returns the leftmost start from p on and, at that start, the
      longest match; it returns None exactly when nothing matches from p on. */
  lemma SearchMeaning(h: string, p: nat)
    requires p <= |h| + 1
    ensures Search(h, p).Some? ==>
      && MatchAt(h, Search(h, p).value.0, Search(h, p).value.1)
      && (forall p', q' :: p <= p' < Search(h, p).value.0 ==> !MatchAt(h, p', q'))
      && (forall q' :: Search(h, p).value.1 < q' ==> !MatchAt(h, Search(h, p).value.0, q'))
    ensures Search(h, p).None? ==> forall p', q' :: p <= p' ==> !MatchAt(h, p', q')
  {
    if Search(h, p).Some? {
      SearchFound(h, p);
    } else {
      SearchNotFound(h, p);
    }
  }

  /** The extracted URL is absent exactly when the pattern matches nowhere.
      Otherwise it is a run without whitespace right after a `<` and right
      before `>; rel="next"` (case ignored), at the leftmost such place, and
      the longest one there. */
  lemma NextUrlMeaning(h: string)
    ensures NextUrl(h).None? <==> forall p, q :: !MatchAt(h, p, q)
    ensures NextUrl(h).Some? ==> exists p, q ::
      && MatchAt(h, p, q) && NextUrl(h).value == h[p..q]
      && (forall p', q' :: p' < p ==> !MatchAt(h, p', q'))
      && (forall q' :: q < q' ==> !MatchAt(h, p, q'))
  {
    SearchMeaning(h, 0);
  }

  // ----- properties of the pattern -----

  /** The first three characters of the marker are not letters, so they match exactly. */
  lemma MarkerPrefix(h: string, q: int)
    requires LookaheadAt(h, q)
    ensures h[q] == '>' && h[q + 1] == ';' && h[q + 2] == ' '
  {
    assert NextMarker[0] == '>' && NextMarker[1] == ';' && NextMarker[2] == ' ';
    assert SameIgnoringCase(h[q], NextMarker[0]);
    assert SameIgnoringCase(h[q + 1], NextMarker[1]);
    assert SameIgnoringCase(h[q + 2], NextMarker[2]);
  }

  /** At a given start the pattern can end in one place only, because the
      marker's third character is a space, which `[\S]*` cannot cross, and
      its first two are not. So greedy and lazy matching find the same URL. */
  lemma MatchEndIsUnique(h: string, p: int, q1: int, q2: int)
    requires MatchAt(h, p, q1) && MatchAt(h, p, q2)
    ensures q1 == q2
  {
    if q1 != q2 {
      var lo, hi := if q1 < q2 then q1 else q2, if q1 < q2 then q2 else q1;
      assert MatchAt(h, p, lo) && MatchAt(h, p, hi);
      MarkerPrefix(h, lo);
      MarkerPrefix(h, hi);
      if hi == lo + 1 {
      } else if hi == lo + 2 {
      }
    }
  }

  /** When the first link of a header is a next link, its URL is the one extracted. */
  lemma FirstLinkIsNext(h: string, p: int, q: int)
    requires MatchAt(h, p, q)
    requires forall k :: 0 <= k < p - 1 ==> h[k] != '<'
    ensures NextUrl(h) == Some(h[p..q])
  {
    NextUrlMeaning(h);
    var u := NextUrl(h).value;
    var p1, q1 :| MatchAt(h, p1, q1) && u == h[p1..q1]
      && (forall p', q' :: p' < p1 ==> !MatchAt(h, p', q'))
      && (forall q' :: q1 < q' ==> !MatchAt(h, p1, q'));
    assert p1 == p;
    MatchEndIsUnique(h, p, q, q1);
  }

  /** A header whose first link is the next link, in GitHub's format
      `<url>; rel="next", ...`, announces a next page and yields its URL. */
  lemma NextLinkFirst(u: string, rest: string)
    requires forall k :: 0 <= k < |u| ==> !IsSpace(u[k])
    ensures AnnouncesNext("<" + u + NextMarker + rest)
    ensures NextUrl("<" + u + NextMarker + rest) == Some(u)
  {
    var h := "<" + u + NextMarker + rest;
    var q := 1 + |u|;
    assert h[q..q + |NextMarker|] == NextMarker;
    assert forall k :: 0 <= k < |NextMarker| ==> h[q + k] == NextMarker[k];
    assert h[q + 3..q + 3 + |NextRelation|] == NextMarker[3..];
    assert NextMarker[3..] == NextRelation;
    assert OccursAt(h, NextRelation, q + 3);
    ContainsMeaning(h, NextRelation);
    assert h[1..q] == u;
    assert MatchAt(h, 1, q);
    FirstLinkIsNext(h, 1, q);
  }

  /** The marker needs a space after `>;`: a header without any space yields
      no URL, whatever relations it names. */
  lemma NoSpaceNoUrl(h: string)
    requires forall k :: 0 <= k < |h| ==> h[k] != ' '
    ensures NextUrl(h).None?
  {
    NextUrlMeaning(h);
    forall p, q | MatchAt(h, p, q) ensures false {
      MarkerPrefix(h, q);
    }
  }
}
