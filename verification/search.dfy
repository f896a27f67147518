/** `re.search`: try a pattern at every start position from the left and
    report the first position where it matches, with its group. */
module Search {
  import opened Wrappers
  import opened Text
  import opened Patterns

  datatype Match = Match(start: nat, group: string)

  /** The first start position at or after `i` where `p` matches. */
  function SearchFrom(p: Pattern, s: string, i: nat): (r: Option<Match>)
    requires i <= |s|
    ensures r.Some? ==> i <= r.value.start <= |s| && MatchAt(p, s, r.value.start) == Some(r.value.group)
    ensures forall j :: i <= j <= |s| && (r.None? || j < r.value.start) ==> MatchAt(p, s, j).None?
    decreases |s| - i
  {
    match MatchAt(p, s, i)
    case Some(g) => Some(Match(i, g))
    case None => if i == |s| then None else SearchFrom(p, s, i + 1)
  }

  function Search(p: Pattern, s: string): Option<Match> {
    SearchFrom(p, s, 0)
  }

  /** Group 1 of `re.search(p, s)`, or None when the search fails. */
  function Find(p: Pattern, s: string): Option<string> {
    match Search(p, s)
    case Some(m) => Some(m.group)
    case None => None
  }

  /** `g` is group 1 of a match starting at `i`, and no match starts earlier. */
  ghost predicate IsLeftmostMatch(p: Pattern, s: string, i: nat, g: string) {
    && Matches(p, s, i, g)
    && forall j: nat, h: string :: j < i ==> !Matches(p, s, j, h)
  }

  /** The pattern matches nowhere in `s`. */
  ghost predicate NoMatch(p: Pattern, s: string) {
    forall i: nat, g: string :: !Matches(p, s, i, g)
  }

  /** No match can start past the end of the text. */
  lemma MatchesInText(p: Pattern, s: string, i: nat, g: string)
    requires Matches(p, s, i, g)
    ensures i <= |s|
  {
    if p == SourceVideo {
      var j: nat :| SourceVideoMatchVia(s, i, j, g);
    }
  }

  /** What the search reports is the leftmost match. */
  lemma SearchFindsLeftmost(p: Pattern, s: string, i: nat, g: string)
    requires Search(p, s) == Some(Match(i, g))
    ensures IsLeftmostMatch(p, s, i, g)
  {
    MatchAtSpec(p, s, i, g);
    forall j: nat, h: string | j < i
      ensures !Matches(p, s, j, h)
    {
      MatchAtSpec(p, s, j, h);
    }
  }

  /** Every match is found, at its own position or further left. */
  lemma SearchMissesNothing(p: Pattern, s: string, i: nat, g: string)
    requires Matches(p, s, i, g)
    ensures Search(p, s).Some? && Search(p, s).value.start <= i
  {
    MatchesInText(p, s, i, g);
    MatchAtSpec(p, s, i, g);
  }

  /** The search finds exactly the leftmost match, and fails exactly when
      the pattern matches nowhere. */
  lemma SearchSpec(p: Pattern, s: string)
    ensures forall i: nat, g: string :: Search(p, s) == Some(Match(i, g)) <==> IsLeftmostMatch(p, s, i, g)
    ensures Search(p, s).None? <==> NoMatch(p, s)
  {
    var r := Search(p, s);
    forall j: nat, h: string | Matches(p, s, j, h)
      ensures r.Some? && r.value.start <= j
    {
      SearchMissesNothing(p, s, j, h);
    }
    if r.Some? {
      SearchFindsLeftmost(p, s, r.value.start, r.value.group);
    }
    forall i: nat, g: string | IsLeftmostMatch(p, s, i, g)
      ensures r == Some(Match(i, g))
    {
      MatchesInText(p, s, i, g);
      MatchAtSpec(p, s, i, g);
    }
  }

  /** What the group of each pattern looks like, read off its description. */
  predicate GroupShape(p: Pattern, g: string) {
    match p
    case QuotedIframe => IsIframeUrl(g) && AllAllowed(g, NotDoubleQuote)
    case UnquotedIframe => IsIframeUrl(g) && AllAllowed(g, NotSpaceOrGt)
    case SourceVideo => IsVideoUrl(g) && AllAllowed(g, NotSingleQuote)
    case GenericVideo => IsVideoUrl(g) && AllAllowed(g, NotQuoteOrSpace)
  }

  lemma FindShape(p: Pattern, s: string, g: string)
    requires Find(p, s) == Some(g)
    ensures GroupShape(p, g)
  {
    var m := Search(p, s).value;
    MatchAtSpec(p, s, m.start, g);
    if p == SourceVideo {
      var j: nat :| SourceVideoMatchVia(s, m.start, j, g);
    }
  }

  /** `Find` in the terms of the description: it yields `g` exactly when
      `g` is the group of the leftmost match, and nothing exactly when
      there is no match. */
  lemma FindSpec(p: Pattern, s: string, g: string)
    ensures Find(p, s) == Some(g) <==> exists i: nat :: IsLeftmostMatch(p, s, i, g)
    ensures Find(p, s).None? <==> NoMatch(p, s)
  {
    SearchSpec(p, s);
    if Find(p, s) == Some(g) {
      assert IsLeftmostMatch(p, s, Search(p, s).value.start, g);
    }
  }
}
