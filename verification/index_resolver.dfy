/** The index resolver: the rule links read off the index page, one per
    anchor whose text mentions a rule, in document order. */
module IndexResolver {
  import opened Optional
  import opened Text
  import opened Pattern
  import opened Urls
  import opened Html

  /** What one element adds to `rule_links`: the detail-page URL of the
      first rule its text mentions, if it is an anchor with an `href`. */
  function LinksOf(e: Element): seq<string> {
    if IsLinkAnchor(e) then
      match Search(e.text)
      case Some(n) => [IndexUrl(n)]
      case None => []
    else
      []
  }

  /** `link` is the detail-page URL of a rule number, and reading the
      number back out of it gives that number. */
  ghost predicate IsRuleLink(link: string) {
    match SecondToLastSegment(link)
    case Some(n) => IsRuleNumber(n) && link == IndexUrl(n)
    case None => false
  }

  /** `rule_links` once the loop over the index page's anchors is done. */
  function RuleLinks(page: seq<Element>): (links: seq<string>)
    ensures |links| <= |page|
    ensures forall k | 0 <= k < |links| :: IsRuleLink(links[k])
    decreases |page|
  {
    if page == [] then
      []
    else
      LinksOfAreRuleLinks(page[0]);
      LinksOf(page[0]) + RuleLinks(page[1..])
  }

  lemma LinksOfAreRuleLinks(e: Element)
    ensures forall k | 0 <= k < |LinksOf(e)| :: IsRuleLink(LinksOf(e)[k])
  {
    if LinksOf(e) != [] {
      var n := Search(e.text).value;
      RuleNumberHasNoSlash(n);
      IndexUrlRoundTrip(n);
    }
  }

  /** The links of two stretches of a page are the links of the first
      followed by those of the second: document order is kept and nothing
      is deduplicated. */
  lemma {:induction false} RuleLinksAppend(a: seq<Element>, b: seq<Element>)
    ensures RuleLinks(a + b) == RuleLinks(a) + RuleLinks(b)
    decreases |a|
  {
    if a == [] {
      assert a + b == b;
    } else {
      assert (a + b)[0] == a[0];
      assert (a + b)[1..] == a[1..] + b;
      RuleLinksAppend(a[1..], b);
    }
  }

  /** A single element yields the link of rule `n` exactly when it is an
      anchor with an `href` and the leftmost match of the index pattern in
      its text has group `n`. */
  lemma AnchorLink(e: Element, n: string)
    ensures RuleLinks([e]) == [IndexUrl(n)] <==>
            IsLinkAnchor(e) && exists p: nat | p <= |e.text| :: MentionedAt(e.text, p, n) && NoMentionBefore(e.text, p)
  {
    assert [e][1..] == [];
    assert RuleLinks([e]) == LinksOf(e);
    SearchLeftmost(e.text, n);
    if RuleLinks([e]) == [IndexUrl(n)] {
      IndexUrlInjective(Search(e.text).value, n);
    }
  }

  /** A single element yields no link exactly when it is not an anchor with
      an `href` or the index pattern matches nowhere in its text; otherwise
      it yields exactly one. */
  lemma AnchorNoLink(e: Element)
    ensures |RuleLinks([e])| <= 1
    ensures RuleLinks([e]) == [] <==> !IsLinkAnchor(e) || NoMentionBefore(e.text, |e.text| + 1)
  {
    assert [e][1..] == [];
    assert RuleLinks([e]) == LinksOf(e);
    SearchNone(e.text);
  }

  /** The index page yields no rule links exactly when none of its
      elements is an anchor with an `href` whose text matches the index
      pattern: the case the scraper reports as an error document. */
  lemma {:induction false} NoRuleLinks(page: seq<Element>)
    ensures RuleLinks(page) == [] <==>
            forall k | 0 <= k < |page| :: !IsLinkAnchor(page[k]) || NoMentionBefore(page[k].text, |page[k].text| + 1)
    decreases |page|
  {
    if page != [] {
      var e := page[0];
      NoRuleLinks(page[1..]);
      assert page == [e] + page[1..];
      RuleLinksAppend([e], page[1..]);
      AnchorNoLink(e);
      forall k | 1 <= k < |page| ensures page[k] == page[1..][k - 1] { }
    }
  }
}
