/** The driver, `scrape_fire_code_rules`: the rule links read off the index
    page, then each rule page visited in turn, the pages' outputs
    concatenated into one markdown document in the order of the links. */
module Scraper {
  import opened Optional
  import opened Pattern
  import opened Urls
  import opened Html
  import opened IndexResolver
  import opened RulePageExtractor

  /** The whole document when the index page yields no rule links. */
  const NoLinksDocument: string := "# Error: No rule links found on index page.\n"

  /** The browser session: what it hands over when the `k`-th rule page of
      the run is requested at `url`. */
  type Browser = (nat, string) -> PageSource

  // ---------------------------------------------------------------------
  // The document as a function of the index page and the browser
  // ---------------------------------------------------------------------

  /** The strings of `parts`, one after another. */
  function Concat(parts: seq<string>): string
    decreases |parts|
  {
    if parts == [] then "" else Concat(parts[..|parts| - 1]) + parts[|parts| - 1]
  }

  lemma {:induction false} ConcatAppend(a: seq<string>, b: seq<string>)
    ensures Concat(a + b) == Concat(a) + Concat(b)
    decreases |b|
  {
    if b == [] {
      assert a + b == a;
    } else {
      var c := a + b;
      assert c[..|c| - 1] == a + b[..|b| - 1];
      ConcatAppend(a, b[..|b| - 1]);
    }
  }

  /** What the visit to each rule link contributes, in visiting order. */
  function PageOutputs(links: seq<string>, browser: Browser): seq<string> {
    seq(|links|, k requires 0 <= k < |links| => Render(Extract(links[k], browser(k, links[k]))))
  }

  /** What one more index element adds to the rule links. */
  lemma LinkStep(index: seq<Element>, i: nat)
    requires i < |index|
    ensures RuleLinks(index[..i + 1]) == RuleLinks(index[..i]) + LinksOf(index[i])
  {
    var e := index[i];
    assert index[..i + 1] == index[..i] + [e];
    RuleLinksAppend(index[..i], [e]);
    assert [e][1..] == [];
    assert RuleLinks([e]) == LinksOf(e) + RuleLinks([]);
  }

  /** The document so far grows by one page's output per visit. */
  lemma PageStep(outs: seq<string>, k: nat)
    requires k < |outs|
    ensures Concat(outs[..k + 1]) == Concat(outs[..k]) + outs[k]
  {
    assert outs[..k + 1][..k] == outs[..k];
  }

  // ---------------------------------------------------------------------
  // The driver as the source runs it
  // ---------------------------------------------------------------------

  /** The link-extraction loop of `scrape_fire_code_rules`: one link per
      anchor with an `href` whose text mentions a rule, in document order. */
  method CollectRuleLinks(index: seq<Element>) returns (links: seq<string>)
    ensures links == RuleLinks(index)
  {
    links := [];
    var i := 0;
    while i < |index|
      invariant 0 <= i <= |index|
      invariant links == RuleLinks(index[..i])
    {
      var a := index[i];
      LinkStep(index, i);
      ghost var before := links;
      if IsLinkAnchor(a) {
        var m := Search(a.text);
        if m.Some? {
          links := links + [IndexUrl(m.value)];
        }
      }
      assert links == before + LinksOf(a);
      i := i + 1;
    }
    assert index[..|index|] == index;
  }

  /** The page loop of `scrape_fire_code_rules`: each link visited in turn
      and what its page yields appended to the document. */
  method AssemblePages(links: seq<string>, browser: Browser) returns (document: string)
    ensures document == Concat(PageOutputs(links, browser))
  {
    ghost var outs := PageOutputs(links, browser);
    document := "";
    var k := 0;
    while k < |links|
      invariant 0 <= k <= |links|
      invariant document == Concat(outs[..k])
    {
      var page := ScrapeRulePage(links[k], browser(k, links[k]));
      PageStep(outs, k);
      document := document + page;
      k := k + 1;
    }
    assert outs[..|links|] == outs;
  }

  /** `scrape_fire_code_rules`: the rule links of the index page, the error
      document when there is none, and otherwise the pages' outputs in the
      order of the links. */
  method ScrapeFireCodeRules(index: seq<Element>, browser: Browser)
    returns (document: string, visited: seq<string>)
    ensures visited == RuleLinks(index)
    ensures visited == [] ==> document == NoLinksDocument
    ensures visited != [] ==> document == Concat(PageOutputs(visited, browser))
  {
    visited := CollectRuleLinks(index);
    if visited == [] {
      return NoLinksDocument, visited;
    }
    document := AssemblePages(visited, browser);
  }

  // ---------------------------------------------------------------------
  // Properties of the document
  // ---------------------------------------------------------------------

  /** The document is the pages before the `k`-th, then its output, then
      the pages after it. */
  lemma DocumentAround(outs: seq<string>, k: nat)
    requires k < |outs|
    ensures Concat(outs) == Concat(outs[..k]) + outs[k] + Concat(outs[k + 1..])
  {
    assert Concat(outs) == Concat(outs[..k + 1]) + Concat(outs[k + 1..]) by {
      assert outs[..k + 1] + outs[k + 1..] == outs;
      ConcatAppend(outs[..k + 1], outs[k + 1..]);
    }
    assert Concat(outs[..k + 1]) == Concat(outs[..k]) + outs[k] by {
      PageStep(outs, k);
    }
  }

  /** A fault on one rule page is contained: two runs whose browsers hand
      over the same pages except for the `k`-th visit produce documents
      that agree everywhere but in that page's output. */
  lemma PageFaultIsContained(links: seq<string>, b1: Browser, b2: Browser, k: nat)
    returns (before: string, after: string)
    requires k < |links|
    requires forall j | 0 <= j < |links| && j != k :: b1(j, links[j]) == b2(j, links[j])
    ensures Concat(PageOutputs(links, b1)) == before + Render(Extract(links[k], b1(k, links[k]))) + after
    ensures Concat(PageOutputs(links, b2)) == before + Render(Extract(links[k], b2(k, links[k]))) + after
  {
    var o1, o2 := PageOutputs(links, b1), PageOutputs(links, b2);
    assert o1[..k] == o2[..k];
    assert o1[k + 1..] == o2[k + 1..];
    DocumentAround(o1, k);
    DocumentAround(o2, k);
    before, after := Concat(o1[..k]), Concat(o1[k + 1..]);
  }

  /** Every visited link is the detail-page URL of the rule its anchor
      mentions, and a page reached through it that is processed without a
      fault is titled after that rule. */
  lemma VisitedPageTitle(index: seq<Element>, k: nat, es: seq<Element>) returns (n: string)
    requires k < |RuleLinks(index)|
    ensures IsRuleNumber(n) && RuleLinks(index)[k] == IndexUrl(n)
    ensures Extract(RuleLinks(index)[k], Rendered(es, None))
            == Extracted(RulePage(Title(es, n), IndexUrl(n), Sections(es)))
  {
    var link := RuleLinks(index)[k];
    assert IsRuleLink(link);
    n := SecondToLastSegment(link).value;
    RuleNumberHasNoSlash(n);
    IndexLinkPage(n, es);
  }
}
