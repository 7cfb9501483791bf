/** The rule page extractor: from one rendered rule page, the title, the
    rule sections and their markdown rendering, or a one-line error that
    replaces the whole page when anything faults. */
module RulePageExtractor {
  import opened Optional
  import opened Text
  import opened Pattern
  import opened Urls
  import opened Html

  /** One rule section of a page: its rule number, its URL and its text. */
  datatype Section = Section(number: string, url: string, body: string)

  /** The structured content of one rule page. */
  datatype RulePage = RulePage(title: string, source: string, sections: seq<Section>)

  /** What the extraction of one page comes to: its content, or the URL and
      message of the fault that replaced it. */
  datatype Outcome = Extracted(page: RulePage) | Failed(url: string, message: string)

  /** A fault raised while a page is processed, once the section loop has
      scanned the first `after` elements of the page. */
  datatype Fault = Fault(after: nat, message: string)

  /** What the browser hands over for a rule URL: the rendered page, with
      the fault that will interrupt its processing if there is one, or the
      fault that stopped it from loading the page at all. */
  datatype PageSource =
    | Unreachable(message: string)
    | Rendered(elements: seq<Element>, fault: Option<Fault>)

  /** Python's message for `url.split('/')[-2]` on a URL without a `/`. */
  const IndexErrorMessage: string := "list index out of range"

  // ---------------------------------------------------------------------
  // Sections
  // ---------------------------------------------------------------------

  /** A container's `id`, or `""` when it has none (`get('id', '')`). */
  function IdOf(e: Element): string {
    e.id.GetOr("")
  }

  /** The id of `e` starts with rule number `n`, and `n` is not followed by
      a further digit there. */
  ghost predicate IdStartsWith(e: Element, n: string) {
    IsRuleNumber(n) && n <= IdOf(e) && StopsAt(IdOf(e), |n|, Digit)
  }

  /** The section a `div.section` container contributes: its number is the
      rule number its id starts with, its URL the container's first link or
      else the fallback URL of that number, and its body the stripped text. */
  function SectionOf(e: Element): (r: Option<Section>)
    ensures r.Some? ==> IsSectionDiv(e) && IdStartsWith(e, r.value.number)
                        && r.value.body == Strip(e.text)
                        && r.value.url == e.link.GetOr(FallbackUrl(r.value.number))
  {
    if IsSectionDiv(e) then
      match NumberAt(IdOf(e), 0)
      case Some(n) =>
        assert IdOf(e)[0..] == IdOf(e);
        Some(Section(n, e.link.GetOr(FallbackUrl(n)), Strip(e.text)))
      case None => None
    else
      None
  }

  /** A container contributes a section exactly when it is a `div.section`
      whose id starts with a rule number; containers with any other id
      contribute nothing. */
  lemma SectionOfQualifies(e: Element)
    ensures SectionOf(e).Some? <==> IsSectionDiv(e) && exists n :: IdStartsWith(e, n)
  {
    assert IdOf(e)[0..] == IdOf(e);
    if IsSectionDiv(e) && NumberAt(IdOf(e), 0).None? {
      forall n ensures !IdStartsWith(e, n) {
        NumberAtExact(IdOf(e), 0, n);
      }
    }
  }

  /** The sections of a page, in the order their containers appear. */
  function Sections(es: seq<Element>): (r: seq<Section>)
    ensures |r| <= |es|
    decreases |es|
  {
    if es == [] then
      []
    else
      match SectionOf(es[0])
      case Some(s) => [s] + Sections(es[1..])
      case None => Sections(es[1..])
  }

  /** The sections of two stretches of a page are those of the first
      followed by those of the second. */
  lemma {:induction false} SectionsAppend(a: seq<Element>, b: seq<Element>)
    ensures Sections(a + b) == Sections(a) + Sections(b)
    decreases |a|
  {
    if a == [] {
      assert a + b == b;
    } else {
      assert (a + b)[0] == a[0];
      assert (a + b)[1..] == a[1..] + b;
      SectionsAppend(a[1..], b);
    }
  }

  /** Every section's number is a rule number, so it has no `/`. */
  lemma {:induction false} SectionNumbersAreRuleNumbers(es: seq<Element>)
    ensures forall s | s in Sections(es) :: IsRuleNumber(s.number)
    decreases |es|
  {
    if es != [] {
      SectionNumbersAreRuleNumbers(es[1..]);
    }
  }

  // ---------------------------------------------------------------------
  // Title
  // ---------------------------------------------------------------------

  /** A heading whose text contains the rule number (`rule_number in tag.get_text()`). */
  predicate NamesRule(e: Element, number: string) {
    IsHeading(e) && Contains(e.text, number)
  }

  /** The position of the first heading at or after `i` that names the rule. */
  function TitleIndexFrom(es: seq<Element>, number: string, i: nat): (r: Option<nat>)
    requires i <= |es|
    ensures r.Some? ==> i <= r.value < |es| && NamesRule(es[r.value], number)
    ensures forall j | i <= j < |es| && (r.None? || j < r.value) :: !NamesRule(es[j], number)
    decreases |es| - i
  {
    if i == |es| then None
    else if NamesRule(es[i], number) then Some(i)
    else TitleIndexFrom(es, number, i + 1)
  }

  /** The page title: the stripped text of the first heading that names the
      rule, or the bare rule number when no heading does. */
  function Title(es: seq<Element>, number: string): string {
    match TitleIndexFrom(es, number, 0)
    case Some(k) => Strip(es[k].text)
    case None => number
  }

  /** A heading that contains `number` somewhere in its text. */
  ghost predicate HeadingMentions(e: Element, number: string) {
    IsHeading(e) && exists i: nat :: OccursAt(e.text, number, i)
  }

  /** The title is taken from the first heading, in document order, whose
      text contains the rule number as a substring. */
  lemma TitleFromFirstHeading(es: seq<Element>, number: string, k: nat)
    requires k < |es| && HeadingMentions(es[k], number)
    requires forall j | 0 <= j < k :: !HeadingMentions(es[j], number)
    ensures Title(es, number) == Strip(es[k].text)
  {
    ContainsAt(es[k].text, number);
    forall j | 0 <= j < k ensures !NamesRule(es[j], number) {
      ContainsAt(es[j].text, number);
    }
    TitleIndexIs(es, number, k);
  }

  /** With no heading containing the rule number, the title is the number. */
  lemma TitleFallsBackToNumber(es: seq<Element>, number: string)
    requires forall j | 0 <= j < |es| :: !HeadingMentions(es[j], number)
    ensures Title(es, number) == number
  {
    forall j | 0 <= j < |es| ensures !NamesRule(es[j], number) {
      ContainsAt(es[j].text, number);
    }
    TitleIndexIs(es, number, |es|);
  }

  // ---------------------------------------------------------------------
  // Extraction
  // ---------------------------------------------------------------------

  /** The value `rule_url` holds once the section loop has handled `es`:
      the URL of the last section extracted so far, or the page URL. */
  function ErrorUrl(url: string, es: seq<Element>): (r: string)
  {
    var ss := Sections(es);
    if ss == [] then url else ss[|ss| - 1].url
  }

  /** The error URL is the page URL when no qualifying container has been
      handled, and otherwise the URL of the last qualifying container. */
  lemma ErrorUrlIsLastSection(url: string, es: seq<Element>)
    ensures (forall j | 0 <= j < |es| :: SectionOf(es[j]).None?) ==> ErrorUrl(url, es) == url
    ensures forall k | 0 <= k < |es| && SectionOf(es[k]).Some?
                     && (forall j | k < j < |es| :: SectionOf(es[j]).None?)
              :: ErrorUrl(url, es) == SectionOf(es[k]).value.url
  {
    forall k | 0 <= k < |es| && SectionOf(es[k]).Some? && (forall j | k < j < |es| :: SectionOf(es[j]).None?)
      ensures ErrorUrl(url, es) == SectionOf(es[k]).value.url
    {
      LastSectionUrl(url, es, k);
    }
    if forall j | 0 <= j < |es| :: SectionOf(es[j]).None? {
      NoSections(es);
    }
  }

  lemma LastSectionUrl(url: string, es: seq<Element>, k: nat)
    requires k < |es| && SectionOf(es[k]).Some?
    requires forall j | k < j < |es| :: SectionOf(es[j]).None?
    ensures ErrorUrl(url, es) == SectionOf(es[k]).value.url
  {
    var rest := es[k + 1..];
    assert Sections(rest) == [] by {
      forall j | 0 <= j < |rest| ensures SectionOf(rest[j]).None? {
        assert rest[j] == es[k + 1 + j];
      }
      NoSections(rest);
    }
    assert Sections(es) == Sections(es[..k + 1]) by {
      assert es == es[..k + 1] + rest;
      SectionsAppend(es[..k + 1], rest);
    }
    SectionStep(es, k);
  }

  /** A stretch without qualifying containers has no sections. */
  lemma {:induction false} NoSections(es: seq<Element>)
    requires forall j | 0 <= j < |es| :: SectionOf(es[j]).None?
    ensures Sections(es) == []
    decreases |es|
  {
    if es != [] {
      NoSections(es[1..]);
    }
  }

  /** The extraction of one rule page, in the order the source performs
      its steps: a fault while loading comes first, then the rule number
      read from the URL, then a fault during processing, which reports the
      URL the section loop had reached. */
  function Extract(url: string, src: PageSource): Outcome {
    match src
    case Unreachable(m) => Failed(url, m)
    case Rendered(es, fault) =>
      match SecondToLastSegment(url)
      case None => Failed(url, IndexErrorMessage)
      case Some(number) =>
        match fault
        case Some(f) =>
          var reached := if f.after < |es| then f.after else |es|;
          Failed(ErrorUrl(url, es[..reached]), f.message)
        case None => Extracted(RulePage(Title(es, number), url, Sections(es)))
  }

  // ---------------------------------------------------------------------
  // Rendering
  // ---------------------------------------------------------------------

  function Heading(title: string): string {
    "\n## " + title + "\n\n"
  }

  function SourceLine(url: string): string {
    "**Source:** " + url + "\n\n"
  }

  function SectionBlock(s: Section): string {
    "### " + s.number + "\n\n" + s.body + "\n\n"
  }

  function RenderSections(ss: seq<Section>): string
    decreases |ss|
  {
    if ss == [] then "" else SectionBlock(ss[0]) + RenderSections(ss[1..])
  }

  lemma {:induction false} RenderSectionsAppend(a: seq<Section>, b: seq<Section>)
    ensures RenderSections(a + b) == RenderSections(a) + RenderSections(b)
    decreases |a|
  {
    if a == [] {
      assert a + b == b;
    } else {
      assert (a + b)[0] == a[0];
      assert (a + b)[1..] == a[1..] + b;
      RenderSectionsAppend(a[1..], b);
    }
  }

  /** The line that replaces a page whose processing faulted. */
  function ErrorLine(url: string, message: string): string {
    "Error scraping rule " + url + ": " + message + "\n"
  }

  /** The markdown text of one page's outcome. */
  function Render(o: Outcome): string {
    match o
    case Extracted(p) => Heading(p.title) + SourceLine(p.source) + RenderSections(p.sections)
    case Failed(u, m) => ErrorLine(u, m)
  }

  /** The number of line breaks in `s`. */
  function LineBreaks(s: string): nat
    decreases |s|
  {
    if s == [] then 0 else (if s[0] == '\n' then 1 else 0) + LineBreaks(s[1..])
  }

  lemma {:induction false} LineBreaksAppend(a: string, b: string)
    ensures LineBreaks(a + b) == LineBreaks(a) + LineBreaks(b)
    decreases |a|
  {
    if a == [] {
      assert a + b == b;
    } else {
      assert (a + b)[0] == a[0];
      assert (a + b)[1..] == a[1..] + b;
      LineBreaksAppend(a[1..], b);
    }
  }

  lemma {:induction false} NoLineBreaks(s: string)
    requires '\n' !in s
    ensures LineBreaks(s) == 0
    decreases |s|
  {
    if s != [] {
      assert s[0] in s;
      assert forall c | c in s[1..] :: c in s;
      NoLineBreaks(s[1..]);
    }
  }

  /** A faulted page leaves a single line in the document, whatever it had
      extracted before the fault (when the URL and message are themselves
      single lines). */
  lemma ErrorIsOneLine(url: string, message: string)
    requires '\n' !in url && '\n' !in message
    ensures LineBreaks(ErrorLine(url, message)) == 1
    ensures ErrorLine(url, message)[|ErrorLine(url, message)| - 1] == '\n'
  {
    var prefix := "Error scraping rule " + url + ": " + message;
    assert ErrorLine(url, message) == prefix + "\n";
    assert '\n' !in prefix by {
      assert forall c | c in "Error scraping rule " + url + ": " :: c in url || c in "Error scraping rule : ";
    }
    NoLineBreaks(prefix);
    LineBreaksAppend(prefix, "\n");
  }

  /** A page reached through a link the index resolver built reads back
      the rule number the link was built from, so its title is looked up
      under that number. */
  lemma IndexLinkPage(n: string, es: seq<Element>)
    requires '/' !in n
    ensures Extract(IndexUrl(n), Rendered(es, None))
            == Extracted(RulePage(Title(es, n), IndexUrl(n), Sections(es)))
  {
    IndexUrlRoundTrip(n);
  }

  /** Two pages that differ only in where their sections link to. */
  predicate SameButLinks(a: seq<Element>, b: seq<Element>) {
    |a| == |b| && forall i | 0 <= i < |a| :: a[i].(link := None) == b[i].(link := None)
  }

  /** The URL computed for a section is never written out: a page that is
      processed without a fault renders the same whatever its sections
      link to. Only the error line of a faulted page shows such a URL. */
  lemma OutputIgnoresSectionLinks(url: string, a: seq<Element>, b: seq<Element>)
    requires SameButLinks(a, b)
    ensures Render(Extract(url, Rendered(a, None))) == Render(Extract(url, Rendered(b, None)))
  {
    if SecondToLastSegment(url).Some? {
      var n := SecondToLastSegment(url).value;
      TitleIgnoresLinks(a, b, n, 0);
      SectionTextIgnoresLinks(a, b);
    }
  }

  lemma {:induction false} TitleIgnoresLinks(a: seq<Element>, b: seq<Element>, number: string, i: nat)
    requires SameButLinks(a, b) && i <= |a|
    ensures TitleIndexFrom(a, number, i) == TitleIndexFrom(b, number, i)
    ensures TitleIndexFrom(a, number, i).Some? ==>
              a[TitleIndexFrom(a, number, i).value].text == b[TitleIndexFrom(a, number, i).value].text
    decreases |a| - i
  {
    if i < |a| {
      assert a[i].(link := None).text == a[i].text;
      assert b[i].(link := None).text == b[i].text;
      assert a[i].(link := None).tag == a[i].tag;
      assert b[i].(link := None).tag == b[i].tag;
      TitleIgnoresLinks(a, b, number, i + 1);
    }
  }

  lemma {:induction false} SectionTextIgnoresLinks(a: seq<Element>, b: seq<Element>)
    requires SameButLinks(a, b)
    ensures RenderSections(Sections(a)) == RenderSections(Sections(b))
    decreases |a|
  {
    if a != [] {
      var x, y := a[0], b[0];
      assert x.(link := None) == y.(link := None);
      assert x.tag == x.(link := None).tag && y.tag == y.(link := None).tag;
      assert x.classes == x.(link := None).classes && y.classes == y.(link := None).classes;
      assert x.id == x.(link := None).id && y.id == y.(link := None).id;
      assert x.text == x.(link := None).text && y.text == y.(link := None).text;
      assert SameButLinks(a[1..], b[1..]) by {
        forall i | 0 <= i < |a[1..]| ensures a[1..][i].(link := None) == b[1..][i].(link := None) {
          assert a[1..][i] == a[i + 1];
          assert b[1..][i] == b[i + 1];
        }
      }
      SectionTextIgnoresLinks(a[1..], b[1..]);
      match SectionOf(x)
      case None =>
      case Some(s) =>
        var t := SectionOf(y).value;
        assert s.number == t.number && s.body == t.body;
        assert RenderSections([s] + Sections(a[1..])) == SectionBlock(s) + RenderSections(Sections(a[1..]));
        assert RenderSections([t] + Sections(b[1..])) == SectionBlock(t) + RenderSections(Sections(b[1..]));
    }
  }

  // ---------------------------------------------------------------------
  // The page loop as the source runs it
  // ---------------------------------------------------------------------

  /** The title search of `scrape_rule_page`: the first heading, in
      document order, whose text contains the rule number. */
  method FindTitle(es: seq<Element>, number: string) returns (title: string)
    ensures title == Title(es, number)
  {
    var i := 0;
    while i < |es| && !NamesRule(es[i], number)
      invariant 0 <= i <= |es|
      invariant forall j | 0 <= j < i :: !NamesRule(es[j], number)
    {
      i := i + 1;
    }
    TitleIndexIs(es, number, i);
    if i < |es| {
      title := Strip(es[i].text);
    } else {
      title := number;
    }
  }

  /** The first heading naming the rule is at `i` (or there is none when
      `i` is the end of the page). */
  lemma TitleIndexIs(es: seq<Element>, number: string, i: nat)
    requires i <= |es|
    requires i < |es| ==> NamesRule(es[i], number)
    requires forall j | 0 <= j < i :: !NamesRule(es[j], number)
    ensures TitleIndexFrom(es, number, 0) == if i < |es| then Some(i) else None
  {
  }

  /** What handling element `k` adds to the sections. */
  lemma SectionStep(es: seq<Element>, k: nat)
    requires k < |es|
    ensures SectionOf(es[k]).None? ==> Sections(es[..k + 1]) == Sections(es[..k])
    ensures SectionOf(es[k]).Some? ==> Sections(es[..k + 1]) == Sections(es[..k]) + [SectionOf(es[k]).value]
  {
    var e := es[k];
    assert Sections(es[..k + 1]) == Sections(es[..k]) + Sections([e]) by {
      assert es[..k + 1] == es[..k] + [e];
      SectionsAppend(es[..k], [e]);
    }
    assert [e][1..] == [];
  }

  /** Rendering one more section appends its block. */
  lemma RenderOneMore(ss: seq<Section>, s: Section)
    ensures RenderSections(ss + [s]) == RenderSections(ss) + SectionBlock(s)
  {
    RenderSectionsAppend(ss, [s]);
    assert RenderSections([s]) == SectionBlock(s) + RenderSections([s][1..]);
  }

  /** What handling element `k` does to the error URL. */
  lemma ErrorUrlStep(url: string, es: seq<Element>, k: nat)
    requires k < |es|
    ensures SectionOf(es[k]).None? ==> ErrorUrl(url, es[..k + 1]) == ErrorUrl(url, es[..k])
    ensures SectionOf(es[k]).Some? ==> ErrorUrl(url, es[..k + 1]) == SectionOf(es[k]).value.url
  {
    SectionStep(es, k);
  }

  /** The steps the section loop takes on one element give its section. */
  lemma SectionOfSteps(e: Element)
    ensures !(IsSectionDiv(e) && NumberAt(IdOf(e), 0).Some?) ==> SectionOf(e).None?
    ensures IsSectionDiv(e) && NumberAt(IdOf(e), 0).Some? ==>
              var n := NumberAt(IdOf(e), 0).value;
              SectionOf(e) == Some(Section(n, e.link.GetOr(FallbackUrl(n)), Strip(e.text)))
  {
  }

  /** A turn of the section loop on an element that does not qualify
      changes neither the output nor `rule_url`. */
  lemma TurnSkips(url: string, es: seq<Element>, k: nat)
    requires k < |es|
    requires !(IsSectionDiv(es[k]) && NumberAt(IdOf(es[k]), 0).Some?)
    ensures RenderSections(Sections(es[..k + 1])) == RenderSections(Sections(es[..k]))
    ensures ErrorUrl(url, es[..k + 1]) == ErrorUrl(url, es[..k])
  {
    SectionStep(es, k);
    ErrorUrlStep(url, es, k);
    SectionOfSteps(es[k]);
  }

  /** A turn of the section loop on a qualifying element adds its heading
      and its stripped text, and makes its URL the new `rule_url`. */
  lemma TurnAppends(url: string, es: seq<Element>, k: nat, n: string)
    requires k < |es|
    requires IsSectionDiv(es[k]) && NumberAt(IdOf(es[k]), 0) == Some(n)
    ensures RenderSections(Sections(es[..k + 1]))
            == RenderSections(Sections(es[..k])) + ("### " + n + "\n\n") + (Strip(es[k].text) + "\n\n")
    ensures ErrorUrl(url, es[..k + 1]) == es[k].link.GetOr(FallbackUrl(n))
  {
    var e := es[k];
    var sec := SectionOf(e).value;
    assert sec == Section(n, e.link.GetOr(FallbackUrl(n)), Strip(e.text)) by {
      SectionOfSteps(e);
    }
    var r := RenderSections(Sections(es[..k]));
    assert RenderSections(Sections(es[..k + 1])) == r + SectionBlock(sec) by {
      SectionStep(es, k);
      RenderOneMore(Sections(es[..k]), sec);
    }
    TailRegroup(r, "### " + n + "\n\n", Strip(e.text), "\n\n");
    ErrorUrlStep(url, es, k);
  }

  lemma TailRegroup(a: string, b: string, c: string, d: string)
    ensures a + (b + c + d) == a + b + (c + d)
  {
  }

  lemma AppendRegroup(a: string, b: string, c: string, d: string)
    ensures a + b + c + d == a + (b + c + d)
  {
  }

  /** One turn of the section loop: element `k` is appended, and
      `rule_url` rebound to its URL, when it is a `div.section` whose id
      starts with a rule number. */
  method SectionTurn(url: string, es: seq<Element>, k: nat, prefix: string, content: string, ruleUrl: string)
    returns (content': string, ruleUrl': string)
    requires k < |es|
    requires content == prefix + RenderSections(Sections(es[..k]))
    requires ruleUrl == ErrorUrl(url, es[..k])
    ensures content' == prefix + RenderSections(Sections(es[..k + 1]))
    ensures ruleUrl' == ErrorUrl(url, es[..k + 1])
  {
    var e := es[k];
    var m := NumberAt(IdOf(e), 0);
    if IsSectionDiv(e) && m.Some? {
      var n := m.value;
      TurnAppends(url, es, k, n);
      ruleUrl' := e.link.GetOr(FallbackUrl(n));
      var heading := "### " + n + "\n\n";
      var body := Strip(e.text) + "\n\n";
      ghost var rendered := RenderSections(Sections(es[..k]));
      content' := content + heading;
      content' := content' + body;
      AppendRegroup(prefix, rendered, heading, body);
    } else {
      TurnSkips(url, es, k);
      content', ruleUrl' := content, ruleUrl;
    }
  }

  /** `scrape_rule_page`: the title search, then the section loop that
      appends each qualifying container and rebinds `rule_url` to its URL,
      with a fault at any point replacing the whole output by one line. */
  method ScrapeRulePage(url: string, src: PageSource) returns (content: string)
    ensures content == Render(Extract(url, src))
  {
    if src.Unreachable? {
      return ErrorLine(url, src.message);
    }
    var es, fault := src.elements, src.fault;
    var parts := Split(url, '/');
    if |parts| < 2 {
      return ErrorLine(url, IndexErrorMessage);
    }
    var number := parts[|parts| - 2];
    var title := FindTitle(es, number);
    content := "\n## " + title + "\n\n";
    content := content + "**Source:** " + url + "\n\n";
    assert content == Heading(title) + SourceLine(url) + RenderSections(Sections(es[..0]));

    var ruleUrl := url;
    var k := 0;
    while k < |es|
      invariant 0 <= k <= |es|
      invariant content == Heading(title) + SourceLine(url) + RenderSections(Sections(es[..k]))
      invariant ruleUrl == ErrorUrl(url, es[..k])
      invariant fault.Some? ==> k <= fault.value.after
    {
      if fault.Some? && fault.value.after == k {
        return ErrorLine(ruleUrl, fault.value.message);
      }
      content, ruleUrl := SectionTurn(url, es, k, Heading(title) + SourceLine(url), content, ruleUrl);
      k := k + 1;
    }
    assert es[..|es|] == es;
    if fault.Some? {
      return ErrorLine(ruleUrl, fault.value.message);
    }
  }
}
