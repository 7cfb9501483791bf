/** The URLs the scraper builds and reads back: the detail-page URL the
    index resolver synthesises for a rule, the fallback URL of a section
    without a link, and the rule number recovered from a detail-page URL. */
module Urls {
  import opened Optional
  import opened Text
  import opened Pattern

  /** The site every rule page lives on (`base_url`). */
  const BaseUrl: string := "https://www.revisor.mn.gov"

  /** `urljoin(base_url, f"/rules/{n}/")`: the base has no path, so joining
      it with an absolute path appends the path. */
  function IndexUrl(n: string): string {
    BaseUrl + "/rules/" + n + "/"
  }

  /** `urljoin(base_url, f"/rules/{n}")`, the URL of a section that has no
      link of its own: no trailing slash. */
  function FallbackUrl(n: string): string {
    BaseUrl + "/rules/" + n
  }

  /** `url.split('/')[-2]`, or `None` where Python raises `IndexError`
      because the URL has no `/` and so splits into a single piece. */
  function SecondToLastSegment(url: string): (r: Option<string>)
    ensures r.Some? <==> '/' in url
    ensures r.Some? ==> '/' !in r.value
  {
    var parts := Split(url, '/');
    SplitPieces(url, '/');
    if |parts| >= 2 then
      assert parts[|parts| - 2] in parts;
      Some(parts[|parts| - 2])
    else
      None
  }

  /** Round trip: the rule page reads back, from the second-to-last path
      segment, exactly the rule number the index resolver put into the URL. */
  lemma IndexUrlRoundTrip(n: string)
    requires '/' !in n
    ensures SecondToLastSegment(IndexUrl(n)) == Some(n)
  {
    var prefix := BaseUrl + "/rules";
    assert IndexUrl(n) == prefix + ['/'] + (n + ['/'] + "");
    SplitAppend(prefix, n + ['/'] + "", '/');
    SplitAppend(n, "", '/');
    SplitSingle(n, '/');
    var parts := Split(IndexUrl(n), '/');
    assert parts == Split(prefix, '/') + ([n] + [""]);
  }

  /** Different rule numbers give different detail-page URLs. */
  lemma IndexUrlInjective(n: string, m: string)
    requires IndexUrl(n) == IndexUrl(m)
    ensures n == m
  {
    var k := |BaseUrl + "/rules/"|;
    assert IndexUrl(n)[k..|IndexUrl(n)| - 1] == n;
    assert IndexUrl(m)[k..|IndexUrl(m)| - 1] == m;
  }

  /** The two URL forms never coincide: an index-built URL ends in `/`,
      a fallback section URL ends in the last digit of its rule number. */
  lemma IndexAndFallbackDiffer(n: string, m: string)
    requires IsRuleNumber(m)
    ensures IndexUrl(n) != FallbackUrl(m)
  {
    RuleNumberEndsInDigit(m);
    var f := FallbackUrl(m);
    assert f[|f| - 1] == m[|m| - 1];
  }
}
