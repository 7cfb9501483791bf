/** The parsed page as the scraper queries it. Fetching and HTML parsing
    are outside the model: a page arrives as its elements in document
    order, each with the attributes and text the queries read. */
module Html {
  import opened Optional

  /** One element of a parsed page.
      - `tag`: the lower-case tag name (`a`, `div`, `h2`, ...);
      - `classes`: the values of its `class` attribute;
      - `id`, `href`: those attributes, when present;
      - `text`: its visible text with that of its descendants (`get_text()`);
      - `link`: the URL of the first descendant `a` that has an `href`,
        already resolved against the site (`urljoin(base_url, href)`),
        when there is such a descendant. */
  datatype Element = Element(
    tag: string,
    classes: seq<string>,
    id: Option<string>,
    href: Option<string>,
    text: string,
    link: Option<string>)

  /** Selected by `soup.find_all('a', href=True)`. */
  predicate IsLinkAnchor(e: Element) {
    e.tag == "a" && e.href.Some?
  }

  /** Selected by `soup.find_all(['h1', 'h2', 'h3', 'h4', 'h5', 'h6'])`. */
  predicate IsHeading(e: Element) {
    e.tag in {"h1", "h2", "h3", "h4", "h5", "h6"}
  }

  /** Selected by `soup.find_all('div', class_='section')`. */
  predicate IsSectionDiv(e: Element) {
    e.tag == "div" && "section" in e.classes
  }
}
