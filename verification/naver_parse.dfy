/**
 The page-level parsing of `NaverNewsCrawler` (src/crawlers/naver.py): the
 section URL of a category, the candidate list read from a section page and
 the `Article` assembled from an article page.

 CSS selection is not modelled. A section page is given as what its two
 selector passes yield: the links found inside each headline area, in
 document order, and for each list item its first title link, if any. An
 article page is given as the first element matching each selector, if any.
 Element texts are `get_text(strip=True)` results.
 */
module NaverParse {
  import opened Wrappers
  import opened Text
  import opened Models
  import opened Timestamps

  const BaseUrl: string := "https://news.naver.com"
  const NewsDomain: string := "news.naver.com"
  const SectionPrefix: string := "https://news.naver.com/section/"

  /** The listing keeps at most this many candidates. */
  const ListingLimit: nat := 20

  /** Summaries longer than this are cut and marked with "...". */
  const SummaryLimit: nat := 300

  /** `CATEGORY_SECTIONS`. Every category has an entry, so the `"100"`
      default of `_get_section_url` is never used. */
  function SectionId(c: Category): string {
    match c
    case Politics => "100"
    case Economy => "101"
    case Society => "102"
    case Life => "103"
    case World => "104"
    case It => "105"
  }

  /** `_get_section_url`: one fixed-length section URL per category. */
  function SectionUrl(c: Category): (r: string)
    ensures StartsWith(r, SectionPrefix) && |r| == |SectionPrefix| + 3
    ensures Contains(r, NewsDomain)
  {
    var r := BaseUrl + "/section/" + SectionId(c);
    assert r[..|SectionPrefix|] == SectionPrefix;
    assert OccursAt(r, NewsDomain, 8);
    r
  }

  /** Different categories are crawled from different pages. */
  lemma SectionUrlInjective(c: Category, d: Category)
    requires SectionUrl(c) == SectionUrl(d)
    ensures c == d
  {
    assert SectionUrl(c)[|SectionPrefix|..] == SectionId(c);
    assert SectionUrl(d)[|SectionPrefix|..] == SectionId(d);
  }

  // ---------------------------------------------------------------------
  // The section page.

  /** An `<a>` element: its `href` attribute (`""` when absent) and its text. */
  datatype Link = Link(href: string, text: string)

  /** The two selector passes over a section page. */
  datatype ListingDom = ListingDom(areas: seq<seq<Link>>, items: seq<Option<Link>>)

  /** One entry of the listing: `{"title", "url", "category"}`. */
  datatype Candidate = Candidate(title: string, url: string, category: Category)

  /** `urljoin(BASE_URL, href)` for an `href` starting with "/": a
      network-path reference ("//host/...") keeps the base's scheme only,
      any other path replaces the base's (empty) path. The rest of the href
      is kept verbatim: an empty authority and empty "?", "#" or ";" markers
      are not treated specially. Other hrefs are kept. */
  function ResolveHref(href: string): (r: string)
    ensures !StartsWith(href, "/") ==> r == href
    ensures StartsWith(href, "/") ==> StartsWith(r, "https:") && EndsWith(r, href)
    ensures StartsWith(href, "/") && !StartsWith(href, "//") ==> StartsWith(r, BaseUrl) && |r| == |BaseUrl| + |href|
    ensures StartsWith(href, "//") ==> |r| == |"https:"| + |href|
  {
    if StartsWith(href, "//") then
      var r := "https:" + href;
      assert r[..6] == "https:" && r[|r| - |href|..] == href;
      r
    else if StartsWith(href, "/") then
      var r := BaseUrl + href;
      assert r[..|BaseUrl|] == BaseUrl && r[|r| - |href|..] == href;
      assert r[..6] == "https:";
      r
    else href
  }

  /** The checks both passes apply to one link: a non-empty href and title,
      and a resolved URL inside the news domain. */
  function Accept(link: Link, category: Category): (r: Option<Candidate>)
    ensures r.Some? <==> link.href != "" && link.text != "" && Contains(ResolveHref(link.href), NewsDomain)
    ensures r.Some? ==> r.value == Candidate(link.text, ResolveHref(link.href), category)
  {
    if link.href == "" || link.text == "" then None
    else
      var url := ResolveHref(link.href);
      if Contains(url, NewsDomain) then Some(Candidate(link.text, url, category)) else None
  }

  /** The accepted links of one headline area, in document order. */
  function AcceptAll(links: seq<Link>, category: Category): seq<Candidate> {
    if links == [] then []
    else
      var last := links[|links| - 1];
      AcceptAll(links[..|links| - 1], category) +
        (match Accept(last, category) case Some(c) => [c] case None => [])
  }

  /** The first pass: every accepted link of every area, areas in order.
      Nothing is deduplicated. */
  function Pass1(areas: seq<seq<Link>>, category: Category): seq<Candidate> {
    if areas == [] then [] else Pass1(areas[..|areas| - 1], category) + AcceptAll(areas[|areas| - 1], category)
  }

  function Urls(cs: seq<Candidate>): (r: seq<string>)
    ensures |r| == |cs| && forall i :: 0 <= i < |cs| ==> r[i] == cs[i].url
  {
    if cs == [] then [] else Urls(cs[..|cs| - 1]) + [cs[|cs| - 1].url]
  }

  /** One list item of the second pass: its link is appended when accepted
      and its URL is not yet among the candidates. */
  function Pass2Step(cs: seq<Candidate>, item: Option<Link>, category: Category): seq<Candidate> {
    match item
    case None => cs
    case Some(link) =>
      match Accept(link, category)
      case None => cs
      case Some(c) => if c.url in Urls(cs) then cs else cs + [c]
  }

  /** Whether one list item of the second pass appends a candidate. */
  predicate Appends(cs: seq<Candidate>, item: Option<Link>, category: Category) {
    item.Some? && Accept(item.value, category).Some? && Accept(item.value, category).value.url !in Urls(cs)
  }

  /** The positions of the items whose candidates the second pass appends. */
  function Pass2Sources(items: seq<Option<Link>>, category: Category, acc: seq<Candidate>): seq<nat> {
    if items == [] then []
    else
      var init := items[..|items| - 1];
      Pass2Sources(init, category, acc)
        + (if Appends(Pass2(init, category, acc), items[|items| - 1], category) then [|items| - 1] else [])
  }

  /** `r` is `acc` followed by one candidate per position of `src`: the
      accepted link of that item, positions strictly increasing. */
  predicate Sourced(items: seq<Option<Link>>, category: Category, acc: seq<Candidate>, r: seq<Candidate>, src: seq<nat>) {
    && |r| == |acc| + |src|
    && (forall t :: 0 <= t < |src| ==>
          (src[t] < |items| && items[src[t]].Some? && Accept(items[src[t]].value, category) == Some(r[|acc| + t])))
    && (forall s, t :: 0 <= s < t < |src| ==> src[s] < src[t])
  }

  /** The second pass over `items`, continuing the candidates `acc`. */
  function Pass2(items: seq<Option<Link>>, category: Category, acc: seq<Candidate>): seq<Candidate> {
    if items == [] then acc
    else Pass2Step(Pass2(items[..|items| - 1], category, acc), items[|items| - 1], category)
  }

  /** Every candidate either pass can produce is well formed. */
  predicate WellFormed(c: Candidate, category: Category) {
    c.title != "" && Contains(c.url, NewsDomain) && c.category == category
  }

  predicate AllWellFormed(cs: seq<Candidate>, category: Category) {
    forall i :: 0 <= i < |cs| ==> WellFormed(cs[i], category)
  }

  lemma {:induction false} AcceptAllWellFormed(links: seq<Link>, category: Category)
    ensures AllWellFormed(AcceptAll(links, category), category)
    ensures |AcceptAll(links, category)| <= |links|
  {
    if links != [] {
      AcceptAllWellFormed(links[..|links| - 1], category);
    }
  }

  lemma {:induction false} Pass1WellFormed(areas: seq<seq<Link>>, category: Category)
    ensures AllWellFormed(Pass1(areas, category), category)
  {
    if areas != [] {
      Pass1WellFormed(areas[..|areas| - 1], category);
      AcceptAllWellFormed(areas[|areas| - 1], category);
    }
  }

  /** The second pass only appends: the candidates it started from stay in
      front, unchanged, and every candidate it adds is well formed and has a
      URL not seen before it. */
  lemma {:induction false} Pass2Extends(items: seq<Option<Link>>, category: Category, acc: seq<Candidate>)
    ensures |Pass2(items, category, acc)| >= |acc|
    ensures Pass2(items, category, acc)[..|acc|] == acc
    ensures AllWellFormed(acc, category) ==> AllWellFormed(Pass2(items, category, acc), category)
    ensures var r := Pass2(items, category, acc);
      forall i, j :: 0 <= i < j < |r| && |acc| <= j ==> r[i].url != r[j].url
    ensures |Pass2(items, category, acc)| <= |acc| + |items|
    ensures Sourced(items, category, acc, Pass2(items, category, acc), Pass2Sources(items, category, acc))
  {
    if items != [] {
      var prev := Pass2(items[..|items| - 1], category, acc);
      Pass2Extends(items[..|items| - 1], category, acc);
      var r := Pass2Step(prev, items[|items| - 1], category);
      assert r[..|prev|] == prev;
      assert r[..|acc|] == prev[..|acc|];
      Pass2Origins(items, category, acc);
    }
  }

  /** The step behind `Pass2Extends`' account of where each appended
      candidate comes from: the accepted link of a list item, items taken
      in document order. */
  lemma Pass2Origins(items: seq<Option<Link>>, category: Category, acc: seq<Candidate>)
    requires items != []
    requires var init := items[..|items| - 1];
      Sourced(init, category, acc, Pass2(init, category, acc), Pass2Sources(init, category, acc))
    ensures Sourced(items, category, acc, Pass2(items, category, acc), Pass2Sources(items, category, acc))
  {
    var n := |items| - 1;
    var init := items[..n];
    var p := Pass2(init, category, acc);
    var src0 := Pass2Sources(init, category, acc);
    var r := Pass2(items, category, acc);
    var src := Pass2Sources(items, category, acc);
    assert r == Pass2Step(p, items[n], category);
    forall t | 0 <= t < |src0| ensures items[src0[t]] == init[src0[t]] {
    }
    if Appends(p, items[n], category) {
      var c := Accept(items[n].value, category).value;
      assert r == p + [c];
      assert src == src0 + [n];
    } else {
      assert r == p;
      assert src == src0;
    }
  }

  /** One step of the second pass keeps the candidates it was given in front. */
  lemma Pass2StepExtends(cs: seq<Candidate>, item: Option<Link>, category: Category)
    ensures var r := Pass2Step(cs, item, category);
      |cs| <= |r| && r[..|cs|] == cs
  {
  }

  /** A URL present in a list is present in every extension of it. */
  lemma UrlsGrow(p: seq<Candidate>, r: seq<Candidate>)
    requires |p| <= |r| && r[..|p|] == p
    ensures forall u :: u in Urls(p) ==> u in Urls(r)
  {
    forall u | u in Urls(p) ensures u in Urls(r) {
      var i :| 0 <= i < |p| && Urls(p)[i] == u;
      assert r[i] == p[i];
      assert Urls(r)[i] == u;
    }
  }

  /** Every item the second pass accepts has its URL among the candidates
      afterwards, whether it was appended or already present. */
  lemma {:induction false} Pass2Complete(items: seq<Option<Link>>, category: Category, acc: seq<Candidate>, k: nat)
    requires k < |items| && items[k].Some? && Accept(items[k].value, category).Some?
    ensures Accept(items[k].value, category).value.url in Urls(Pass2(items, category, acc))
  {
    var init := items[..|items| - 1];
    var prev := Pass2(init, category, acc);
    var r := Pass2(items, category, acc);
    assert r == Pass2Step(prev, items[|items| - 1], category);
    Pass2StepExtends(prev, items[|items| - 1], category);
    if k < |items| - 1 {
      assert init[k] == items[k];
      Pass2Complete(init, category, acc, k);
      UrlsGrow(prev, r);
    } else {
      var c := Accept(items[k].value, category).value;
      if c.url !in Urls(prev) {
        assert r == prev + [c];
        assert Urls(r)[|prev|] == c.url;
      }
    }
  }

  /** `_parse_article_list`: the first pass, then the deduplicating second
      pass, then the first 20. */
  function ParseArticleList(dom: ListingDom, category: Category): (r: seq<Candidate>)
    ensures |r| <= ListingLimit
    ensures AllWellFormed(r, category)
    ensures forall i, j :: |Pass1(dom.areas, category)| <= j < |r| && 0 <= i < j ==> r[i].url != r[j].url
  {
    var first := Pass1(dom.areas, category);
    Pass1WellFormed(dom.areas, category);
    Pass2Extends(dom.items, category, first);
    PyPrefix(Pass2(dom.items, category, first), ListingLimit)
  }

  /** The listing is the first pass followed by the second pass's new
      candidates, truncated to 20: first-pass entries come first, in order. */
  lemma ListingOrder(dom: ListingDom, category: Category)
    ensures var all := Pass2(dom.items, category, Pass1(dom.areas, category));
      && |Pass1(dom.areas, category)| <= |all| && all[..|Pass1(dom.areas, category)|] == Pass1(dom.areas, category)
      && ParseArticleList(dom, category) == all[..Min(ListingLimit, |all|)]
  {
    Pass2Extends(dom.items, category, Pass1(dom.areas, category));
  }

  /** The first pass keeps repeats: a link that appears twice in one area
      gives two identical candidates. */
  lemma Pass1KeepsDuplicates(link: Link, category: Category)
    requires Accept(link, category).Some?
    ensures Pass1([[link, link]], category) == [Accept(link, category).value, Accept(link, category).value]
  {
    var c := Accept(link, category).value;
    assert [[link, link]][..0] == [];
    assert [link, link][..1] == [link];
    assert [link][..0] == [];
    assert AcceptAll([link], category) == [c];
    assert AcceptAll([link, link], category) == [c, c];
  }

  /** The second pass drops a repeat of a URL the first pass found. */
  lemma Pass2DropsKnownUrl(link: Link, category: Category)
    requires Accept(link, category).Some?
    ensures Pass2([Some(link)], category, Pass1([[link]], category)) == Pass1([[link]], category)
  {
    assert [[link]][..0] == [];
    assert [link][..0] == [];
    assert [Some(link)][..0] == [];
    var c := Accept(link, category).value;
    var first := Pass1([[link]], category);
    assert AcceptAll([link], category) == [c];
    assert first == Pass1([[link]][..0], category) + AcceptAll([link], category);
    assert first == [c];
    assert Urls(first)[0] == c.url;
  }

  // ---------------------------------------------------------------------
  // The article page.

  /** An element: its attributes and its stripped text. */
  datatype Element = Element(attrs: map<string, string>, text: string)

  /** `elem.get(name, "")`, where a missing attribute and an empty one are
      equally falsy. */
  function Attr(e: Element, name: string): (r: string)
    ensures name !in e.attrs ==> r == ""
    ensures name in e.attrs ==> r == e.attrs[name]
  {
    if name in e.attrs then e.attrs[name] else ""
  }

  /** The first element matching each selector of `_parse_article_detail`.
      `content` is the body's text once scripts, styles and the reporter
      area are removed. */
  datatype DetailDom = DetailDom(
    title: Option<string>,
    content: Option<string>,
    source: Option<Element>,
    author: Option<string>,
    time: Option<Element>,
    image: Option<Element>)

  /** The media name: the logo's `alt`, else its `title`, else its text. */
  function SourceName(e: Option<Element>): (r: string)
    ensures e.None? ==> r == ""
    ensures e.Some? && Attr(e.value, "alt") != "" ==> r == Attr(e.value, "alt")
    ensures e.Some? && Attr(e.value, "alt") == "" && Attr(e.value, "title") != "" ==> r == Attr(e.value, "title")
    ensures e.Some? && Attr(e.value, "alt") == "" && Attr(e.value, "title") == "" ==> r == e.value.text
  {
    match e
    case None => ""
    case Some(el) =>
      var xs := [Attr(el, "alt"), Attr(el, "title"), el.text];
      assert xs[1..] == [xs[1], xs[2]] && xs[1..][1..] == [xs[2]];
      FirstNonEmpty(xs)
  }

  /** The text handed to the timestamp parser: `data-date-time`, else
      `datetime`, else the element's text. */
  function TimeText(e: Element): (r: string)
    ensures Attr(e, "data-date-time") != "" ==> r == Attr(e, "data-date-time")
    ensures Attr(e, "data-date-time") == "" && Attr(e, "datetime") != "" ==> r == Attr(e, "datetime")
    ensures Attr(e, "data-date-time") == "" && Attr(e, "datetime") == "" ==> r == e.text
  {
    var xs := [Attr(e, "data-date-time"), Attr(e, "datetime"), e.text];
    assert xs[1..] == [xs[1], xs[2]] && xs[1..][1..] == [xs[2]];
    FirstNonEmpty(xs)
  }

  /** `published_at`: `None` without a time element, otherwise the parsed
      time text. */
  function PublishedAt(e: Option<Element>): (r: Option<DateTime>)
    ensures e.None? ==> r == None
    ensures r.Some? ==> IsValid(r.value)
    ensures e.Some? ==> r == ParseDateTime(TimeText(e.value))
  {
    match e
    case None => None
    case Some(el) => ParseDateTime(TimeText(el))
  }

  /** `image_elem.get("src")`: `None` without an element or without `src`. */
  function ImageUrl(e: Option<Element>): (r: Option<string>)
    ensures r.Some? <==> e.Some? && "src" in e.value.attrs
    ensures r.Some? ==> r.value == e.value.attrs["src"]
  {
    match e
    case None => None
    case Some(el) => if "src" in el.attrs then Some(el.attrs["src"]) else None
  }

  /** `_parse_article_detail`. */
  function ParseArticleDetail(dom: DetailDom, url: string, category: Category): (r: Option<Article>)
    ensures r.None? <==> dom.title.GetOr("") == ""
    ensures r.Some? ==> && r.value.title == dom.title.value && r.value.title != ""
                        && r.value.url == url && r.value.category == category
                        && r.value.content == dom.content.GetOr("")
                        && r.value.author == dom.author.GetOr("")
                        && r.value.source == SourceName(dom.source)
                        && r.value.publishedAt == PublishedAt(dom.time)
                        && r.value.imageUrl == ImageUrl(dom.image)
    ensures r.Some? && |r.value.content| <= SummaryLimit ==> r.value.summary == r.value.content
    ensures r.Some? && |r.value.content| > SummaryLimit ==>
      r.value.summary == r.value.content[..SummaryLimit] + "..."
  {
    var title := dom.title.GetOr("");
    if title == "" then None
    else
      var content := dom.content.GetOr("");
      var summary := Ellipsize(content, SummaryLimit);
      assert |content| > SummaryLimit ==> summary == summary[..SummaryLimit] + summary[SummaryLimit..];
      Some(Article(title, url, summary, content, category, SourceName(dom.source),
                   dom.author.GetOr(""), PublishedAt(dom.time), ImageUrl(dom.image)))
  }
}
