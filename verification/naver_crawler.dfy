/**
 The crawl orchestration of `NaverNewsCrawler` (src/crawlers/naver.py):
 fetching a section page, turning it into candidates, optionally fetching
 every article page, and doing so for several categories.

 The outside world is a `Web`: `fetch(url)` is what `HttpClient.get` (or
 `get_with_delay`) returns for `url`, and the two parse functions stand for
 BeautifulSoup's selection on a fetched page. Because `fetch` is a function,
 fetching the same URL twice gives the same answer.
 */
module NaverCrawler {
  import opened Wrappers
  import opened Text
  import opened Dicts
  import opened Models
  import opened NaverParse

  datatype Web = Web(
    fetch: string -> Option<string>,
    listingDom: string -> ListingDom,
    detailDom: string -> DetailDom)

  /** `if not html`: no page, or an empty one. */
  predicate Missing(html: Option<string>) {
    html.GetOr("") == ""
  }

  /** `get_article_list`: `[]` when the section page cannot be fetched,
      otherwise the parsed listing cut to `max_count` (Python slicing, so a
      negative `max_count` drops entries from the end). */
  function GetArticleList(web: Web, category: Category, maxCount: int): (r: seq<Candidate>)
    ensures Missing(web.fetch(SectionUrl(category))) ==> r == []
    ensures !Missing(web.fetch(SectionUrl(category))) ==>
      var all := ParseArticleList(web.listingDom(web.fetch(SectionUrl(category)).value), category);
      |r| <= |all| && r == all[..|r|] && (maxCount >= 0 ==> |r| == Min(maxCount, |all|))
    ensures |r| <= ListingLimit && AllWellFormed(r, category)
    ensures maxCount >= 0 ==> |r| <= maxCount
  {
    var html := web.fetch(SectionUrl(category));
    if Missing(html) then []
    else PyPrefix(ParseArticleList(web.listingDom(html.value), category), maxCount)
  }

  /** `get_article_detail`: `None` when the page cannot be fetched or has no
      title. */
  function GetArticleDetail(web: Web, url: string, category: Category): (r: Option<Article>)
    ensures Missing(web.fetch(url)) ==> r == None
    ensures r.Some? ==> r.value.url == url && r.value.category == category && r.value.title != ""
    ensures !Missing(web.fetch(url)) ==> r == ParseArticleDetail(web.detailDom(web.fetch(url).value), url, category)
  {
    var html := web.fetch(url);
    if Missing(html) then None
    else ParseArticleDetail(web.detailDom(html.value), url, category)
  }

  /** The article one candidate contributes: its detail page when content
      is wanted (nothing when that fails), otherwise a bare article. */
  function ArticleFor(web: Web, item: Candidate, category: Category, includeContent: bool): seq<Article> {
    if includeContent then
      match GetArticleDetail(web, item.url, category)
      case Some(a) => [a]
      case None => []
    else [BasicArticle(item.title, item.url, category, "")]
  }

  /** The loop of `crawl_category` over the candidates. */
  function CrawlItems(web: Web, items: seq<Candidate>, category: Category, includeContent: bool): (r: seq<Article>)
    ensures |r| <= |items|
    ensures !includeContent ==> |r| == |items|
  {
    if items == [] then []
    else CrawlItems(web, items[..|items| - 1], category, includeContent)
           + ArticleFor(web, items[|items| - 1], category, includeContent)
  }

  /** `crawl_category`. */
  function CrawlCategory(web: Web, category: Category, maxArticles: int, includeContent: bool): (r: seq<Article>)
    ensures Missing(web.fetch(SectionUrl(category))) ==> r == []
    ensures |r| <= ListingLimit && (maxArticles >= 0 ==> |r| <= maxArticles)
  {
    CrawlItems(web, GetArticleList(web, category, maxArticles), category, includeContent)
  }

  /** Crawling two runs of candidates one after the other gives the two
      results one after the other: order is preserved. */
  lemma {:induction false} CrawlItemsAppend(web: Web, a: seq<Candidate>, b: seq<Candidate>, category: Category, includeContent: bool)
    ensures CrawlItems(web, a + b, category, includeContent) ==
      CrawlItems(web, a, category, includeContent) + CrawlItems(web, b, category, includeContent)
  {
    if b == [] {
      assert a + b == a;
    } else {
      var init := b[..|b| - 1];
      var last := b[|b| - 1];
      assert b == init + [last];
      assert a + b == (a + init) + [last];
      CrawlItemsSnoc(web, a + init, last, category, includeContent);
      CrawlItemsAppend(web, a, init, category, includeContent);
      CrawlItemsSnoc(web, init, last, category, includeContent);
      Regroup(CrawlItems(web, a + b, category, includeContent), CrawlItems(web, a + init, category, includeContent),
              CrawlItems(web, a, category, includeContent), CrawlItems(web, init, category, includeContent),
              CrawlItems(web, b, category, includeContent), ArticleFor(web, last, category, includeContent));
    }
  }

  lemma Regroup<T>(x: seq<T>, p: seq<T>, a: seq<T>, i: seq<T>, b: seq<T>, t: seq<T>)
    requires x == p + t && p == a + i && b == i + t
    ensures x == a + b
  {
  }

  lemma CrawlItemsSnoc(web: Web, items: seq<Candidate>, x: Candidate, category: Category, includeContent: bool)
    ensures CrawlItems(web, items + [x], category, includeContent) ==
      CrawlItems(web, items, category, includeContent) + ArticleFor(web, x, category, includeContent)
  {
    var xs := items + [x];
    assert xs[..|xs| - 1] == items && xs[|xs| - 1] == x;
  }

  /** Without content, the `i`-th article is a bare article with the `i`-th
      candidate's title and URL and an empty summary. */
  lemma {:induction false} CrawlWithoutContent(web: Web, items: seq<Candidate>, category: Category)
    ensures var r := CrawlItems(web, items, category, false);
      |r| == |items| &&
      forall i :: 0 <= i < |items| ==> r[i] == BasicArticle(items[i].title, items[i].url, category, "")
  {
    if items != [] {
      CrawlWithoutContent(web, items[..|items| - 1], category);
    }
  }

  /** `a` is the parsed detail page of one of `items`, with its URL. */
  predicate DetailOfSome(web: Web, items: seq<Candidate>, category: Category, a: Article) {
    exists j :: 0 <= j < |items| && a.url == items[j].url && GetArticleDetail(web, items[j].url, category) == Some(a)
  }

  /** With content, every article is the parsed detail page of some
      candidate, carrying that candidate's URL; candidates whose page fails
      contribute nothing. */
  lemma {:induction false} CrawlWithContent(web: Web, items: seq<Candidate>, category: Category)
    ensures forall a :: a in CrawlItems(web, items, category, true) ==>
      a.category == category && a.title != "" && DetailOfSome(web, items, category, a)
  {
    if items != [] {
      var init := items[..|items| - 1];
      CrawlWithContent(web, init, category);
      var r := CrawlItems(web, items, category, true);
      var prev := CrawlItems(web, init, category, true);
      var last := ArticleFor(web, items[|items| - 1], category, true);
      assert r == prev + last;
      forall a | a in r ensures DetailOfSome(web, items, category, a) {
        if a in prev {
          var j :| 0 <= j < |init| && a.url == init[j].url && GetArticleDetail(web, init[j].url, category) == Some(a);
          assert items[j] == init[j];
        } else {
          assert a in last;
          assert a == GetArticleDetail(web, items[|items| - 1].url, category).value;
        }
      }
    }
  }

  /** A candidate whose page yields an article contributes exactly it. */
  lemma CrawlOneWithContent(web: Web, item: Candidate, category: Category)
    ensures GetArticleDetail(web, item.url, category).Some? ==>
      CrawlItems(web, [item], category, true) == [GetArticleDetail(web, item.url, category).value]
    ensures GetArticleDetail(web, item.url, category).None? ==> CrawlItems(web, [item], category, true) == []
  {
    assert [item][..0] == [];
  }

  /** The category values of `cats`, in order. */
  function Values(cats: seq<Category>): (r: seq<string>)
    ensures |r| == |cats| && forall i :: 0 <= i < |cats| ==> r[i] == Value(cats[i])
  {
    if cats == [] then [] else Values(cats[..|cats| - 1]) + [Value(cats[|cats| - 1])]
  }

  /** The loop of `crawl_all_categories`: `result[category.value] = ...`. */
  function CrawlEach(web: Web, cats: seq<Category>, maxPer: int, includeContent: bool): (r: seq<Entry<string, seq<Article>>>)
  {
    if cats == [] then []
    else
      var c := cats[|cats| - 1];
      Put(CrawlEach(web, cats[..|cats| - 1], maxPer, includeContent), Value(c), CrawlCategory(web, c, maxPer, includeContent))
  }

  /** `crawl_all_categories`: every category when none are given. */
  function CrawlAllCategories(web: Web, categories: Option<seq<Category>>, maxPer: int, includeContent: bool)
    : seq<Entry<string, seq<Article>>>
  {
    CrawlEach(web, categories.GetOr(AllCategories()), maxPer, includeContent)
  }

  /** The result's keys are the requested category values in first-request
      order. */
  lemma {:induction false} CrawlEachKeys(web: Web, cats: seq<Category>, maxPer: int, includeContent: bool)
    ensures Keys(CrawlEach(web, cats, maxPer, includeContent)) == FirstSeen(Values(cats))
  {
    if cats != [] {
      var init := cats[..|cats| - 1];
      CrawlEachKeys(web, init, maxPer, includeContent);
      assert Values(cats)[..|cats| - 1] == Values(init);
    }
  }

  /** Every requested category maps to that category's crawl. */
  lemma {:induction false} CrawlEachValues(web: Web, cats: seq<Category>, maxPer: int, includeContent: bool, d: Category)
    requires d in cats
    ensures Get(CrawlEach(web, cats, maxPer, includeContent), Value(d)) == Some(CrawlCategory(web, d, maxPer, includeContent))
  {
    var init := cats[..|cats| - 1];
    var c := cats[|cats| - 1];
    if d != c {
      assert d in init by {
        var i :| 0 <= i < |cats| && cats[i] == d;
        assert init[i] == d;
      }
      CrawlEachValues(web, init, maxPer, includeContent, d);
      CategoryNamesDistinct(d, c);
    }
  }

  /** No key other than a requested category value is present. */
  lemma {:induction false} CrawlEachOnlyRequested(web: Web, cats: seq<Category>, maxPer: int, includeContent: bool, k: string)
    requires k !in Values(cats)
    ensures Get(CrawlEach(web, cats, maxPer, includeContent), k) == None
  {
    if cats != [] {
      var init := cats[..|cats| - 1];
      assert Values(cats)[..|cats| - 1] == Values(init);
      assert k != Values(cats)[|cats| - 1];
      CrawlEachOnlyRequested(web, init, maxPer, includeContent, k);
    }
  }

  /** Without an explicit list all six categories are crawled, each once. */
  lemma CrawlAllDefault(web: Web, maxPer: int, includeContent: bool, c: Category)
    ensures Keys(CrawlAllCategories(web, None, maxPer, includeContent)) == Values(AllCategories())
    ensures |Keys(CrawlAllCategories(web, None, maxPer, includeContent))| == 6
    ensures Get(CrawlAllCategories(web, None, maxPer, includeContent), Value(c)) ==
      Some(CrawlCategory(web, c, maxPer, includeContent))
  {
    var all := AllCategories();
    CrawlEachKeys(web, all, maxPer, includeContent);
    AllCategoriesComplete(c);
    CrawlEachValues(web, all, maxPer, includeContent, c);
    var vs := Values(all);
    forall i, j | 0 <= i < j < |vs| ensures vs[i] != vs[j] {
      CategoryNamesDistinct(all[i], all[j]);
    }
    FirstSeenDistinct(vs);
  }

  /** `FirstSeen` leaves a sequence without repeats unchanged. */
  lemma {:induction false} FirstSeenDistinct(xs: seq<string>)
    requires Distinct(xs)
    ensures FirstSeen(xs) == xs
  {
    if xs != [] {
      FirstSeenDistinct(xs[..|xs| - 1]);
    }
  }
}
