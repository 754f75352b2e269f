/**
 `BlogFormatter` (src/formatters/blog.py): Markdown blog posts built from
 articles. Every post is a list of lines joined with "\n". The post date
 is passed in already formatted (the source uses `strftime("%Y.%m.%d")`).
 */
module BlogFormatter {
  import opened Wrappers
  import opened Text
  import opened Dicts
  import opened Models

  const NewLine: string := "\n"

  /** Summaries longer than this are cut and marked with "...". */
  const SummaryLimit: nat := 300

  /** The link text used when an article has no source. */
  const DefaultSource: string := "원문"

  const Rule: string := "---"
  const AutoNote: string := "*이 포스트는 자동으로 생성되었습니다.*"

  function Header(index: int, title: string): string {
    "### " + IntToString(index) + ". " + title
  }

  /** `article.source or "원문"`. */
  function SourceName(a: Article): (r: string)
    ensures r != ""
    ensures a.source != "" ==> r == a.source
  {
    if a.source != "" then a.source else DefaultSource
  }

  function SourceLine(a: Article): string {
    "> 출처: [" + SourceName(a) + "](" + a.url + ")"
  }

  /** The summary as shown: stripped, then cut to 300 characters plus "...". */
  function ShownSummary(summary: string): (r: string)
    ensures |r| <= SummaryLimit + 3
    ensures |Strip(summary)| <= SummaryLimit ==> r == Strip(summary)
    ensures |Strip(summary)| > SummaryLimit ==>
      r == Strip(summary)[..SummaryLimit] + "..." && StartsWith(r, Strip(summary)[..SummaryLimit])
  {
    var s := Ellipsize(Strip(summary), SummaryLimit);
    assert |Strip(summary)| > SummaryLimit ==> s == s[..SummaryLimit] + s[SummaryLimit..];
    s
  }

  /** The lines of `format_single_article`: a numbered header, the summary
      block only when the summary is non-empty, then the source link; each
      block is followed by an empty line. */
  function ArticleLines(a: Article, index: int): (r: seq<string>)
    ensures |r| == if a.summary != "" then 6 else 4
    ensures r[0] == Header(index, a.title) && r[1] == ""
    ensures a.summary != "" ==> r[2] == ShownSummary(a.summary) && r[3] == ""
    ensures r[|r| - 2] == SourceLine(a) && r[|r| - 1] == ""
  {
    Blocks(Header(index, a.title), ShownSummary(a.summary), SourceLine(a), "", a.summary != "")
  }

  /** Header, optional middle and last block, each followed by `blank`. */
  function Blocks<T>(first: T, middle: T, last: T, blank: T, withMiddle: bool): (r: seq<T>)
    ensures |r| == if withMiddle then 6 else 4
    ensures r[0] == first && r[1] == blank
    ensures withMiddle ==> r[2] == middle && r[3] == blank
    ensures r[|r| - 2] == last && r[|r| - 1] == blank
  {
    if withMiddle then [first, blank, middle, blank, last, blank] else [first, blank, last, blank]
  }

  /** `format_single_article`. */
  function FormatSingleArticle(a: Article, index: int): (r: string)
    ensures StartsWith(r, Header(index, a.title) + NewLine)
    ensures EndsWith(r, NewLine)
    ensures Contains(r, SourceLine(a))
    ensures a.summary != "" ==> Contains(r, ShownSummary(a.summary))
  {
    var lines := ArticleLines(a, index);
    JoinHead(lines, NewLine);
    JoinContainsEach(lines, NewLine);
    JoinSnoc(lines[..|lines| - 1], "", NewLine);
    assert lines[..|lines| - 1] + [""] == lines;
    var r := Join(lines, NewLine);
    assert r[|r| - 1..] == NewLine;
    r
  }

  lemma JoinNoSummary(h: string, src: string)
    ensures Join([h, "", src, ""], NewLine) == h + "\n\n" + src + "\n"
  {
    var lines := [h, "", src, ""];
    assert lines[1..] == ["", src, ""];
    assert lines[1..][1..] == [src, ""];
    assert lines[1..][1..][1..] == [""];
    assert Join(lines[1..][1..], NewLine) == src + "\n";
    assert Join(lines[1..], NewLine) == "\n" + src + "\n";
  }

  /** Without a summary the article is exactly its header, the source link
      and blank lines: no summary block appears. */
  lemma NoSummaryBlock(a: Article, index: int)
    requires a.summary == ""
    ensures FormatSingleArticle(a, index) == Header(index, a.title) + "\n\n" + SourceLine(a) + "\n"
  {
    assert ArticleLines(a, index) == [Header(index, a.title), "", SourceLine(a), ""];
    JoinNoSummary(Header(index, a.title), SourceLine(a));
  }

  /** The articles formatted one after another, numbered from `start`. */
  function Numbered(arts: seq<Article>, start: int): (r: seq<string>)
    ensures |r| == |arts|
    ensures forall i :: 0 <= i < |arts| ==> r[i] == FormatSingleArticle(arts[i], start + i)
  {
    seq(|arts|, i requires 0 <= i < |arts| => FormatSingleArticle(arts[i], start + i))
  }

  /** Articles are numbered 1..n in the given order. */
  lemma {:induction false} NumberedFromOne(arts: seq<Article>, i: nat)
    requires i < |arts|
    ensures StartsWith(Numbered(arts, 1)[i], "### " + IntToString(i + 1) + ". " + arts[i].title + NewLine)
  {
    assert Numbered(arts, 1)[i] == FormatSingleArticle(arts[i], 1 + i);
  }

  /** The header line of a category: its Korean name, or the raw string for
      an unknown category. */
  function SectionHeader(category: string): string {
    "## " + KoreanNameOf(category)
  }

  /** `format_category_section`: "" without articles. */
  function FormatCategorySection(category: string, arts: seq<Article>): (r: string)
    ensures arts == [] <==> r == ""
    ensures arts != [] ==> StartsWith(r, SectionHeader(category) + NewLine)
    ensures forall i :: 0 <= i < |arts| ==> Contains(r, FormatSingleArticle(arts[i], i + 1))
  {
    if arts == [] then ""
    else
      var lines := [SectionHeader(category), ""] + Numbered(arts, 1) + [];
      JoinHead(lines, NewLine);
      JoinContainsMiddle([SectionHeader(category), ""], Numbered(arts, 1), [], NewLine);
      Join(lines, NewLine)
  }

  /** Consecutive articles between any lines stand next to each other, the
      `i`-th numbered `i`, one line break apart. */
  lemma BlocksAdjacent(pre: seq<string>, arts: seq<Article>, post: seq<string>)
    ensures forall i :: 0 <= i < |arts| - 1 ==>
      Contains(Join(pre + Numbered(arts, 1) + post, NewLine),
               FormatSingleArticle(arts[i], i + 1) + NewLine + FormatSingleArticle(arts[i + 1], i + 2))
  {
    var blocks := Numbered(arts, 1);
    forall i | 0 <= i < |arts| - 1
      ensures Contains(Join(pre + blocks + post, NewLine),
                       FormatSingleArticle(arts[i], i + 1) + NewLine + FormatSingleArticle(arts[i + 1], i + 2))
    {
      assert blocks[i] == FormatSingleArticle(arts[i], i + 1);
      assert blocks[i + 1] == FormatSingleArticle(arts[i + 1], i + 2);
      MiddleAdjacent(pre, blocks, post, NewLine, i);
    }
  }

  /** Two neighbours in the middle part of a join stand one separator apart. */
  lemma MiddleAdjacent(pre: seq<string>, mid: seq<string>, post: seq<string>, sep: string, i: nat)
    requires i + 1 < |mid|
    ensures Contains(Join(pre + mid + post, sep), mid[i] + sep + mid[i + 1])
  {
    var lines := pre + mid + post;
    assert lines[|pre| + i] == mid[i] && lines[|pre| + i + 1] == mid[i + 1];
    JoinAdjacent(lines, sep, |pre| + i);
  }

  /** A section is its header, an empty line, then the articles in the
      given order numbered from 1, each directly followed by the next, and
      nothing after the last one. */
  lemma SectionInOrder(category: string, arts: seq<Article>)
    requires arts != []
    ensures StartsWith(FormatCategorySection(category, arts),
                       SectionHeader(category) + NewLine + NewLine + FormatSingleArticle(arts[0], 1))
    ensures forall i :: 0 <= i < |arts| - 1 ==>
      Contains(FormatCategorySection(category, arts),
               FormatSingleArticle(arts[i], i + 1) + NewLine + FormatSingleArticle(arts[i + 1], i + 2))
    ensures EndsWith(FormatCategorySection(category, arts), FormatSingleArticle(arts[|arts| - 1], |arts|))
  {
    var h := SectionHeader(category);
    var blocks := Numbered(arts, 1);
    assert [h, ""] + blocks + [] == [h, ""] + blocks;
    BlocksAdjacent([h, ""], arts, []);
    HeaderThenLines(h, blocks, NewLine);
  }

  /** A join of a header, an empty line and some lines starts with the
      header and the first line, and ends with the last line. */
  lemma HeaderThenLines(h: string, lines: seq<string>, sep: string)
    requires lines != []
    ensures StartsWith(Join([h, ""] + lines, sep), h + sep + sep + lines[0])
    ensures EndsWith(Join([h, ""] + lines, sep), lines[|lines| - 1])
  {
    var all := [h, ""] + lines;
    assert all[0] == h && all[1] == "" && all[2] == lines[0] && all[|all| - 1] == lines[|lines| - 1];
    JoinFirstThree(all, sep);
    assert h + sep + "" == h + sep;
    JoinLast(all, sep);
  }

  /** In `format_category_articles` the articles stand in the given order,
      each directly followed by the next, the last one by the closing rule. */
  lemma CategoryArticlesInOrder(category: string, arts: seq<Article>, dateText: string)
    ensures forall i :: 0 <= i < |arts| - 1 ==>
      Contains(FormatCategoryArticles(category, arts, dateText),
               FormatSingleArticle(arts[i], i + 1) + NewLine + FormatSingleArticle(arts[i + 1], i + 2))
    ensures arts != [] ==>
      Contains(FormatCategoryArticles(category, arts, dateText),
               FormatSingleArticle(arts[|arts| - 1], |arts|) + NewLine + Rule)
  {
    var pre := CategoryIntro(category, dateText);
    var post := CategoryOutro(|arts|);
    var lines := pre + Numbered(arts, 1) + post;
    BlocksAdjacent(pre, arts, post);
    if arts != [] {
      var k := |pre| + |arts| - 1;
      assert lines[k] == FormatSingleArticle(arts[|arts| - 1], |arts|);
      assert lines[k + 1] == Rule;
      JoinAdjacent(lines, NewLine, k);
    }
  }

  /** A `Category` and its value give the same section. */
  lemma SectionOfCategory(c: Category, arts: seq<Article>)
    ensures arts != [] ==> StartsWith(FormatCategorySection(Value(c), arts), "## " + KoreanName(c) + NewLine)
  {
    CategoryOfValue(c, Value(c));
  }

  /** The categories of `order` that have articles, in order. */
  function Shown(d: DailyDigest, order: seq<string>): (r: seq<string>)
    ensures |r| <= |order|
  {
    if order == [] then []
    else (if ArticlesByValue(d, order[0]) != [] then [order[0]] else []) + Shown(d, order[1..])
  }

  /** Exactly the categories of `order` with articles are shown. */
  lemma {:induction false} ShownMembers(d: DailyDigest, order: seq<string>, o: string)
    ensures o in Shown(d, order) <==> o in order && ArticlesByValue(d, o) != []
  {
    if order != [] {
      ShownMembers(d, order[1..], o);
      assert order == [order[0]] + order[1..];
    }
  }

  /** The section lines of `format_daily_digest`: for each category in
      order that has articles, its section, a rule and an empty line. */
  function Sections(d: DailyDigest, order: seq<string>): (r: seq<string>)
    ensures |r| == 3 * |Shown(d, order)|
  {
    if order == [] then []
    else
      var arts := ArticlesByValue(d, order[0]);
      (if arts != [] then [FormatCategorySection(order[0], arts), Rule, ""] else []) + Sections(d, order[1..])
  }

  /** The sections of the shown categories, in order. */
  function SectionTexts(d: DailyDigest, shown: seq<string>): (r: seq<string>)
    ensures |r| == |shown|
  {
    seq(|shown|, j requires 0 <= j < |shown| => FormatCategorySection(shown[j], ArticlesByValue(d, shown[j])))
  }

  /** Each text followed by a rule and an empty line. */
  function Ruled(texts: seq<string>): (r: seq<string>)
    ensures |r| == 3 * |texts|
  {
    if texts == [] then [] else [texts[0], Rule, ""] + Ruled(texts[1..])
  }

  lemma {:induction false} RuledAt(texts: seq<string>, j: nat)
    requires j < |texts|
    ensures Ruled(texts)[3 * j] == texts[j]
  {
    if j > 0 {
      RuledAt(texts[1..], j - 1);
      var k := 3 * (j - 1);
      assert 3 * j == k + 3;
      assert Ruled(texts)[k + 3] == Ruled(texts[1..])[k];
    }
  }

  /** The loop over the order is the same as first choosing the categories
      with articles and then writing their sections. */
  lemma {:induction false} SectionsRuled(d: DailyDigest, order: seq<string>)
    ensures Sections(d, order) == Ruled(SectionTexts(d, Shown(d, order)))
  {
    if order != [] {
      SectionsRuled(d, order[1..]);
      var shown := Shown(d, order);
      var rest := Shown(d, order[1..]);
      if ArticlesByValue(d, order[0]) != [] {
        assert shown == [order[0]] + rest;
        assert SectionTexts(d, shown)[1..] == SectionTexts(d, rest);
      } else {
        assert shown == rest;
      }
    }
  }

  /** Section `j` of the post belongs to the `j`-th category with articles:
      empty categories are skipped and no other section appears. */
  lemma SectionsAt(d: DailyDigest, order: seq<string>, j: nat)
    requires j < |Shown(d, order)|
    ensures var o := Shown(d, order)[j];
      Sections(d, order)[3 * j] == FormatCategorySection(o, ArticlesByValue(d, o))
  {
    SectionsRuled(d, order);
    RuledAt(SectionTexts(d, Shown(d, order)), j);
  }

  function TotalLine(n: int): string {
    "*총 " + IntToString(n) + "개의 기사가 수집되었습니다.*"
  }

  /** The title and introduction of `format_daily_digest`. */
  function DigestIntro(dateText: string): (r: seq<string>)
    ensures |r| == 6 && r[0] == "# [" + dateText + "] 오늘의 뉴스 모음"
  {
    ["# [" + dateText + "] 오늘의 뉴스 모음", "", "오늘의 주요 뉴스를 카테고리별로 정리했습니다.", "", Rule, ""]
  }

  /** The closing lines of `format_daily_digest`. */
  function DigestOutro(total: int): (r: seq<string>)
    ensures |r| == 4 && r[1] == TotalLine(total) && r[3] == AutoNote
  {
    ["", TotalLine(total), "", AutoNote]
  }

  /** `order` defaults to the digest's key order. */
  function Order(d: DailyDigest, order: Option<seq<string>>): seq<string> {
    order.GetOr(Keys(d.categories))
  }

  /** `format_daily_digest`: its footer reports `total_count`. */
  function FormatDailyDigest(d: DailyDigest, dateText: string, order: Option<seq<string>>): (r: string)
    ensures StartsWith(r, "# [" + dateText + "] 오늘의 뉴스 모음" + NewLine)
    ensures Contains(r, TotalLine(d.totalCount))
    ensures EndsWith(r, AutoNote)
  {
    var lines := DigestIntro(dateText) + Sections(d, Order(d, order)) + DigestOutro(d.totalCount);
    JoinHead(lines, NewLine);
    JoinContains(lines, NewLine, |lines| - 3);
    JoinLast(lines, NewLine);
    Join(lines, NewLine)
  }

  /** The post shows, in order, one section per category of the order
      that has articles. */
  lemma DigestShowsSection(d: DailyDigest, dateText: string, order: Option<seq<string>>, j: nat)
    requires j < |Shown(d, Order(d, order))|
    ensures var o := Shown(d, Order(d, order))[j];
      Contains(FormatDailyDigest(d, dateText, order), FormatCategorySection(o, ArticlesByValue(d, o)))
  {
    var sections := Sections(d, Order(d, order));
    SectionsAt(d, Order(d, order), j);
    JoinContainsMiddle(DigestIntro(dateText), sections, DigestOutro(d.totalCount), NewLine);
    assert 3 * j < |sections|;
  }

  /** The title and introduction of `format_category_articles`. */
  function CategoryIntro(category: string, dateText: string): (r: seq<string>)
    ensures |r| == 6 && r[0] == "# [" + dateText + "] 오늘의 " + KoreanNameOf(category) + " 뉴스 모음"
  {
    var name := KoreanNameOf(category);
    ["# [" + dateText + "] 오늘의 " + name + " 뉴스 모음", "", "오늘의 주요 " + name + " 뉴스를 정리했습니다.", "", Rule, ""]
  }

  /** The closing lines of `format_category_articles`. */
  function CategoryOutro(count: int): (r: seq<string>)
    ensures |r| == 5 && r[2] == TotalLine(count)
  {
    [Rule, "", TotalLine(count), "", AutoNote]
  }

  /** `format_category_articles`: every article numbered from 1 and a
      footer with the number of articles. */
  function FormatCategoryArticles(category: string, arts: seq<Article>, dateText: string): (r: string)
    ensures StartsWith(r, "# [" + dateText + "] 오늘의 " + KoreanNameOf(category) + " 뉴스 모음" + NewLine)
    ensures Contains(r, TotalLine(|arts|))
    ensures forall i :: 0 <= i < |arts| ==> Contains(r, FormatSingleArticle(arts[i], i + 1))
  {
    var pre := CategoryIntro(category, dateText);
    var post := CategoryOutro(|arts|);
    var lines := pre + Numbered(arts, 1) + post;
    JoinHead(lines, NewLine);
    JoinContainsMiddle(pre, Numbered(arts, 1), post, NewLine);
    JoinContains(lines, NewLine, |lines| - 3);
    Join(lines, NewLine)
  }

  /** One line of `format_simple_list`. */
  function SimpleLine(a: Article, index: int): string {
    IntToString(index) + ". [" + a.title + "](" + a.url + ")" + (if a.source != "" then " (" + a.source + ")" else "")
  }

  /** A list line is the numbered link, followed by the source in
      parentheses exactly when there is one. */
  lemma SimpleLineShape(a: Article, index: int)
    ensures StartsWith(SimpleLine(a, index), IntToString(index) + ". [" + a.title + "](" + a.url + ")")
    ensures a.source != "" ==> EndsWith(SimpleLine(a, index), " (" + a.source + ")")
    ensures a.source == "" ==> SimpleLine(a, index) == IntToString(index) + ". [" + a.title + "](" + a.url + ")"
  {
    var link := IntToString(index) + ". [" + a.title + "](" + a.url + ")";
    var suffix := if a.source != "" then " (" + a.source + ")" else "";
    Ends(link, suffix);
    assert suffix == "" ==> link + suffix == link;
  }

  function SimpleLines(arts: seq<Article>, start: int): (r: seq<string>)
    ensures |r| == |arts|
    ensures forall i :: 0 <= i < |arts| ==> r[i] == SimpleLine(arts[i], start + i)
  {
    seq(|arts|, i requires 0 <= i < |arts| => SimpleLine(arts[i], start + i))
  }

  /** `format_simple_list`: one line per article, numbered from 1. */
  function FormatSimpleList(arts: seq<Article>): (r: string)
    ensures arts == [] ==> r == ""
    ensures forall i :: 0 <= i < |arts| ==> Contains(r, SimpleLine(arts[i], i + 1))
  {
    var lines := SimpleLines(arts, 1);
    JoinContainsEach(lines, NewLine);
    Join(lines, NewLine)
  }

  /** When no line contains a line break, the list splits back into exactly
      one line per article. */
  lemma SimpleListLines(arts: seq<Article>)
    requires arts != []
    requires forall i :: 0 <= i < |arts| ==> '\n' !in SimpleLine(arts[i], i + 1)
    ensures Split(FormatSimpleList(arts), '\n') == SimpleLines(arts, 1)
  {
    SplitJoin(SimpleLines(arts, 1), '\n');
  }
}
