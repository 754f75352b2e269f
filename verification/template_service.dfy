/**
 `TemplateService` (backend/app/service/template_service.py): Markdown
 templates built from article dictionaries. A dictionary value is a
 `Field`: the key may be missing, hold `None`, or hold a text. Dates and
 the generation time are passed in already formatted.
 */
module TemplateService {
  import opened Text
  import opened Dicts
  import opened Models

  /** One value of an article dictionary. */
  datatype Field = Absent | Null | Text(s: string)

  /** The article dictionary fields the templates read. */
  datatype Record = Record(title: Field, category: Field, source: Field, url: Field, summary: Field)

  /** `article.get(key, default)` rendered in an f-string: the default when
      the key is missing, "None" for a stored `None`. */
  function Show(f: Field, default: string): (r: string)
    ensures f.Absent? ==> r == default
    ensures f.Null? ==> r == "None"
    ensures f.Text? ==> r == f.s
  {
    match f
    case Absent => default
    case Null => "None"
    case Text(s) => s
  }

  const NoSummary: string := "- 요약 정보 없음"

  /** At most this many bullet points are produced. */
  const MaxPoints: nat := 3

  /** A sentence becomes a point when its stripped text is longer than this. */
  const MinSentence: nat := 10

  /** The fallback point shows at most this many characters of the summary. */
  const FallbackLimit: nat := 200

  /** `summary.replace(".", ".\n").split("\n")`: a break after every full
      stop and at every existing line break. */
  function Sentences(summary: string): (r: seq<string>)
    ensures |r| >= 1
    ensures forall i :: 0 <= i < |r| ==> '\n' !in r[i]
    ensures Join(r, "\n") == InsertAfterEach(summary, '.', '\n')
  {
    Split(InsertAfterEach(summary, '.', '\n'), '\n')
  }

  /** The bullet for one sentence, if it is long enough. */
  function PointOf(sentence: string): (r: seq<string>)
    ensures |r| <= 1
  {
    if |Strip(sentence)| > MinSentence then ["- " + Strip(sentence)] else []
  }

  /** A bullet: "- " and a sentence of more than ten characters, on one line. */
  predicate IsPoint(p: string) {
    |p| > 2 + MinSentence && p[..2] == "- " && '\n' !in p
  }

  lemma PointOfShape(sentence: string)
    requires '\n' !in sentence
    ensures forall p :: p in PointOf(sentence) ==> IsPoint(p)
  {
    if |Strip(sentence)| > MinSentence {
      StripKeepsOut(sentence, '\n');
      var p := "- " + Strip(sentence);
      assert p[..2] == "- ";
      assert '\n' !in p;
    }
  }

  /** Reference definition: every qualifying sentence as a bullet, in order. */
  function Points(sentences: seq<string>): (r: seq<string>)
    ensures |r| <= |sentences|
  {
    if sentences == [] then []
    else Points(sentences[..|sentences| - 1]) + PointOf(sentences[|sentences| - 1])
  }

  lemma {:induction false} PointsAppend(a: seq<string>, b: seq<string>)
    ensures Points(a + b) == Points(a) + Points(b)
  {
    if b == [] {
      assert a + b == a;
    } else {
      assert (a + b)[..|a + b| - 1] == a + b[..|b| - 1];
      PointsAppend(a, b[..|b| - 1]);
    }
  }

  /** Every point is "- " and a stripped sentence of more than ten
      characters, with no line break in it. */
  lemma {:induction false} PointsShape(sentences: seq<string>)
    requires forall i :: 0 <= i < |sentences| ==> '\n' !in sentences[i]
    ensures forall p :: p in Points(sentences) ==> IsPoint(p)
  {
    if sentences != [] {
      var init := sentences[..|sentences| - 1];
      PointsShape(init);
      PointOfShape(sentences[|sentences| - 1]);
    }
  }

  /** The loop of `_extract_summary_points`: it stops at the third point,
      so it yields the first three points of the whole summary. */
  method FirstPoints(sentences: seq<string>) returns (points: seq<string>)
    ensures points == PyPrefix(Points(sentences), MaxPoints)
  {
    points := [];
    var i := 0;
    while i < |sentences|
      invariant 0 <= i <= |sentences|
      invariant points == Points(sentences[..i])
      invariant |points| < MaxPoints
    {
      var point := PointOf(sentences[i]);
      PointsSnoc(sentences, i);
      points := points + point;
      if |points| >= MaxPoints {
        FirstPointsStop(sentences, i, points);
        return;
      }
      i := i + 1;
    }
    assert sentences[..i] == sentences;
  }

  lemma PointsSnoc(sentences: seq<string>, i: nat)
    requires i < |sentences|
    ensures Points(sentences[..i + 1]) == Points(sentences[..i]) + PointOf(sentences[i])
  {
    assert sentences[..i + 1][..i] == sentences[..i];
  }

  /** Once three points are found the rest of the summary cannot change
      the first three. */
  lemma FirstPointsStop(sentences: seq<string>, i: nat, points: seq<string>)
    requires i < |sentences| && points == Points(sentences[..i + 1]) && |points| == MaxPoints
    ensures points == PyPrefix(Points(sentences), MaxPoints)
  {
    PointsAppend(sentences[..i + 1], sentences[i + 1..]);
    assert sentences[..i + 1] + sentences[i + 1..] == sentences;
    var all := Points(sentences);
    assert all == points + Points(sentences[i + 1..]);
    assert all[..MaxPoints] == points;
  }

  /** `_extract_summary_points`: the first three qualifying sentences as
      bullets joined by line breaks; a fixed text for an empty summary; the
      start of the summary when no sentence qualifies. */
  method ExtractSummaryPoints(summary: string) returns (r: string)
    ensures summary == "" ==> r == NoSummary
    ensures summary != "" && Points(Sentences(summary)) == [] ==> r == "- " + PyPrefix(summary, FallbackLimit)
    ensures summary != "" && Points(Sentences(summary)) != [] ==>
      r == Join(PyPrefix(Points(Sentences(summary)), MaxPoints), "\n")
  {
    if summary == "" {
      return NoSummary;
    }
    var points := FirstPoints(Sentences(summary));
    if points == [] {
      return "- " + PyPrefix(summary, FallbackLimit);
    }
    return Join(points, "\n");
  }

  /** With qualifying sentences the result has one to three lines, each a
      point, and reading the lines back gives the points. */
  lemma SummaryLines(summary: string)
    requires Points(Sentences(summary)) != []
    ensures var points := PyPrefix(Points(Sentences(summary)), MaxPoints);
      1 <= |points| <= MaxPoints && Split(Join(points, "\n"), '\n') == points
  {
    var all := Points(Sentences(summary));
    var points := PyPrefix(all, MaxPoints);
    PointsShape(Sentences(summary));
    assert forall i :: 0 <= i < |points| ==> points[i] in all;
    SplitJoin(points, '\n');
  }

  /** A summary without full stops or line breaks is a single sentence. */
  lemma OneSentence(summary: string)
    requires '.' !in summary && '\n' !in summary
    ensures Sentences(summary) == [summary]
  {
    NoInsertion(summary);
  }

  lemma {:induction false} NoInsertion(s: string)
    requires '.' !in s
    ensures InsertAfterEach(s, '.', '\n') == s
  {
    if s != [] {
      NoInsertion(s[1..]);
    }
  }

  /** `category_names.get(category, category)` in `generate_template`. */
  function TemplateCategory(category: string): (r: string)
    ensures CategoryOf(category).Some? ==> r == KoreanName(CategoryOf(category).value)
    ensures CategoryOf(category).None? ==> r == category
  {
    KoreanNameOf(category)
  }

  /** `generate_template` with its summary points and date already computed. */
  function Template(a: Record, points: string, dateText: string): (r: string)
    ensures StartsWith(r, "## [" + TemplateCategory(Show(a.category, "기타")) + "] " + Show(a.title, "제목 없음") + "\n")
    ensures Contains(r, "📰 출처: " + Show(a.source, "알 수 없음") + "\n")
    ensures Contains(r, "### 핵심 요약\n" + points + "\n")
    ensures EndsWith(r, "[기사 원문 보기](" + Show(a.url, "#") + ")\n\n---\n")
  {
    var head := "## [" + TemplateCategory(Show(a.category, "기타")) + "] " + Show(a.title, "제목 없음") + "\n";
    var date := "\n📅 작성일: " + dateText + "\n";
    var source := "📰 출처: " + Show(a.source, "알 수 없음") + "\n";
    var summary := "### 핵심 요약\n" + points + "\n";
    var link := "\n### 원문 링크\n";
    var tail := "[기사 원문 보기](" + Show(a.url, "#") + ")\n\n---\n";
    Layout(head, date, source, summary, link, tail);
    head + date + source + "\n" + summary + link + tail
  }

  /** Where the parts of a template sit, whatever their text. */
  lemma Layout(head: string, date: string, source: string, summary: string, link: string, tail: string)
    ensures var r := head + date + source + "\n" + summary + link + tail;
      StartsWith(r, head) && Contains(r, source) && Contains(r, summary) && EndsWith(r, tail)
  {
    var r := head + date + source + "\n" + summary + link + tail;
    assert r[..|head|] == head;
    assert r == (head + date) + source + ("\n" + summary + link + tail);
    ContainsMiddle(head + date, source, "\n" + summary + link + tail);
    assert r == (head + date + source + "\n") + summary + (link + tail);
    ContainsMiddle(head + date + source + "\n", summary, link + tail);
    assert r[|r| - |tail|..] == tail;
  }

  /** `generate_template`: the summary points of the stored summary (`None`
      counts as empty) under the article's heading. */
  method GenerateTemplate(a: Record, dateText: string) returns (r: string)
    ensures StartsWith(r, "## [" + TemplateCategory(Show(a.category, "기타")) + "] " + Show(a.title, "제목 없음") + "\n")
    ensures Contains(r, "📰 출처: " + Show(a.source, "알 수 없음") + "\n")
    ensures !a.summary.Text? || a.summary.s == "" ==> Contains(r, "### 핵심 요약\n" + NoSummary + "\n")
    ensures a.summary.Text? && a.summary.s != "" && Points(Sentences(a.summary.s)) != [] ==>
      Contains(r, "### 핵심 요약\n" + Join(PyPrefix(Points(Sentences(a.summary.s)), MaxPoints), "\n") + "\n")
    ensures a.summary.Text? && a.summary.s != "" && Points(Sentences(a.summary.s)) == [] ==>
      Contains(r, "### 핵심 요약\n" + ("- " + PyPrefix(a.summary.s, FallbackLimit)) + "\n")
    ensures EndsWith(r, "[기사 원문 보기](" + Show(a.url, "#") + ")\n\n---\n")
  {
    var summary := if a.summary.Text? then a.summary.s else "";
    var points := ExtractSummaryPoints(summary);
    r := Template(a, points, dateText);
    assert Contains(r, "### 핵심 요약\n" + points + "\n");
  }

  /** Missing title, source and URL fall back to their defaults; a missing
      category shows as "기타". */
  lemma TemplateDefaults(points: string, dateText: string)
    ensures var r := Template(Record(Absent, Absent, Absent, Absent, Absent), points, dateText);
      StartsWith(r, "## [기타] 제목 없음\n")
      && Contains(r, "📰 출처: 알 수 없음\n")
      && EndsWith(r, "[기사 원문 보기](#)\n\n---\n")
  {
    assert CategoryOf("기타").None?;
    assert "## [" + "기타" + "] " + "제목 없음" + "\n" == "## [기타] 제목 없음\n";
    assert "📰 출처: " + "알 수 없음" + "\n" == "📰 출처: 알 수 없음\n";
    assert "[기사 원문 보기](" + "#" + ")\n\n---\n" == "[기사 원문 보기](#)\n\n---\n";
  }

  /** The group key of an article in `generate_daily_digest_template`: its
      stored category, "기타" when missing. */
  function GroupKey(a: Record): (r: Field)
    ensures a.category.Absent? ==> r == Text("기타")
    ensures !a.category.Absent? ==> r == a.category
  {
    if a.category.Absent? then Text("기타") else a.category
  }

  /** The digest's heading for a category token. */
  function DigestName(category: string): string {
    match category
    case "politics" => "🏛️ 정치"
    case "economy" => "💰 경제"
    case "society" => "👥 사회"
    case "life" => "🌸 생활/문화"
    case "world" => "🌍 세계"
    case "it" => "💻 IT/과학"
    case _ => category
  }

  /** The digest headings name exactly the six categories with an icon and
      their Korean name; any other token is shown unchanged. */
  lemma DigestNameOf(c: Category, s: string)
    ensures EndsWith(DigestName(Value(c)), " " + KoreanName(c))
    ensures CategoryOf(s).None? ==> DigestName(s) == s
  {
    var name := DigestName(Value(c));
    var suffix := " " + KoreanName(c);
    assert name[|name| - |suffix|..] == suffix;
  }

  /** `category_names.get(cat, cat)` for a group key. */
  function GroupName(k: Field): string {
    match k
    case Text(s) => DigestName(s)
    case _ => "None"
  }

  /** One article line of the digest. */
  function ArticleLine(a: Record): string {
    "- [" + Show(a.title, "제목 없음") + "](" + Show(a.url, "#") + ") (" + Show(a.source, "") + ")\n"
  }

  function ArticleLines(arts: seq<Record>): (r: string)
    ensures forall i :: 0 <= i < |arts| ==> Contains(r, ArticleLine(arts[i]))
  {
    if arts == [] then ""
    else
      var init := ArticleLines(arts[..|arts| - 1]);
      var last := ArticleLine(arts[|arts| - 1]);
      assert forall i :: 0 <= i < |arts| - 1 ==> arts[..|arts| - 1][i] == arts[i];
      ContainsBoth(init, last);
      init + last
  }

  lemma ContainsBoth(a: string, b: string)
    ensures forall sub :: Contains(a, sub) ==> Contains(a + b, sub)
    ensures Contains(a + b, b)
  {
    ContainsMiddle(a, b, "");
    assert a + b + "" == a + b;
    forall sub | Contains(a, sub) ensures Contains(a + b, sub) {
      ContainsInPrefix(a, b, sub);
    }
  }

  /** One category block: its heading and its article lines. */
  function Block(e: Entry<Field, seq<Record>>): (r: string)
    ensures StartsWith(r, "\n## " + GroupName(e.key) + "\n\n")
    ensures forall i :: 0 <= i < |e.value| ==> Contains(r, ArticleLine(e.value[i]))
  {
    var head := "\n## " + GroupName(e.key) + "\n\n";
    var body := ArticleLines(e.value);
    ContainsSuffix(head, body);
    assert (head + body)[..|head|] == head;
    head + body
  }

  lemma ContainsSuffix(a: string, b: string)
    ensures forall sub :: Contains(b, sub) ==> Contains(a + b, sub)
  {
    forall sub | Contains(b, sub) ensures Contains(a + b, sub) {
      ContainsInSuffix(a, b, sub);
    }
  }

  function Blocks(groups: seq<Entry<Field, seq<Record>>>): (r: seq<string>)
    ensures |r| == |groups|
    ensures forall i :: 0 <= i < |groups| ==> r[i] == Block(groups[i])
  {
    if groups == [] then [] else [Block(groups[0])] + Blocks(groups[1..])
  }

  /** The grouping of `generate_daily_digest_template`. */
  function Groups(arts: seq<Record>): seq<Entry<Field, seq<Record>>> {
    GroupBy(arts, GroupKey)
  }

  /** The grouping keeps first-seen category order, keeps article order
      within a category and loses no article. */
  lemma GroupsCharacterised(arts: seq<Record>)
    ensures Keys(Groups(arts)) == FirstSeen(MapKeys(arts, GroupKey))
    ensures forall k :: GetList(Groups(arts), k) == Having(arts, GroupKey, k)
    ensures TotalSize(Groups(arts)) == |arts|
  {
    GroupByCharacterised(arts, GroupKey);
  }

  function DigestHeader(dateText: string): string {
    "# 📰 " + dateText + " 오늘의 뉴스\n\n> 자동 생성된 뉴스 다이제스트입니다.\n\n---\n\n"
  }

  function DigestFooter(generatedText: string): string {
    "\n---\n\n*생성 시간: " + generatedText + "*\n"
  }

  /** `generate_daily_digest_template` with the date and the generation
      time already formatted: header, one block per category in first-seen
      order, footer. */
  function DailyDigestTemplate(arts: seq<Record>, dateText: string, generatedText: string): (r: string)
    ensures StartsWith(r, DigestHeader(dateText))
    ensures EndsWith(r, DigestFooter(generatedText))
  {
    var head := DigestHeader(dateText);
    var foot := DigestFooter(generatedText);
    Ends3(head, Concat(Blocks(Groups(arts))), foot);
    head + Concat(Blocks(Groups(arts))) + foot
  }

  /** Every article of the input appears as a line of the digest. */
  lemma DigestListsEveryArticle(arts: seq<Record>, dateText: string, generatedText: string, i: nat)
    requires i < |arts|
    ensures Contains(DailyDigestTemplate(arts, dateText, generatedText), ArticleLine(arts[i]))
  {
    var groups := Groups(arts);
    var k := GroupKey(arts[i]);
    GroupsCharacterised(arts);
    HavingContains(arts, k, i);
    var members := GetList(groups, k);
    var j :| 0 <= j < |members| && members[j] == arts[i];
    assert k in Keys(groups) by {
      assert MapKeys(arts, GroupKey)[i] == k;
    }
    var g := GroupIndex(groups, k);
    assert Contains(Block(groups[g]), ArticleLine(arts[i]));
    ConcatContains(Blocks(groups), g, ArticleLine(arts[i]));
    var head := DigestHeader(dateText);
    var body := Concat(Blocks(groups));
    ContainsInSuffix(head, body, ArticleLine(arts[i]));
    ContainsBoth(head + body, DigestFooter(generatedText));
  }

  /** The position of a key in an association list, and its entry there. */
  function GroupIndex(groups: seq<Entry<Field, seq<Record>>>, k: Field): (g: nat)
    requires k in Keys(groups)
    ensures g < |groups| && groups[g].key == k && groups[g].value == GetList(groups, k)
  {
    if groups[0].key == k then 0
    else
      assert k in Keys(groups[1..]) by {
        var i :| 0 <= i < |Keys(groups)| && Keys(groups)[i] == k;
        assert Keys(groups[1..])[i - 1] == k;
      }
      1 + GroupIndex(groups[1..], k)
  }

  lemma {:induction false} HavingContains(arts: seq<Record>, k: Field, i: nat)
    requires i < |arts| && GroupKey(arts[i]) == k
    ensures arts[i] in Having(arts, GroupKey, k)
  {
    if i < |arts| - 1 {
      HavingContains(arts[..|arts| - 1], k, i);
    }
  }

  lemma {:induction false} ConcatContains(parts: seq<string>, g: nat, sub: string)
    requires g < |parts| && Contains(parts[g], sub)
    ensures Contains(Concat(parts), sub)
  {
    if g == 0 {
      ContainsBoth(parts[0], Concat(parts[1..]));
    } else {
      ConcatContains(parts[1..], g - 1, sub);
      ContainsInSuffix(parts[0], Concat(parts[1..]), sub);
    }
  }
}
