/**
 `NewsService` (backend/app/service/news_service.py): the backend's crawl
 entry points, which convert crawled articles to database records, upsert
 them, and keep a crawl log.

 The database is abstract. Upserts go to a `Store`, a table keyed by URL
 (`on_conflict="url"`). For `crawl_all_categories` the repository is a
 `Repo` that says which id the new crawl log gets and which calls fail, and
 the method returns the repository calls it made as a list of `Event`s.
 The crawler is the pure model of `NaverCrawler` over a given `Web`; the
 HTTP client is always entered by the `async with` block.
 */
module NewsService {
  import opened Wrappers
  import opened Text
  import opened Dicts
  import opened Models
  import opened NaverCrawler

  /** The API's `CategoryEnum`: the same six values as `Category`. */
  datatype CategoryEnum = ApiPolitics | ApiEconomy | ApiSociety | ApiLife | ApiWorld | ApiIt

  function ApiValue(e: CategoryEnum): string {
    match e
    case ApiPolitics => "politics"
    case ApiEconomy => "economy"
    case ApiSociety => "society"
    case ApiLife => "life"
    case ApiWorld => "world"
    case ApiIt => "it"
  }

  /** `list(CategoryEnum)`. */
  function AllEnums(): seq<CategoryEnum> {
    [ApiPolitics, ApiEconomy, ApiSociety, ApiLife, ApiWorld, ApiIt]
  }

  /** `_map_category`: the crawler category with the same value. */
  function MapCategory(e: CategoryEnum): (c: Category)
    ensures Value(c) == ApiValue(e)
  {
    match e
    case ApiPolitics => Politics
    case ApiEconomy => Economy
    case ApiSociety => Society
    case ApiLife => Life
    case ApiWorld => World
    case ApiIt => It
  }

  /** `CategoryEnum(category.value)`: the API category with the same value. */
  function EnumOf(c: Category): (e: CategoryEnum)
    ensures ApiValue(e) == Value(c)
  {
    match c
    case Politics => ApiPolitics
    case Economy => ApiEconomy
    case Society => ApiSociety
    case Life => ApiLife
    case World => ApiWorld
    case It => ApiIt
  }

  /** `_map_category` and `EnumOf` are inverse bijections. */
  lemma MapCategoryBijective(e: CategoryEnum, c: Category)
    ensures EnumOf(MapCategory(e)) == e
    ensures MapCategory(EnumOf(c)) == c
    ensures MapCategory(e) == c <==> e == EnumOf(c)
  {
  }

  /** `_map_category` over `list(CategoryEnum)` gives `list(Category)`. */
  lemma MapAllEnums()
    ensures MapAll(AllEnums()) == AllCategories()
  {
    var es := AllEnums();
    assert es[..5] == [ApiPolitics, ApiEconomy, ApiSociety, ApiLife, ApiWorld];
    assert es[..5][..4] == [ApiPolitics, ApiEconomy, ApiSociety, ApiLife];
    assert es[..5][..4][..3] == [ApiPolitics, ApiEconomy, ApiSociety];
    assert es[..5][..4][..3][..2] == [ApiPolitics, ApiEconomy];
    assert es[..5][..4][..3][..2][..1] == [ApiPolitics];
    assert es[..5][..4][..3][..2][..1][..0] == [];
  }

  /** `[self._map_category(c) for c in categories]`. */
  function MapAll(es: seq<CategoryEnum>): (r: seq<Category>)
    ensures |r| == |es| && forall i :: 0 <= i < |es| ==> Value(r[i]) == ApiValue(es[i])
  {
    if es == [] then [] else MapAll(es[..|es| - 1]) + [MapCategory(es[|es| - 1])]
  }

  /** `ArticleCreate`: the record written to the database. */
  datatype ArticleCreate = ArticleCreate(
    title: string,
    url: string,
    summary: string,
    content: string,
    category: CategoryEnum,
    source: string,
    author: string,
    imageUrl: Option<string>,
    publishedAt: Option<DateTime>)

  /** `_article_to_create`: every field carried over, the category by value. */
  function ArticleToCreate(a: Article): (r: ArticleCreate)
    ensures r.title == a.title && r.url == a.url && r.summary == a.summary && r.content == a.content
    ensures r.source == a.source && r.author == a.author
    ensures r.imageUrl == a.imageUrl && r.publishedAt == a.publishedAt
    ensures ApiValue(r.category) == Value(a.category) && MapCategory(r.category) == a.category
  {
    ArticleCreate(a.title, a.url, a.summary, a.content, EnumOf(a.category), a.source, a.author,
                  a.imageUrl, a.publishedAt)
  }

  /** `[self._article_to_create(a) for a in articles]`. */
  function ToCreates(arts: seq<Article>): (r: seq<ArticleCreate>)
    ensures |r| == |arts| && forall i :: 0 <= i < |arts| ==> r[i] == ArticleToCreate(arts[i])
  {
    if arts == [] then [] else ToCreates(arts[..|arts| - 1]) + [ArticleToCreate(arts[|arts| - 1])]
  }

  // ---------------------------------------------------------------------
  // The article table.

  /** The `news_articles` table: one record per URL. */
  type Store = seq<Entry<string, ArticleCreate>>

  /** `upsert(data, on_conflict="url")` of one record. */
  function Upsert(s: Store, a: ArticleCreate): (r: Store)
    ensures Get(r, a.url) == Some(a)
    ensures forall u :: u != a.url ==> Get(r, u) == Get(s, u)
  {
    Put(s, a.url, a)
  }

  /** Upserting `recs` one after another. */
  function UpsertAll(s: Store, recs: seq<ArticleCreate>): Store {
    if recs == [] then s else Upsert(UpsertAll(s, recs[..|recs| - 1]), recs[|recs| - 1])
  }

  /** The last of `recs` with URL `u`, if any. */
  function LastWithUrl(recs: seq<ArticleCreate>, u: string): (r: Option<ArticleCreate>)
    ensures r.Some? ==> r.value in recs && r.value.url == u
    ensures r.None? <==> forall i :: 0 <= i < |recs| ==> recs[i].url != u
    ensures r.Some? ==> exists i :: 0 <= i < |recs| && recs[i] == r.value
                                  && forall j :: i < j < |recs| ==> recs[j].url != u
  {
    if recs == [] then None
    else if recs[|recs| - 1].url == u then Some(recs[|recs| - 1])
    else
      var r := LastWithUrl(recs[..|recs| - 1], u);
      assert forall i :: 0 <= i < |recs| - 1 ==> recs[..|recs| - 1][i] == recs[i];
      r
  }

  /** After upserting `recs`, a URL holds the last record with that URL
      (last write wins), or what it held before when no record has it. */
  lemma {:induction false} UpsertAllGet(s: Store, recs: seq<ArticleCreate>, u: string)
    ensures Get(UpsertAll(s, recs), u) ==
      match LastWithUrl(recs, u) case Some(a) => Some(a) case None => Get(s, u)
  {
    if recs != [] {
      UpsertAllGet(s, recs[..|recs| - 1], u);
    }
  }

  /** Upserting the same records twice leaves every URL as once. */
  lemma UpsertAllIdempotent(s: Store, recs: seq<ArticleCreate>, u: string)
    ensures Get(UpsertAll(UpsertAll(s, recs), recs), u) == Get(UpsertAll(s, recs), u)
  {
    UpsertAllGet(s, recs, u);
    UpsertAllGet(UpsertAll(s, recs), recs, u);
  }

  /** The first of the upserts `from` to `n - 1` that raises, where
      `fails(k)` is the error the `k`-th upsert raises, if any. */
  function FirstRaise(fails: nat -> Option<string>, n: nat, from: nat): (r: Option<nat>)
    requires from <= n
    ensures r.Some? ==> from <= r.value < n && fails(r.value).Some?
    ensures forall j :: from <= j < r.GetOr(n) ==> fails(j).None?
    decreases n - from
  {
    if from == n then None
    else if fails(from).Some? then Some(from)
    else FirstRaise(fails, n, from + 1)
  }

  /** How upserting `recs` one by one ends, when the `k`-th upsert raises
      `fails(k)`: all stored and returned, or the first error raised with the
      upserts before it applied. */
  predicate UpsertedUntil(store: Store, recs: seq<ArticleCreate>, fails: nat -> Option<string>,
                          outcome: Result<seq<ArticleCreate>, string>, store': Store)
  {
    var stop := FirstRaise(fails, |recs|, 0);
    && (stop.None? ==> outcome == Success(recs) && store' == UpsertAll(store, recs))
    && (stop.Some? ==> outcome == Failure(fails(stop.value).value) && store' == UpsertAll(store, recs[..stop.value]))
  }

  /** `NewsService.crawl_category`: crawl one category, then upsert each
      article in order, collecting one result per article. The result of an
      upsert is the record written. When the `k`-th upsert raises, its error
      propagates and the `k` upserts before it stay applied. */
  method CrawlCategory(web: Web, store: Store, category: CategoryEnum, maxArticles: int, includeContent: bool,
                       upsertFailure: nat -> Option<string>)
    returns (outcome: Result<seq<ArticleCreate>, string>, store': Store)
    ensures UpsertedUntil(store, ToCreates(NaverCrawler.CrawlCategory(web, MapCategory(category), maxArticles, includeContent)),
                          upsertFailure, outcome, store')
  {
    var articles := NaverCrawler.CrawlCategory(web, MapCategory(category), maxArticles, includeContent);
    outcome, store' := UpsertEach(store, articles, upsertFailure);
  }

  /** The saving loop of `crawl_category`. */
  method UpsertEach(store: Store, articles: seq<Article>, fails: nat -> Option<string>)
    returns (outcome: Result<seq<ArticleCreate>, string>, store': Store)
    ensures UpsertedUntil(store, ToCreates(articles), fails, outcome, store')
  {
    var results := [];
    store' := store;
    var i := 0;
    while i < |articles|
      invariant 0 <= i <= |articles|
      invariant results == ToCreates(articles[..i])
      invariant store' == UpsertAll(store, results)
      invariant FirstRaise(fails, |articles|, 0) == FirstRaise(fails, |articles|, i)
    {
      var record := ArticleToCreate(articles[i]);
      if fails(i).Some? {
        UpsertedStop(store, articles, fails, i);
        return Failure(fails(i).value), store';
      }
      FirstRaiseSkip(fails, |articles|, i);
      store' := Upsert(store', record);
      ToCreatesSnoc(articles, i);
      UpsertAllSnoc(store, results, record);
      results := results + [record];
      i := i + 1;
    }
    UpsertedAll(store, articles, fails, i);
    outcome := Success(results);
  }

  lemma FirstRaiseSkip(fails: nat -> Option<string>, n: nat, i: nat)
    requires i < n && fails(i).None?
    ensures FirstRaise(fails, n, i) == FirstRaise(fails, n, i + 1)
  {
  }

  lemma UpsertedStop(store: Store, articles: seq<Article>, fails: nat -> Option<string>, i: nat)
    requires i < |articles| && fails(i).Some?
    requires FirstRaise(fails, |articles|, 0) == FirstRaise(fails, |articles|, i)
    ensures UpsertedUntil(store, ToCreates(articles), fails, Failure(fails(i).value), UpsertAll(store, ToCreates(articles[..i])))
  {
    var recs := ToCreates(articles);
    assert FirstRaise(fails, |recs|, 0) == Some(i);
    ToCreatesPrefix(articles, i);
  }

  lemma UpsertedAll(store: Store, articles: seq<Article>, fails: nat -> Option<string>, i: nat)
    requires i == |articles|
    requires FirstRaise(fails, |articles|, 0) == FirstRaise(fails, |articles|, i)
    ensures UpsertedUntil(store, ToCreates(articles), fails, Success(ToCreates(articles[..i])),
                          UpsertAll(store, ToCreates(articles[..i])))
  {
    assert articles[..i] == articles;
  }

  lemma ToCreatesPrefix(arts: seq<Article>, k: nat)
    requires k <= |arts|
    ensures ToCreates(arts)[..k] == ToCreates(arts[..k])
  {
  }

  lemma ToCreatesSnoc(arts: seq<Article>, i: nat)
    requires i < |arts|
    ensures ToCreates(arts[..i + 1]) == ToCreates(arts[..i]) + [ArticleToCreate(arts[i])]
  {
    assert arts[..i + 1][..i] == arts[..i];
  }

  lemma UpsertAllSnoc(s: Store, recs: seq<ArticleCreate>, a: ArticleCreate)
    ensures UpsertAll(s, recs + [a]) == Upsert(UpsertAll(s, recs), a)
  {
    assert (recs + [a])[..|recs|] == recs;
  }

  // ---------------------------------------------------------------------
  // The crawl-all run and its log.

  datatype LogStatus = Succeeded | Failed

  /** The repository calls `crawl_all_categories` makes, in order. */
  datatype Event =
    | CreateLog
    | Crawl(categories: seq<Category>)
    | BulkUpsert(records: seq<ArticleCreate>)
    | UpdateLog(id: string, total: int, status: LogStatus, error: Option<string>)

  /** The repository's behaviour during one run: the `id` of the created log
      (`None` when the row has none), the error the bulk upsert of the
      `k`-th category raises, if any, and the error the success update of
      the log raises, if any. A bulk upsert of no records returns before
      reaching the database and never fails. */
  datatype Repo = Repo(logId: Option<string>, bulkFailure: nat -> Option<string>, updateFailure: Option<string>)

  /** `if log_id:` — a missing or empty id is falsy. */
  predicate HasId(repo: Repo) {
    repo.logId.Some? && repo.logId.value != ""
  }

  datatype RunOutcome = Completed(counts: seq<Entry<string, int>>) | Raised(message: string)

  /** The error the upsert of entry `k` raises. */
  function BulkError(byCat: seq<Entry<string, seq<Article>>>, repo: Repo, k: nat): Option<string>
    requires k < |byCat|
  {
    if byCat[k].value == [] then None else repo.bulkFailure(k)
  }

  /** The first entry at or after `from` whose upsert fails. */
  function FirstFailure(byCat: seq<Entry<string, seq<Article>>>, repo: Repo, from: nat): (r: Option<nat>)
    requires from <= |byCat|
    ensures r.Some? ==> from <= r.value < |byCat| && BulkError(byCat, repo, r.value).Some?
    ensures r.Some? ==> forall j :: from <= j < r.value ==> BulkError(byCat, repo, j).None?
    ensures r.None? ==> forall j :: from <= j < |byCat| ==> BulkError(byCat, repo, j).None?
    decreases |byCat| - from
  {
    if from == |byCat| then None
    else if BulkError(byCat, repo, from).Some? then Some(from)
    else FirstFailure(byCat, repo, from + 1)
  }

  /** `{category: len(articles)}` for the given entries. */
  function Counts(es: seq<Entry<string, seq<Article>>>): (r: seq<Entry<string, int>>)
    ensures |r| == |es|
  {
    if es == [] then [] else Counts(es[..|es| - 1]) + [Entry(es[|es| - 1].key, |es[|es| - 1].value|)]
  }

  /** The counts have the categories of the entries, in the same order,
      each with the number of its articles. */
  lemma {:induction false} CountsCharacterised(es: seq<Entry<string, seq<Article>>>)
    ensures Keys(Counts(es)) == Keys(es)
    ensures forall i :: 0 <= i < |es| ==> Counts(es)[i] == Entry(es[i].key, |es[i].value|)
  {
    var r := Counts(es);
    if es != [] {
      var init := es[..|es| - 1];
      CountsCharacterised(init);
      assert r == Counts(init) + [Entry(es[|es| - 1].key, |es[|es| - 1].value|)];
      forall i | 0 <= i < |es| ensures r[i] == Entry(es[i].key, |es[i].value|) {
        if i < |init| {
          assert r[i] == Counts(init)[i] && init[i] == es[i];
        }
      }
    }
    assert forall i :: 0 <= i < |es| ==> Keys(r)[i] == Keys(es)[i];
  }

  /** The sum of a dict's integer values. */
  function SumValues(es: seq<Entry<string, int>>): int {
    if es == [] then 0 else SumValues(es[..|es| - 1]) + es[|es| - 1].value
  }

  lemma TotalSizeSnoc<V>(es: seq<Entry<string, seq<V>>>, e: Entry<string, seq<V>>)
    ensures TotalSize(es + [e]) == TotalSize(es) + |e.value|
  {
    if es != [] {
      assert (es + [e])[1..] == es[1..] + [e];
      TotalSizeSnoc(es[1..], e);
    }
  }

  /** The reported counts add up to the number of articles in the entries:
      `total_count` always equals the sum of `results`. */
  lemma {:induction false} CountsTotal(es: seq<Entry<string, seq<Article>>>)
    ensures SumValues(Counts(es)) == TotalSize(es)
  {
    if es != [] {
      var init := es[..|es| - 1];
      CountsTotal(init);
      var r := Counts(es);
      assert r[..|es| - 1] == Counts(init);
      TotalSizeSnoc(init, es[|es| - 1]);
      assert init + [es[|es| - 1]] == es;
    }
  }

  /** Counting one more entry of a dict with distinct keys appends its
      count and grows the total by its size. */
  lemma CountsStep(es: seq<Entry<string, seq<Article>>>, i: nat)
    requires i < |es| && Distinct(Keys(es))
    ensures Put(Counts(es[..i]), es[i].key, |es[i].value|) == Counts(es[..i + 1])
    ensures TotalSize(es[..i + 1]) == TotalSize(es[..i]) + |es[i].value|
  {
    var prefix := es[..i];
    var next := es[..i + 1];
    var e := Entry(es[i].key, |es[i].value|);
    FreshKey(es, i);
    CountsCharacterised(prefix);
    PutFresh(Counts(prefix), es[i].key, |es[i].value|);
    assert next[..|next| - 1] == prefix && next[|next| - 1] == es[i];
    assert Counts(next) == Counts(prefix) + [e];
    TotalSizeStep(es, i);
  }

  /** With distinct keys, the `i`-th key is not among the earlier ones. */
  lemma FreshKey<V>(es: seq<Entry<string, V>>, i: nat)
    requires i < |es| && Distinct(Keys(es))
    ensures es[i].key !in Keys(es[..i])
  {
    var ks := Keys(es[..i]);
    forall j | 0 <= j < i ensures ks[j] != es[i].key {
      assert ks[j] == Keys(es)[j];
    }
  }

  lemma TotalSizeStep<V>(es: seq<Entry<string, seq<V>>>, i: nat)
    requires i < |es|
    ensures TotalSize(es[..i + 1]) == TotalSize(es[..i]) + |es[i].value|
  {
    assert es[..i + 1] == es[..i] + [es[i]];
    TotalSizeSnoc(es[..i], es[i]);
  }

  /** One bulk upsert call per entry, in order. */
  function BulkCalls(es: seq<Entry<string, seq<Article>>>): (r: seq<Event>)
    ensures |r| == |es| && forall i :: 0 <= i < |r| ==> r[i].BulkUpsert?
  {
    if es == [] then [] else BulkCalls(es[..|es| - 1]) + [BulkUpsert(ToCreates(es[|es| - 1].value))]
  }

  lemma BulkCallsStep(es: seq<Entry<string, seq<Article>>>, i: nat)
    requires i < |es|
    ensures BulkCalls(es[..i + 1]) == BulkCalls(es[..i]) + [BulkUpsert(ToCreates(es[i].value))]
  {
    assert es[..i + 1][..i] == es[..i];
  }

  /** The saving loop of `crawl_all_categories`: one bulk upsert per
      category in dict order, counting each category's articles once its
      upsert has returned, until an upsert raises. */
  method SaveAll(byCat: seq<Entry<string, seq<Article>>>, repo: Repo)
    returns (failedAt: Option<nat>, results: seq<Entry<string, int>>, total: int, upserts: seq<Event>)
    requires Distinct(Keys(byCat))
    ensures failedAt == FirstFailure(byCat, repo, 0)
    ensures var n := if failedAt.Some? then failedAt.value else |byCat|;
      && n <= |byCat|
      && results == Counts(byCat[..n])
      && total == TotalSize(byCat[..n])
      && upserts == BulkCalls(byCat[..if failedAt.Some? then n + 1 else n])
  {
    total := 0;
    results := [];
    upserts := [];
    failedAt := None;
    var i := 0;
    while i < |byCat|
      invariant 0 <= i <= |byCat|
      invariant FirstFailure(byCat, repo, 0) == FirstFailure(byCat, repo, i)
      invariant results == Counts(byCat[..i])
      invariant total == TotalSize(byCat[..i])
      invariant upserts == BulkCalls(byCat[..i])
    {
      BulkCallsStep(byCat, i);
      upserts := upserts + [BulkUpsert(ToCreates(byCat[i].value))];
      if BulkError(byCat, repo, i).Some? {
        assert FirstFailure(byCat, repo, i) == Some(i);
        failedAt := Some(i);
        return;
      }
      assert FirstFailure(byCat, repo, i) == FirstFailure(byCat, repo, i + 1);
      CountsStep(byCat, i);
      results := Put(results, byCat[i].key, |byCat[i].value|);
      total := total + |byCat[i].value|;
      i := i + 1;
    }
    assert byCat[..i] == byCat;
  }

  /** The dict `crawl_all_categories` of the crawler returns. */
  function Crawled(web: Web, categories: Option<seq<CategoryEnum>>, maxPer: int, includeContent: bool)
    : seq<Entry<string, seq<Article>>>
  {
    NaverCrawler.CrawlAllCategories(web, Some(MapAll(categories.GetOr(AllEnums()))), maxPer, includeContent)
  }

  /** The crawler's result is a dict: its keys are distinct. */
  lemma CrawledKeysDistinct(web: Web, categories: Option<seq<CategoryEnum>>, maxPer: int, includeContent: bool)
    ensures Distinct(Keys(Crawled(web, categories, maxPer, includeContent)))
  {
    CrawlEachKeys(web, MapAll(categories.GetOr(AllEnums())), maxPer, includeContent);
  }

  /** What a run over the crawled dict `byCat` does after crawling. The
      upserts run in dict order up to and including the first one that
      raises. That error is re-raised, and logged as a failure with the total
      saved before it. Without a failure, success is logged with the full
      total and the per-category counts are returned. A success update that
      raises is logged as a failure and re-raised. Without a log id no log
      update happens. */
  predicate RunRecorded(byCat: seq<Entry<string, seq<Article>>>, repo: Repo, outcome: RunOutcome, events: seq<Event>) {
    && (outcome.Completed? ==> SumValues(outcome.counts) == TotalSize(byCat))
    && match FirstFailure(byCat, repo, 0)
       case Some(k) =>
         var err := BulkError(byCat, repo, k).value;
         && outcome == Raised(err)
         && events == BulkCalls(byCat[..k + 1])
                      + (if HasId(repo) then [UpdateLog(repo.logId.value, TotalSize(byCat[..k]), Failed, Some(err))] else [])
       case None =>
         if !HasId(repo) then
           outcome == Completed(Counts(byCat)) && events == BulkCalls(byCat)
         else
           var success := UpdateLog(repo.logId.value, TotalSize(byCat), Succeeded, None);
           match repo.updateFailure
           case None =>
             outcome == Completed(Counts(byCat)) && events == BulkCalls(byCat) + [success]
           case Some(err) =>
             && outcome == Raised(err)
             && events == BulkCalls(byCat) + [success, UpdateLog(repo.logId.value, TotalSize(byCat), Failed, Some(err))]
  }

  /** A run whose log row has no id updates no log, whatever happens. */
  lemma RunWithoutIdNeverLogs(byCat: seq<Entry<string, seq<Article>>>, repo: Repo, outcome: RunOutcome, events: seq<Event>)
    requires RunRecorded(byCat, repo, outcome, events) && !HasId(repo)
    ensures forall i :: 0 <= i < |events| ==> events[i].BulkUpsert?
  {
    match FirstFailure(byCat, repo, 0)
    case Some(k) =>
      assert events == BulkCalls(byCat[..k + 1]) + [];
    case None =>
  }

  /** Every run with a log id ends by logging exactly one final status: a
      failure when the run raised, success when it completed, and the
      logged total never exceeds what was crawled. */
  lemma RunLogsFinalStatus(byCat: seq<Entry<string, seq<Article>>>, repo: Repo, outcome: RunOutcome, events: seq<Event>)
    requires RunRecorded(byCat, repo, outcome, events) && HasId(repo)
    ensures |events| > 0 && events[|events| - 1].UpdateLog?
    ensures events[|events| - 1].status == (if outcome.Raised? then Failed else Succeeded)
    ensures outcome.Raised? ==> events[|events| - 1].error == Some(outcome.message)
    ensures 0 <= events[|events| - 1].total <= TotalSize(byCat)
  {
    match FirstFailure(byCat, repo, 0)
    case Some(k) =>
      TotalSizePrefix(byCat, k);
    case None =>
  }

  /** A prefix of a dict holds no more articles than the whole. */
  lemma {:induction false} TotalSizePrefix<V>(es: seq<Entry<string, seq<V>>>, k: nat)
    requires k <= |es|
    ensures TotalSize(es[..k]) <= TotalSize(es)
    decreases |es| - k
  {
    if k < |es| {
      TotalSizePrefix(es, k + 1);
      TotalSizeStep(es, k);
    } else {
      assert es[..k] == es;
    }
  }

  /** Everything `crawl_all_categories` does once the crawl has returned. */
  method RecordRun(byCat: seq<Entry<string, seq<Article>>>, repo: Repo) returns (outcome: RunOutcome, events: seq<Event>)
    requires Distinct(Keys(byCat))
    ensures RunRecorded(byCat, repo, outcome, events)
  {
    var failedAt, results, total, upserts := SaveAll(byCat, repo);
    events := upserts;
    var failure: Option<string> := None;
    if failedAt.Some? {
      failure := BulkError(byCat, repo, failedAt.value);
    } else {
      assert byCat[..|byCat|] == byCat;
      CountsTotal(byCat);
      if HasId(repo) {
        events := events + [UpdateLog(repo.logId.value, total, Succeeded, None)];
        failure := repo.updateFailure;
      }
    }
    if failure.Some? {
      if HasId(repo) {
        events := events + [UpdateLog(repo.logId.value, total, Failed, Some(failure.value))];
      }
      outcome := Raised(failure.value);
    } else {
      outcome := Completed(results);
    }
  }

  /** `NewsService.crawl_all_categories`: the crawl log is created before
      anything is crawled, then every requested category (all six by
      default) is crawled and saved. `crawlError` is the exception the crawl
      itself raises, if any: it is logged as a failure with a total of 0 and
      re-raised, and nothing is saved. */
  method CrawlAllCategories(web: Web, repo: Repo, categories: Option<seq<CategoryEnum>>, maxPer: int, includeContent: bool,
                            crawlError: Option<string>)
    returns (outcome: RunOutcome, events: seq<Event>)
    ensures |events| >= 2 && events[0] == CreateLog
    ensures events[1] == Crawl(MapAll(categories.GetOr(AllEnums())))
    ensures categories.None? ==> events[1] == Crawl(AllCategories())
    ensures crawlError.Some? ==>
      && outcome == Raised(crawlError.value)
      && events[2..] == (if HasId(repo) then [UpdateLog(repo.logId.value, 0, Failed, Some(crawlError.value))] else [])
    ensures crawlError.None? ==> RunRecorded(Crawled(web, categories, maxPer, includeContent), repo, outcome, events[2..])
  {
    var cats := categories.GetOr(AllEnums());
    if categories.None? {
      MapAllEnums();
    }
    var srcCategories := MapAll(cats);
    var rest;
    if crawlError.Some? {
      rest := if HasId(repo) then [UpdateLog(repo.logId.value, 0, Failed, Some(crawlError.value))] else [];
      outcome := Raised(crawlError.value);
    } else {
      var byCat := Crawled(web, categories, maxPer, includeContent);
      CrawledKeysDistinct(web, categories, maxPer, includeContent);
      outcome, rest := RecordRun(byCat, repo);
    }
    events := [CreateLog, Crawl(srcCategories)] + rest;
    assert events[2..] == rest;
  }
}
