/**
 The crawler's data model (src/models/article.py): the closed set of news
 categories with their Korean display names, the `Article` record and the
 `DailyDigest` that groups articles by category value.
 */
module Models {
  import opened Wrappers
  import opened Dicts

  /** `Category`: exactly six news sections. */
  datatype Category = Politics | Economy | Society | Life | World | It

  /** The lower-case token of a category (`Category.value`). */
  function Value(c: Category): string {
    match c
    case Politics => "politics"
    case Economy => "economy"
    case Society => "society"
    case Life => "life"
    case World => "world"
    case It => "it"
  }

  /** `Category.korean_name`. */
  function KoreanName(c: Category): string {
    match c
    case Politics => "정치"
    case Economy => "경제"
    case Society => "사회"
    case Life => "생활/문화"
    case World => "세계"
    case It => "IT/과학"
  }

  /** `Category(s)`: the category whose value is `s`; `None` where Python raises `ValueError`. */
  function CategoryOf(s: string): (r: Option<Category>)
    ensures r.Some? ==> Value(r.value) == s
  {
    match s
    case "politics" => Some(Politics)
    case "economy" => Some(Economy)
    case "society" => Some(Society)
    case "life" => Some(Life)
    case "world" => Some(World)
    case "it" => Some(It)
    case _ => None
  }

  /** Value and `CategoryOf` are inverse: every category is found from its
      own value, and no other text names a category. */
  lemma CategoryOfValue(c: Category, s: string)
    ensures CategoryOf(Value(c)) == Some(c)
    ensures CategoryOf(s) == Some(c) <==> s == Value(c)
  {
  }

  /** The display name for a category token, or the token itself when it
      names no category (`names.get(value, value)`). */
  function KoreanNameOf(s: string): (r: string)
    ensures CategoryOf(s).Some? ==> r == KoreanName(CategoryOf(s).value)
    ensures CategoryOf(s).None? ==> r == s
  {
    match CategoryOf(s)
    case Some(c) => KoreanName(c)
    case None => s
  }

  /** The display name of a category's value is its Korean name, distinct
      categories show distinct names, and a token that names no category is
      shown unchanged. */
  lemma KoreanNameOfValue(c: Category, d: Category, s: string)
    ensures KoreanNameOf(Value(c)) == KoreanName(c)
    ensures c != d ==> KoreanNameOf(Value(c)) != KoreanNameOf(Value(d))
    ensures (forall e: Category :: s != Value(e)) ==> KoreanNameOf(s) == s
  {
    CategoryOfValue(c, Value(c));
    CategoryOfValue(d, Value(d));
    if CategoryOf(s).Some? {
      CategoryOfValue(CategoryOf(s).value, s);
    }
  }

  /** `list(Category)`, in declaration order. */
  function AllCategories(): (r: seq<Category>)
    ensures |r| == 6 && Distinct(r)
  {
    [Politics, Economy, Society, Life, World, It]
  }

  /** Every category is listed by `AllCategories`. */
  lemma AllCategoriesComplete(c: Category)
    ensures c in AllCategories()
  {
    var r := AllCategories();
    match c
    case Politics => assert r[0] == c;
    case Economy => assert r[1] == c;
    case Society => assert r[2] == c;
    case Life => assert r[3] == c;
    case World => assert r[4] == c;
    case It => assert r[5] == c;
  }

  /** Distinct categories have distinct values and distinct Korean names. */
  lemma CategoryNamesDistinct(c: Category, d: Category)
    requires c != d
    ensures Value(c) != Value(d) && KoreanName(c) != KoreanName(d)
  {
  }

  /** A `datetime` without seconds: the crawler never produces any. */
  datatype DateTime = DateTime(year: int, month: int, day: int, hour: int, minute: int)

  /** `Article`. `crawled_at` is not modelled: it is the process clock. */
  datatype Article = Article(
    title: string,
    url: string,
    summary: string,
    content: string,
    category: Category,
    source: string,
    author: string,
    publishedAt: Option<DateTime>,
    imageUrl: Option<string>)

  /** `Article(title=..., url=..., category=..., summary=...)`: every other
      field takes its declared default. */
  function BasicArticle(title: string, url: string, category: Category, summary: string): Article {
    Article(title, url, summary, "", category, "", "", None, None)
  }

  /** `DailyDigest` without its `date` (the clock): a dict from category value
      to the articles of that category, and a stored total. */
  datatype DailyDigest = DailyDigest(categories: seq<Entry<string, seq<Article>>>, totalCount: int)

  const EmptyDigest := DailyDigest([], 0)

  /** `DailyDigest.add_article`: append to the article's category list
      (created when absent) and recompute the total from all lists. */
  function AddArticle(d: DailyDigest, a: Article): (r: DailyDigest)
    ensures GetList(r.categories, Value(a.category)) == GetList(d.categories, Value(a.category)) + [a]
    ensures forall k :: k != Value(a.category) ==> GetList(r.categories, k) == GetList(d.categories, k)
    ensures Keys(r.categories) ==
      if Value(a.category) in Keys(d.categories) then Keys(d.categories)
      else Keys(d.categories) + [Value(a.category)]
    ensures r.totalCount == TotalSize(r.categories)
    ensures d.totalCount == TotalSize(d.categories) ==> r.totalCount == d.totalCount + 1
  {
    var categories := AppendTo(d.categories, Value(a.category), a);
    AppendToSize(d.categories, Value(a.category), a);
    DailyDigest(categories, TotalSize(categories))
  }

  /** `DailyDigest.get_articles_by_category` with a string argument: `[]` for an unseen category. */
  function ArticlesByValue(d: DailyDigest, category: string): (r: seq<Article>)
    ensures category !in Keys(d.categories) ==> r == []
  {
    GetList(d.categories, category)
  }

  /** `DailyDigest.get_articles_by_category` with a `Category` argument: the same list as its value. */
  function ArticlesByCategory(d: DailyDigest, c: Category): seq<Article> {
    ArticlesByValue(d, Value(c))
  }

  /** Adding `arts` one after another. */
  function AddAll(d: DailyDigest, arts: seq<Article>): DailyDigest {
    if arts == [] then d else AddArticle(AddAll(d, arts[..|arts| - 1]), arts[|arts| - 1])
  }

  function CategoryValueOf(a: Article): string {
    Value(a.category)
  }

  /** A digest filled from empty holds, under each category value, exactly
      the articles of that category in insertion order; its keys are the
      categories in first-seen order and its total is the number of articles. */
  lemma {:induction false} DigestOfArticles(arts: seq<Article>)
    ensures AddAll(EmptyDigest, arts).categories == GroupBy(arts, CategoryValueOf)
    ensures forall k :: ArticlesByValue(AddAll(EmptyDigest, arts), k) == Having(arts, CategoryValueOf, k)
    ensures Keys(AddAll(EmptyDigest, arts).categories) == FirstSeen(MapKeys(arts, CategoryValueOf))
    ensures AddAll(EmptyDigest, arts).totalCount == |arts|
  {
    if arts != [] {
      DigestOfArticles(arts[..|arts| - 1]);
    }
    GroupByCharacterised(arts, CategoryValueOf);
  }

  /** In a digest filled from empty, the list of a category holds exactly
      the articles of that category, in insertion order. */
  lemma DigestCategoryArticles(arts: seq<Article>, c: Category)
    ensures ArticlesByCategory(AddAll(EmptyDigest, arts), c) == Having(arts, CategoryValueOf, Value(c))
    ensures forall a :: a in ArticlesByCategory(AddAll(EmptyDigest, arts), c) ==> a.category == c
    ensures forall i :: 0 <= i < |arts| && arts[i].category == c ==> arts[i] in ArticlesByCategory(AddAll(EmptyDigest, arts), c)
  {
    var list := Having(arts, CategoryValueOf, Value(c));
    DigestOfArticles(arts);
    assert ArticlesByCategory(AddAll(EmptyDigest, arts), c) == list;
    HavingKeyed(arts, CategoryValueOf, Value(c));
    forall a | a in list ensures a.category == c {
      ValueInjective(a.category, c);
    }
  }

  /** Two categories share a value only when they are the same category. */
  lemma ValueInjective(c: Category, d: Category)
    ensures Value(c) == Value(d) <==> c == d
  {
    CategoryOfValue(c, Value(d));
    CategoryOfValue(d, Value(d));
  }
}
