/** The article list page's loader: a read-only query over the article
    table (search and category filter, newest first, child ids) plus the
    distinct categories of the whole table. */
module Index {
  import opened Model
  import opened Text
  import opened Ordering
  import opened Db

  /** `search` matches when it is empty or occurs, ignoring case, in the
      title or the category. */
  predicate MatchesSearch(a: Article, search: string) {
    search == "" || ContainsIgnoreCase(a.title, search) || ContainsIgnoreCase(a.category, search)
  }

  /** The search term's letter case does not matter. */
  lemma SearchIgnoresCase(a: Article, search: string)
    ensures MatchesSearch(a, search) == MatchesSearch(a, Lower(search))
  {
    LowerIdempotent(search);
  }

  /** `filter` "all" keeps everything; any other value is an exact category. */
  predicate MatchesFilter(a: Article, filter: string) {
    filter == "all" || a.category == filter
  }

  /** The `where` clause of the query, in table order: every matching row
      as often as the table holds it, and nothing else. */
  function Where(t: seq<Article>, search: string, filter: string): (r: seq<Article>)
    ensures forall a :: a in r <==> a in t && MatchesSearch(a, search) && MatchesFilter(a, filter)
    ensures forall a {:trigger multiset(r)[a]} ::
              multiset(r)[a] == if MatchesSearch(a, search) && MatchesFilter(a, filter) then multiset(t)[a] else 0
  {
    if t == [] then []
    else
      assert t == [t[0]] + t[1..];
      var rest := Where(t[1..], search, filter);
      if MatchesSearch(t[0], search) && MatchesFilter(t[0], filter) then [t[0]] + rest else rest
  }

  /** `orderBy: { updatedAt: "desc" }`. */
  predicate NewestFirst(a: Article, b: Article) {
    a.updatedAt >= b.updatedAt
  }

  /** `include: { children: { select: { id: true } } }`: the ids of the
      articles whose parent is `id`. */
  function ChildIds(t: seq<Article>, id: string): (r: seq<string>)
    ensures forall x :: x in r <==> exists a :: a in t && a.parentId == Some(id) && a.id == x
  {
    if t == [] then []
    else (if t[0].parentId == Some(id) then [t[0].id] else []) + ChildIds(t[1..], id)
  }

  /** The articles of t whose parent is `id`. */
  function ChildSet(t: seq<Article>, id: string): set<Article> {
    set a | a in t && a.parentId == Some(id)
  }

  /** With unique ids, the number of child ids is the number of child articles. */
  lemma {:induction false} ChildCount(t: seq<Article>, id: string)
    requires IdsUnique(t)
    ensures |ChildIds(t, id)| == |ChildSet(t, id)|
  {
    if t != [] {
      var rest := t[1..];
      assert IdsUnique(rest);
      ChildCount(rest, id);
      assert t[0] !in rest;
      if t[0].parentId == Some(id) {
        assert ChildSet(t, id) == {t[0]} + ChildSet(rest, id);
      } else {
        assert ChildSet(t, id) == ChildSet(rest, id);
      }
    }
  }

  /** `findMany({ distinct: ["category"] })`: each category once. */
  function DistinctCategories(t: seq<Article>): (r: seq<string>)
    ensures forall c :: c in r <==> exists a :: a in t && a.category == c
    ensures forall i, j :: 0 <= i < j < |r| ==> r[i] != r[j]
  {
    if t == [] then []
    else
      var rest := DistinctCategories(t[1..]);
      if t[0].category in rest then rest else [t[0].category] + rest
  }

  /** The loader: `search || ""`, `filter || "all"`, then the query. */
  function Loader(t: seq<Article>, searchParam: Option<string>, filterParam: Option<string>): Response {
    var rows := SortBy(Where(t, OrElse(searchParam, ""), OrElse(filterParam, "all")), NewestFirst);
    Json(200, IndexData(seq(|rows|, i requires 0 <= i < |rows| => ListedArticle(rows[i], ChildIds(t, rows[i].id))),
                        DistinctCategories(t)))
  }

  /** An absent `search` is the empty search; an absent `filter` is "all". */
  lemma LoaderDefaults(t: seq<Article>, searchParam: Option<string>, filterParam: Option<string>)
    ensures Loader(t, None, filterParam) == Loader(t, Some(""), filterParam)
    ensures Loader(t, searchParam, None) == Loader(t, searchParam, Some("all"))
  {
  }

  /** The listed articles are the matching rows of the table, each as often
      as the table holds it, newest first, each with its child ids; the
      categories are those of the whole table whatever the query. */
  lemma LoaderResult(t: seq<Article>, searchParam: Option<string>, filterParam: Option<string>)
    ensures var r := Loader(t, searchParam, filterParam);
            var search, filter := OrElse(searchParam, ""), OrElse(filterParam, "all");
            var listed := seq(|r.body.articles|, i requires 0 <= i < |r.body.articles| => r.body.articles[i].article);
      && r.status == 200
      && multiset(listed) == multiset(Where(t, search, filter))
      && (forall a {:trigger multiset(listed)[a]} ::
            multiset(listed)[a] == if MatchesSearch(a, search) && MatchesFilter(a, filter) then multiset(t)[a] else 0)
      && (forall a :: a in listed <==> a in t && MatchesSearch(a, search) && MatchesFilter(a, filter))
      && (forall i, j :: 0 <= i < j < |listed| ==> listed[i].updatedAt >= listed[j].updatedAt)
      && (forall i :: 0 <= i < |listed| ==> r.body.articles[i].childIds == ChildIds(t, listed[i].id))
      && r.body.categories == DistinctCategories(t)
  {
    var search, filter := OrElse(searchParam, ""), OrElse(filterParam, "all");
    var rows := SortBy(Where(t, search, filter), NewestFirst);
    var r := Loader(t, searchParam, filterParam);
    var listed := seq(|r.body.articles|, i requires 0 <= i < |r.body.articles| => r.body.articles[i].article);
    assert listed == rows;
    SortPermutes(Where(t, search, filter), NewestFirst);
    SortSorted(Where(t, search, filter), NewestFirst);
    forall a ensures a in rows <==> a in Where(t, search, filter) {
      assert a in rows <==> a in multiset(rows);
    }
  }
}
