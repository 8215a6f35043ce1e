/** The editor's navigation tree: the article rows as the editor loader
    queries them (sorted by category then title, each with its children
    sorted by title), and the loop that groups them by category. */
module EditorTree {
  import opened Model
  import opened Text
  import opened Ordering
  import opened Db

  /** `orderBy: { title: "asc" }` on the included children. */
  predicate TitleLe(a: Article, b: Article) {
    LexLe(a.title, b.title)
  }

  /** The same title order, on loaded rows. */
  predicate RowTitleLe(x: ArticleWithChildren, y: ArticleWithChildren) {
    LexLe(x.article.title, y.article.title)
  }

  /** `orderBy: [{ category: "asc" }, { title: "asc" }]`. */
  predicate CategoryTitleLe(x: ArticleWithChildren, y: ArticleWithChildren) {
    || LexLess(x.article.category, y.article.category)
    || (x.article.category == y.article.category && LexLe(x.article.title, y.article.title))
  }

  lemma TitleOrderIsTotalPreorder()
    ensures TotalPreorder(TitleLe)
  {
    forall a: Article, b: Article ensures TitleLe(a, b) || TitleLe(b, a) {
      LexLeTotal(a.title, b.title);
    }
    forall a: Article, b: Article, c: Article | TitleLe(a, b) && TitleLe(b, c) ensures TitleLe(a, c) {
      LexLeTransitive(a.title, b.title, c.title);
    }
  }

  lemma CategoryTitleOrderIsTotalPreorder()
    ensures TotalPreorder(CategoryTitleLe)
  {
    forall x: ArticleWithChildren, y: ArticleWithChildren
      ensures CategoryTitleLe(x, y) || CategoryTitleLe(y, x)
    {
      LexLeTotal(x.article.category, y.article.category);
      LexLeTotal(x.article.title, y.article.title);
    }
    forall x: ArticleWithChildren, y: ArticleWithChildren, z: ArticleWithChildren
      | CategoryTitleLe(x, y) && CategoryTitleLe(y, z)
      ensures CategoryTitleLe(x, z)
    {
      var cx, cy, cz := x.article.category, y.article.category, z.article.category;
      if cx == cy && cy == cz {
        LexLeTransitive(x.article.title, y.article.title, z.article.title);
      } else {
        LexLeReflexive(cy);
        assert LexLe(cx, cy) && LexLe(cy, cz);
        LexLeTransitive(cx, cy, cz);
        if cx == cz {
          LexLeAntisymmetric(cx, cy);
        }
      }
    }
  }

  /** The articles whose parent is `id` (the `children` relation), each as
      often as the table holds it. */
  function ChildrenOf(t: seq<Article>, id: string): (r: seq<Article>)
    ensures forall a :: a in r <==> a in t && a.parentId == Some(id)
    ensures forall a {:trigger multiset(r)[a]} ::
              multiset(r)[a] == if a.parentId == Some(id) then multiset(t)[a] else 0
  {
    if t == [] then []
    else
      assert t == [t[0]] + t[1..];
      (if t[0].parentId == Some(id) then [t[0]] else []) + ChildrenOf(t[1..], id)
  }

  /** An article as the editor loader fetches it, with its children by title. */
  function Row(t: seq<Article>, a: Article): ArticleWithChildren {
    ArticleWithChildren(a, SortBy(ChildrenOf(t, a.id), TitleLe))
  }

  /** The articles s, each fetched with its children from table t. */
  function RowsOf(t: seq<Article>, s: seq<Article>): seq<ArticleWithChildren> {
    seq(|s|, i requires 0 <= i < |s| => Row(t, s[i]))
  }

  /** The editor loader's `findMany`: every article of the table, with
      children included, ordered by category then title. */
  function EditorRows(t: seq<Article>): seq<ArticleWithChildren> {
    SortBy(RowsOf(t, t), CategoryTitleLe)
  }

  /** The categories of rows in the order of their first occurrence. */
  function FirstSeen(rows: seq<ArticleWithChildren>): seq<string> {
    if rows == [] then []
    else
      var seen := FirstSeen(rows[..|rows| - 1]);
      var c := rows[|rows| - 1].article.category;
      if c in seen then seen else seen + [c]
  }

  /** The root rows of category c, in input order. */
  function RootsIn(rows: seq<ArticleWithChildren>, c: string): seq<ArticleWithChildren> {
    if rows == [] then []
    else
      var last := rows[|rows| - 1];
      RootsIn(rows[..|rows| - 1], c)
        + (if last.article.category == c && IsRoot(last.article) then [last] else [])
  }

  /** The tree the loader sends: one entry per category, in first-seen order. */
  function Tree(rows: seq<ArticleWithChildren>): seq<CategoryTree> {
    var cats := FirstSeen(rows);
    seq(|cats|, i requires 0 <= i < |cats| => CategoryTree(cats[i], RootsIn(rows, cats[i])))
  }

  ghost predicate NoDuplicates<T>(s: seq<T>) {
    forall i, j :: 0 <= i < j < |s| ==> s[i] != s[j]
  }

  /** A category no row has yet has no roots yet. */
  lemma {:induction false} UnseenHasNoRoots(rows: seq<ArticleWithChildren>, c: string)
    requires c !in FirstSeen(rows)
    ensures RootsIn(rows, c) == []
  {
    if rows != [] {
      UnseenHasNoRoots(rows[..|rows| - 1], c);
    }
  }

  /** FirstSeen lists every category of the rows, each exactly once, and nothing else. */
  lemma {:induction false} FirstSeenCovers(rows: seq<ArticleWithChildren>)
    ensures forall c :: c in FirstSeen(rows) <==> exists r :: r in rows && r.article.category == c
    ensures NoDuplicates(FirstSeen(rows))
  {
    if rows != [] {
      var prefix := rows[..|rows| - 1];
      FirstSeenCovers(prefix);
      assert rows == prefix + [rows[|rows| - 1]];
    }
  }

  /** A category's list holds exactly the root rows of that category, each as
      often as it occurs in the input. */
  lemma {:induction false} RootsInCount(rows: seq<ArticleWithChildren>, c: string)
    ensures forall x :: multiset(RootsIn(rows, c))[x]
                     == if x.article.category == c && IsRoot(x.article) then multiset(rows)[x] else 0
  {
    if rows != [] {
      var prefix := rows[..|rows| - 1];
      RootsInCount(prefix, c);
      assert rows == prefix + [rows[|rows| - 1]];
    }
  }

  /** Index of the first row of category c; |rows| when there is none. */
  function FirstIndexOf(rows: seq<ArticleWithChildren>, c: string): (k: nat)
    ensures k <= |rows|
    ensures k < |rows| ==> rows[k].article.category == c
    ensures forall j :: 0 <= j < k ==> rows[j].article.category != c
  {
    if rows == [] then 0
    else if rows[0].article.category == c then 0
    else 1 + FirstIndexOf(rows[1..], c)
  }

  lemma {:induction false} FirstIndexOfAppend(rows: seq<ArticleWithChildren>, x: ArticleWithChildren, c: string)
    ensures FirstIndexOf(rows + [x], c)
         == if FirstIndexOf(rows, c) < |rows| || x.article.category == c then FirstIndexOf(rows, c)
            else |rows| + 1
  {
    if rows != [] && rows[0].article.category != c {
      FirstIndexOfAppend(rows[1..], x, c);
      assert (rows + [x])[1..] == rows[1..] + [x];
    }
  }

  /** Categories come out in the order in which the input first shows them. */
  lemma {:induction false} FirstSeenInOrder(rows: seq<ArticleWithChildren>)
    ensures forall i :: 0 <= i < |FirstSeen(rows)| ==> FirstIndexOf(rows, FirstSeen(rows)[i]) < |rows|
    ensures forall i, j :: 0 <= i < j < |FirstSeen(rows)| ==>
              FirstIndexOf(rows, FirstSeen(rows)[i]) < FirstIndexOf(rows, FirstSeen(rows)[j])
  {
    if rows != [] {
      var prefix, last := rows[..|rows| - 1], rows[|rows| - 1];
      assert rows == prefix + [last];
      FirstSeenInOrder(prefix);
      FirstSeenCovers(prefix);
      var seen := FirstSeen(prefix);
      forall i | 0 <= i < |seen|
        ensures FirstIndexOf(rows, seen[i]) == FirstIndexOf(prefix, seen[i])
      {
        FirstIndexOfAppend(prefix, last, seen[i]);
      }
      var c := last.article.category;
      if c !in seen {
        FirstIndexOfAppend(prefix, last, c);
        assert FirstIndexOf(rows, c) == |prefix|;
      }
    }
  }

  /** With rows sorted by category then title, the categories come out ascending. */
  lemma SortedRowsGiveAscendingCategories(rows: seq<ArticleWithChildren>)
    requires Sorted(rows, CategoryTitleLe)
    ensures forall i, j :: 0 <= i < j < |FirstSeen(rows)| ==> LexLess(FirstSeen(rows)[i], FirstSeen(rows)[j])
  {
    var cats := FirstSeen(rows);
    FirstSeenInOrder(rows);
    FirstSeenCovers(rows);
    forall i, j | 0 <= i < j < |cats| ensures LexLess(cats[i], cats[j]) {
      var p, q := FirstIndexOf(rows, cats[i]), FirstIndexOf(rows, cats[j]);
      assert CategoryTitleLe(rows[p], rows[q]);
    }
  }

  /** With rows sorted by category then title, each category's roots come out by title. */
  lemma {:induction false} SortedRowsGiveTitleOrderedRoots(rows: seq<ArticleWithChildren>, c: string)
    requires Sorted(rows, CategoryTitleLe)
    ensures Sorted(RootsIn(rows, c), RowTitleLe)
  {
    if rows != [] {
      var prefix, last := rows[..|rows| - 1], rows[|rows| - 1];
      SortedRowsGiveTitleOrderedRoots(prefix, c);
      RootsInCount(prefix, c);
      var roots := RootsIn(prefix, c);
      if last.article.category == c && IsRoot(last.article) {
        var r := roots + [last];
        forall i, j | 0 <= i < j < |r| ensures RowTitleLe(r[i], r[j]) {
          if j == |roots| {
            assert multiset(roots)[r[i]] > 0;
            var k :| 0 <= k < |prefix| && prefix[k] == r[i];
            assert CategoryTitleLe(rows[k], rows[|rows| - 1]);
          }
        }
      }
    }
  }

  /** The grouping loop of the editor loader: a Map from category to roots,
      filled in one pass, then turned into a list in insertion order. */
  method GroupByCategory(rows: seq<ArticleWithChildren>) returns (tree: seq<CategoryTree>)
    ensures tree == Tree(rows)
  {
    var order: seq<string> := [];   // the Map's key insertion order
    var lists: map<string, seq<ArticleWithChildren>> := map[];
    var i := 0;
    while i < |rows|
      invariant 0 <= i <= |rows|
      invariant order == FirstSeen(rows[..i])
      invariant forall c :: c in lists <==> c in order
      invariant forall c :: c in lists ==> lists[c] == RootsIn(rows[..i], c)
    {
      var row := rows[i];
      var c := row.article.category;
      assert rows[..i + 1][..i] == rows[..i];
      forall d
        ensures RootsIn(rows[..i + 1], d)
             == RootsIn(rows[..i], d) + (if c == d && IsRoot(row.article) then [row] else [])
      {
      }
      if c !in lists {
        UnseenHasNoRoots(rows[..i], c);
        lists := lists[c := []];
        order := order + [c];
      }
      if IsRoot(row.article) {
        lists := lists[c := lists[c] + [row]];
      }
      i := i + 1;
    }
    assert rows[..i] == rows;
    tree := seq(|order|, k requires 0 <= k < |order| => CategoryTree(order[k], lists[order[k]]));
  }

  /** A row's children are exactly the articles pointing at it, each as often
      as the table holds it, by title. */
  lemma RowChildren(t: seq<Article>, a: Article)
    ensures forall ch :: ch in Row(t, a).children <==> ch in t && ch.parentId == Some(a.id)
    ensures forall ch {:trigger multiset(Row(t, a).children)[ch]} ::
              multiset(Row(t, a).children)[ch] == if ch.parentId == Some(a.id) then multiset(t)[ch] else 0
    ensures Sorted(Row(t, a).children, TitleLe)
  {
    SortPermutes(ChildrenOf(t, a.id), TitleLe);
    TitleOrderIsTotalPreorder();
    SortSorted(ChildrenOf(t, a.id), TitleLe);
    var kids := Row(t, a).children;
    forall ch ensures ch in kids <==> ch in ChildrenOf(t, a.id) {
      assert ch in kids <==> ch in multiset(kids);
    }
  }

  lemma {:induction false} RowsOfCount(t: seq<Article>, s: seq<Article>, a: Article)
    ensures multiset(RowsOf(t, s))[Row(t, a)] == multiset(s)[a]
  {
    if s != [] {
      RowsOfCount(t, s[1..], a);
      assert RowsOf(t, s) == [Row(t, s[0])] + RowsOf(t, s[1..]);
      assert s == [s[0]] + s[1..];
    }
  }

  lemma {:induction false} RowsOfMembers(t: seq<Article>, s: seq<Article>)
    ensures forall x :: x in RowsOf(t, s) <==> x.article in s && x == Row(t, x.article)
  {
    if s != [] {
      RowsOfMembers(t, s[1..]);
      assert RowsOf(t, s) == [Row(t, s[0])] + RowsOf(t, s[1..]);
      assert s == [s[0]] + s[1..];
    }
  }

  lemma {:induction false} DistinctOccursOnce<T>(s: seq<T>, x: T)
    requires NoDuplicates(s) && x in s
    ensures multiset(s)[x] == 1
  {
    assert s == [s[0]] + s[1..];
    if s[0] == x {
      assert x !in s[1..];
    } else {
      DistinctOccursOnce(s[1..], x);
    }
  }

  /** The loaded rows are the table's articles, each once, sorted by category then title. */
  lemma EditorRowsFromTable(t: seq<Article>)
    ensures multiset(EditorRows(t)) == multiset(RowsOf(t, t))
    ensures forall x :: x in EditorRows(t) <==> x.article in t && x == Row(t, x.article)
    ensures Sorted(EditorRows(t), CategoryTitleLe)
  {
    SortPermutes(RowsOf(t, t), CategoryTitleLe);
    CategoryTitleOrderIsTotalPreorder();
    SortSorted(RowsOf(t, t), CategoryTitleLe);
    RowsOfMembers(t, t);
    forall x ensures x in EditorRows(t) <==> x in RowsOf(t, t) {
      assert x in EditorRows(t) <==> x in multiset(EditorRows(t));
    }
  }

  /** Every category of the table has an entry in the editor tree. */
  lemma EditorTreeCoversTable(t: seq<Article>)
    ensures var tree := Tree(EditorRows(t));
      forall a :: a in t ==> exists i :: 0 <= i < |tree| && tree[i].category == a.category
  {
    var rows := EditorRows(t);
    var cats := FirstSeen(rows);
    var tree := Tree(rows);
    EditorRowsFromTable(t);
    FirstSeenCovers(rows);
    forall a | a in t ensures exists i :: 0 <= i < |tree| && tree[i].category == a.category {
      assert Row(t, a) in rows && Row(t, a).article.category == a.category;
      assert a.category in cats;
      var i :| 0 <= i < |cats| && cats[i] == a.category;
      assert tree[i].category == a.category;
    }
  }

  /** No tree entry is for a category the table lacks. */
  lemma EditorTreeFromTable(t: seq<Article>)
    ensures var tree := Tree(EditorRows(t));
      forall i :: 0 <= i < |tree| ==> exists a :: a in t && a.category == tree[i].category
  {
    var rows := EditorRows(t);
    var cats := FirstSeen(rows);
    var tree := Tree(rows);
    EditorRowsFromTable(t);
    FirstSeenCovers(rows);
    forall i | 0 <= i < |tree| ensures exists a :: a in t && a.category == tree[i].category {
      assert cats[i] in cats;
      var r :| r in rows && r.article.category == cats[i];
      assert r.article in t;
    }
  }

  /** Tree categories strictly ascend, so none has two entries. */
  lemma EditorTreeCategoriesAscend(t: seq<Article>)
    ensures var tree := Tree(EditorRows(t));
      forall i, j :: 0 <= i < j < |tree| ==> LexLess(tree[i].category, tree[j].category)
  {
    EditorRowsFromTable(t);
    SortedRowsGiveAscendingCategories(EditorRows(t));
  }

  /** Each tree list holds only root articles of its own category, each root
      of the table once, with children attached, ordered by title. */
  lemma EditorTreeLists(t: seq<Article>)
    requires IdsUnique(t)
    ensures var tree := Tree(EditorRows(t));
      && (forall i, x :: 0 <= i < |tree| && x in tree[i].articles ==>
            x.article in t && IsRoot(x.article) && x.article.category == tree[i].category && x == Row(t, x.article))
      && (forall i, a :: 0 <= i < |tree| && a in t && IsRoot(a) && a.category == tree[i].category ==>
            multiset(tree[i].articles)[Row(t, a)] == 1)
      && (forall i :: 0 <= i < |tree| ==> Sorted(tree[i].articles, RowTitleLe))
  {
    var rows := EditorRows(t);
    var tree := Tree(rows);
    EditorRowsFromTable(t);
    forall i | 0 <= i < |tree| ensures Sorted(tree[i].articles, RowTitleLe) {
      SortedRowsGiveTitleOrderedRoots(rows, tree[i].category);
    }
    forall i, x | 0 <= i < |tree| && x in tree[i].articles
      ensures x.article in t && IsRoot(x.article) && x.article.category == tree[i].category && x == Row(t, x.article)
    {
      RootsInCount(rows, tree[i].category);
      assert multiset(tree[i].articles)[x] > 0;
    }
    assert NoDuplicates(t);
    forall i, a | 0 <= i < |tree| && a in t && IsRoot(a) && a.category == tree[i].category
      ensures multiset(tree[i].articles)[Row(t, a)] == 1
    {
      RootsInCount(rows, tree[i].category);
      RowsOfCount(t, t, a);
      DistinctOccursOnce(t, a);
    }
  }
}
