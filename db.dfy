/** The two tables the routes read and write through the database client:
    articles (unique id, unique slug) and users (unique email, unique id). */
module Db {
  import opened Model

  ghost predicate IdsUnique(t: seq<Article>) {
    forall i, j :: 0 <= i < j < |t| ==> t[i].id != t[j].id
  }

  ghost predicate SlugsUnique(t: seq<Article>) {
    forall i, j :: 0 <= i < j < |t| ==> t[i].slug != t[j].slug
  }

  /** The user table is looked up by email, so it is kept as a map from email to row. */
  ghost predicate UsersKeyedByEmail(users: map<string, User>) {
    forall e :: e in users ==> users[e].email == e
  }

  ghost predicate UserIdsUnique(users: map<string, User>) {
    forall e1, e2 :: e1 in users && e2 in users && e1 != e2 ==> users[e1].id != users[e2].id
  }

  /** `article.findUnique({ where: { slug } })`. */
  function FindBySlug(t: seq<Article>, slug: string): (r: Option<Article>)
    ensures r.Some? ==> r.value in t && r.value.slug == slug
    ensures r.None? ==> forall a :: a in t ==> a.slug != slug
  {
    if t == [] then None
    else if t[0].slug == slug then Some(t[0])
    else FindBySlug(t[1..], slug)
  }

  /** `article.findFirst({ where: { slug, NOT: { id } } })`: the slug held by
      a row other than `id`. */
  function FindOtherWithSlug(t: seq<Article>, slug: string, id: string): (r: Option<Article>)
    ensures r.Some? ==> r.value in t && r.value.slug == slug && r.value.id != id
    ensures r.None? ==> forall a :: a in t && a.id != id ==> a.slug != slug
  {
    if t == [] then None
    else if t[0].slug == slug && t[0].id != id then Some(t[0])
    else FindOtherWithSlug(t[1..], slug, id)
  }

  /** `article.findUnique({ where: { id } })`. */
  function FindById(t: seq<Article>, id: string): (r: Option<Article>)
    ensures r.Some? ==> r.value in t && r.value.id == id
    ensures r.None? ==> forall a :: a in t ==> a.id != id
  {
    if t == [] then None
    else if t[0].id == id then Some(t[0])
    else FindById(t[1..], id)
  }

  /** The table after `article.update({ where: { id: a.id }, data })`. */
  function ReplaceById(t: seq<Article>, a: Article): seq<Article> {
    seq(|t|, i requires 0 <= i < |t| => if t[i].id == a.id then a else t[i])
  }

  /** The database: both tables, with the unique constraints as invariant. */
  class Store {
    var articles: seq<Article>
    var users: map<string, User>

    ghost predicate Valid()
      reads this
    {
      && IdsUnique(articles)
      && SlugsUnique(articles)
      && UsersKeyedByEmail(users)
      && UserIdsUnique(users)
    }

    constructor ()
      ensures Valid()
      ensures articles == [] && users == map[]
    {
      articles := [];
      users := map[];
    }

    /** `article.create`: the new row goes into the table. The id is one the
        database minted, and the caller has checked the slug is free. */
    method CreateArticle(a: Article)
      requires Valid()
      requires FindById(articles, a.id).None?
      requires FindBySlug(articles, a.slug).None?
      modifies this`articles
      ensures Valid()
      ensures articles == old(articles) + [a]
    {
      articles := articles + [a];
    }

    /** `article.update`: the row with a's id is overwritten with a; the
        caller has checked no other row holds a's slug. */
    method UpdateArticle(a: Article)
      requires Valid()
      requires FindById(articles, a.id).Some?
      requires FindOtherWithSlug(articles, a.slug, a.id).None?
      modifies this`articles
      ensures Valid()
      ensures articles == ReplaceById(old(articles), a)
      ensures |articles| == |old(articles)|
    {
      articles := ReplaceById(articles, a);
    }

    /** `user.create`: refused (ok is false) when the id is already taken,
        as the primary key constraint refuses it. */
    method CreateUser(u: User) returns (ok: bool)
      requires Valid()
      requires u.email !in users
      modifies this`users
      ensures Valid()
      ensures ok <==> forall e :: e in old(users) ==> old(users)[e].id != u.id
      ensures users == if ok then old(users)[u.email := u] else old(users)
    {
      ok := forall e | e in users :: users[e].id != u.id;
      if ok {
        users := users[u.email := u];
      }
    }
  }
}
