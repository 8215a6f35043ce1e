/** The editor route: its loader (authentication, then the category tree and
    the article being edited) and its action (validate, derive the slug,
    check it is free, then update or create). */
module Editor {
  import opened Model
  import opened Db
  import opened Auth
  import opened EditorTree

  /** `formData.get("parentId")?.toString() || null`. */
  function ParentOf(form: ArticleForm): Option<string> {
    if Truthy(form.parentId) then Some(form.parentId.value) else None
  }

  /** The editor action once the caller is known: `userId` is the caller's id,
      `slugify` stands for `generateSlug`, `newId` for the id the database
      mints on insert and `now` for its clock. */
  function Save(t: seq<Article>, userId: string, form: ArticleForm,
                slugify: string -> string, newId: string, now: int): Outcome
  {
    if !FieldsPresent(form) then
      Outcome(Json(400, ErrorMessage(MissingFieldsMessage)), t)
    else
      var title, category, content := form.title.value, form.category.value, form.content.value;
      var slug := slugify(title);
      if Truthy(form.id) then
        var id := form.id.value;
        if FindOtherWithSlug(t, slug, id).Some? then
          Outcome(Json(400, ErrorMessage(DuplicateTitleMessage)), t)
        else
          match FindById(t, id)
          case None => Outcome(ServerError, t)   // `update` of a missing row throws
          case Some(current) =>
            var a := Article(id, title, slug, category, content, ParentOf(form), Some(userId),
                             current.createdAt, now);
            Outcome(Json(200, SavedArticle(a)), ReplaceById(t, a))
      else if FindBySlug(t, slug).Some? then
        Outcome(Json(400, ErrorMessage(DuplicateTitleMessage)), t)
      else
        var a := Article(newId, title, slug, category, content, ParentOf(form), Some(userId), now, now);
        Outcome(Redirect("/editor?article=" + newId), t + [a])
  }

  /** A form lacking a title, category or content is refused and nothing is written. */
  lemma SaveRejectsMissingFields(t: seq<Article>, userId: string, form: ArticleForm,
                                 slugify: string -> string, newId: string, now: int)
    requires !FieldsPresent(form)
    ensures Save(t, userId, form, slugify, newId, now)
         == Outcome(Json(400, ErrorMessage(MissingFieldsMessage)), t)
  {
  }

  /** An update is refused only when a different article holds the derived
      slug; a missing id fails; otherwise only that id's row changes. */
  lemma SaveUpdate(t: seq<Article>, userId: string, form: ArticleForm,
                   slugify: string -> string, newId: string, now: int)
    requires IdsUnique(t)
    requires FieldsPresent(form) && Truthy(form.id)
    ensures var r := Save(t, userId, form, slugify, newId, now);
            var id, slug := form.id.value, slugify(form.title.value);
      && (r.response == Json(400, ErrorMessage(DuplicateTitleMessage)) <==>
            exists a :: a in t && a.id != id && a.slug == slug)
      && (r.response == ServerError <==>
            (forall a :: a in t && a.id != id ==> a.slug != slug) && (forall a :: a in t ==> a.id != id))
      && (r.response.Json? && r.response.status == 400 ==> r.table == t)
      && (r.response.ServerError? ==> r.table == t)
      && (r.response.Json? && r.response.status == 200 ==>
            && |r.table| == |t|
            && (forall i :: 0 <= i < |t| && t[i].id != id ==> r.table[i] == t[i])
            && (forall i :: 0 <= i < |t| && t[i].id == id ==>
                  r.table[i] == r.response.body.article
                  == Article(id, form.title.value, slug, form.category.value, form.content.value,
                             ParentOf(form), Some(userId), t[i].createdAt, now)))
      && !r.response.Redirect?
  {
    var r := Save(t, userId, form, slugify, newId, now);
    var id, slug := form.id.value, slugify(form.title.value);
    if r.response.Json? && r.response.status == 200 {
      var current := FindById(t, id).value;
      forall i | 0 <= i < |t| && t[i].id == id
        ensures r.table[i] == r.response.body.article
             == Article(id, form.title.value, slug, form.category.value, form.content.value,
                        ParentOf(form), Some(userId), t[i].createdAt, now)
      {
        var k :| 0 <= k < |t| && t[k] == current;
        assert k == i;
      }
    }
  }

  /** Re-saving an article under a title that derives its own slug succeeds:
      the uniqueness check leaves the article itself out. */
  lemma SaveUnderOwnTitle(t: seq<Article>, a: Article, userId: string, form: ArticleForm,
                          slugify: string -> string, newId: string, now: int)
    requires SlugsUnique(t) && a in t
    requires FieldsPresent(form) && form.id == Some(a.id) && a.id != ""
    requires slugify(form.title.value) == a.slug
    ensures Save(t, userId, form, slugify, newId, now).response.Json?
    ensures Save(t, userId, form, slugify, newId, now).response.status == 200
  {
  }

  /** A create is refused when the derived slug is taken; otherwise exactly
      one row is appended, authored by the caller, and the answer redirects
      to it in the editor. */
  lemma SaveCreate(t: seq<Article>, userId: string, form: ArticleForm,
                   slugify: string -> string, newId: string, now: int)
    requires FieldsPresent(form) && !Truthy(form.id)
    ensures var r := Save(t, userId, form, slugify, newId, now);
            var slug := slugify(form.title.value);
      && (r.response.Redirect? <==> forall a :: a in t ==> a.slug != slug)
      && (!r.response.Redirect? ==>
            r == Outcome(Json(400, ErrorMessage(DuplicateTitleMessage)), t))
      && (r.response.Redirect? ==>
            && r.response.location == "/editor?article=" + newId
            && r.table == t + [Article(newId, form.title.value, slug, form.category.value,
                                       form.content.value, ParentOf(form), Some(userId), now, now)])
      && (r.response.Redirect? && form.parentId == Some("") ==> r.table[|t|].parentId.None?)
  {
  }

  /** Every write the action makes keeps ids and slugs unique. */
  lemma SaveKeepsConstraints(t: seq<Article>, userId: string, form: ArticleForm,
                             slugify: string -> string, newId: string, now: int)
    requires IdsUnique(t) && SlugsUnique(t)
    requires FindById(t, newId).None?
    ensures IdsUnique(Save(t, userId, form, slugify, newId, now).table)
    ensures SlugsUnique(Save(t, userId, form, slugify, newId, now).table)
  {
    var r := Save(t, userId, form, slugify, newId, now);
    if FieldsPresent(form) && Truthy(form.id) && r.response.Json? && r.response.status == 200 {
      var a := r.response.body.article;
      assert r.table == ReplaceById(t, a);
      assert forall i :: 0 <= i < |t| ==> r.table[i].id == t[i].id;
      forall i, j | 0 <= i < j < |t| ensures r.table[i].slug != r.table[j].slug {
        if t[i].id == a.id {
          assert t[j] in t;
        } else if t[j].id == a.id {
          assert t[i] in t;
        }
      }
    }
  }

  /** The editor loader: authentication first, then the tree and the article
      named by the `article` query parameter. It never writes an article. */
  method Loader(db: Store, session: Option<Session>, articleParam: Option<string>) returns (r: Response)
    requires db.Valid()
    modifies db`users
    ensures db.Valid()
    ensures db.articles == old(db.articles)
    ensures db.users == Resolve(old(db.users), session).users
    ensures session.None? ==> r == Redirect("/login") && db.users == old(db.users)
    ensures Resolve(old(db.users), session).outcome.AuthFailure? ==> r == ServerError
    ensures Resolve(old(db.users), session).outcome.Authenticated? ==>
      r == Json(200, EditorData(Tree(EditorRows(db.articles)),
                                if Truthy(articleParam) then FindById(db.articles, articleParam.value) else None))
  {
    var auth := RequireAuth(db, session);
    if auth.LoginRedirect? {
      return Redirect("/login");
    } else if auth.AuthFailure? {
      return ServerError;
    }
    var rows := EditorRows(db.articles);
    var tree := GroupByCategory(rows);
    var current := if Truthy(articleParam) then FindById(db.articles, articleParam.value) else None;
    r := Json(200, EditorData(tree, current));
  }

  /** The editor action: authentication first, then `Save` against the table. */
  method Action(db: Store, session: Option<Session>, form: ArticleForm,
                slugify: string -> string, newId: string, now: int) returns (r: Response)
    requires db.Valid()
    requires FindById(db.articles, newId).None?
    modifies db
    ensures db.Valid()
    ensures db.users == Resolve(old(db.users), session).users
    ensures session.None? ==>
      r == Redirect("/login") && db.users == old(db.users) && db.articles == old(db.articles)
    ensures Resolve(old(db.users), session).outcome.AuthFailure? ==>
      r == ServerError && db.articles == old(db.articles)
    ensures var auth := Resolve(old(db.users), session).outcome;
      auth.Authenticated? ==>
        Outcome(r, db.articles) == Save(old(db.articles), auth.user.id, form, slugify, newId, now)
  {
    var auth := RequireAuth(db, session);
    if auth.LoginRedirect? {
      return Redirect("/login");
    } else if auth.AuthFailure? {
      return ServerError;
    }
    var user := auth.user;
    if !FieldsPresent(form) {
      return Json(400, ErrorMessage(MissingFieldsMessage));
    }
    var title, category, content := form.title.value, form.category.value, form.content.value;
    var slug := slugify(title);
    var parentId := ParentOf(form);
    if Truthy(form.id) {
      var id := form.id.value;
      if FindOtherWithSlug(db.articles, slug, id).Some? {
        return Json(400, ErrorMessage(DuplicateTitleMessage));
      }
      var current := FindById(db.articles, id);
      if current.None? {
        return ServerError;
      }
      var a := Article(id, title, slug, category, content, parentId, Some(user.id),
                       current.value.createdAt, now);
      db.UpdateArticle(a);
      r := Json(200, SavedArticle(a));
    } else {
      if FindBySlug(db.articles, slug).Some? {
        return Json(400, ErrorMessage(DuplicateTitleMessage));
      }
      var a := Article(newId, title, slug, category, content, parentId, Some(user.id), now, now);
      db.CreateArticle(a);
      r := Redirect("/editor?article=" + newId);
    }
  }
}
