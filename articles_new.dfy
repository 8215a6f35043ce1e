/** The "new article" route's action: validate, derive the slug, refuse a
    taken slug, insert a root article. It asks for no session. */
module ArticlesNew {
  import opened Model
  import opened Db

  /** The action as a function of the table: `slugify` stands for
      `generateSlug`, `newId` for the id the database mints, `now` for its clock.
      Only the title, category and content fields are read. */
  function Create(t: seq<Article>, form: ArticleForm, slugify: string -> string,
                  newId: string, now: int): Outcome
  {
    if !FieldsPresent(form) then
      Outcome(Json(400, ErrorMessage(MissingFieldsMessage)), t)
    else
      var slug := slugify(form.title.value);
      if FindBySlug(t, slug).Some? then
        Outcome(Json(400, ErrorMessage(DuplicateTitleMessage)), t)
      else
        var a := Article(newId, form.title.value, slug, form.category.value, form.content.value,
                         None, None, now, now);
        Outcome(Redirect("/articles/" + newId), t + [a])
  }

  /** The three outcomes: missing fields, taken slug (both leave the table
      alone), or exactly one new root article and a redirect to it. */
  lemma CreateOutcomes(t: seq<Article>, form: ArticleForm, slugify: string -> string,
                       newId: string, now: int)
    ensures var r := Create(t, form, slugify, newId, now);
      && (!FieldsPresent(form) ==> r == Outcome(Json(400, ErrorMessage(MissingFieldsMessage)), t))
      && (FieldsPresent(form) && (exists a :: a in t && a.slug == slugify(form.title.value)) ==>
            r == Outcome(Json(400, ErrorMessage(DuplicateTitleMessage)), t))
      && (r.response.Redirect? <==>
            FieldsPresent(form) && forall a :: a in t ==> a.slug != slugify(form.title.value))
      && (r.response.Redirect? ==>
            && r.response.location == "/articles/" + newId
            && |r.table| == |t| + 1
            && r.table[..|t|] == t
            && r.table[|t|] == Article(newId, form.title.value, slugify(form.title.value),
                                       form.category.value, form.content.value, None, None, now, now))
  {
    var r := Create(t, form, slugify, newId, now);
    if r.response.Redirect? {
      assert r.table[..|t|] == t;
    }
  }

  /** The insert keeps ids and slugs unique. */
  lemma CreateKeepsConstraints(t: seq<Article>, form: ArticleForm, slugify: string -> string,
                               newId: string, now: int)
    requires IdsUnique(t) && SlugsUnique(t)
    requires FindById(t, newId).None?
    ensures IdsUnique(Create(t, form, slugify, newId, now).table)
    ensures SlugsUnique(Create(t, form, slugify, newId, now).table)
  {
    var r := Create(t, form, slugify, newId, now);
    if r.response.Redirect? {
      assert forall i :: 0 <= i < |t| ==> t[i] in t;
    }
  }

  /** The action: no authentication, then `Create` against the table. */
  method Action(db: Store, form: ArticleForm, slugify: string -> string,
                newId: string, now: int) returns (r: Response)
    requires db.Valid()
    requires FindById(db.articles, newId).None?
    modifies db`articles
    ensures db.Valid()
    ensures Outcome(r, db.articles) == Create(old(db.articles), form, slugify, newId, now)
  {
    if !FieldsPresent(form) {
      return Json(400, ErrorMessage(MissingFieldsMessage));
    }
    var slug := slugify(form.title.value);
    if FindBySlug(db.articles, slug).Some? {
      return Json(400, ErrorMessage(DuplicateTitleMessage));
    }
    var a := Article(newId, form.title.value, slug, form.category.value, form.content.value,
                     None, None, now, now);
    db.CreateArticle(a);
    r := Redirect("/articles/" + newId);
  }
}
