/** The records of the article and user tables, the form fields the routes
    read, and the responses the routes send back. */
module Model {

  datatype Option<+T> = None | Some(value: T)

  /** A row of the article table. `parentId` links a child to its parent;
      `authorId` is optional because the "new article" route writes none.
      Timestamps are server-assigned instants, kept as integers. */
  datatype Article = Article(
    id: string,
    title: string,
    slug: string,
    category: string,
    content: string,
    parentId: Option<string>,
    authorId: Option<string>,
    createdAt: int,
    updatedAt: int)

  /** A row of the user table; its id is the identity provider's subject id. */
  datatype User = User(id: string, email: string)

  /** The identity provider's session, reduced to what the routes read from it. */
  datatype Session = Session(userId: string, email: string)

  /** JavaScript truthiness of an optional string: present and not "".
      Nothing is trimmed, so "   " is truthy. */
  predicate Truthy(field: Option<string>) {
    field.Some? && field.value != ""
  }

  /** `field || fallback` for an optional string. */
  function OrElse(field: Option<string>, fallback: string): string {
    if Truthy(field) then field.value else fallback
  }

  /** `!article.parentId`: the article has no parent. */
  predicate IsRoot(a: Article) {
    !Truthy(a.parentId)
  }

  /** The fields an article form posts; a field the form lacks is None. */
  datatype ArticleForm = ArticleForm(
    id: Option<string>,
    title: Option<string>,
    category: Option<string>,
    content: Option<string>,
    parentId: Option<string>)

  /** An article together with the children the query included. */
  datatype ArticleWithChildren = ArticleWithChildren(article: Article, children: seq<Article>)

  /** One category of the editor's navigation tree. */
  datatype CategoryTree = CategoryTree(category: string, articles: seq<ArticleWithChildren>)

  /** A row of the article list: the article and the ids of its children. */
  datatype ListedArticle = ListedArticle(article: Article, childIds: seq<string>)

  datatype Body =
    | ErrorMessage(message: string)
    | SuccessMessage(message: string)
    | SavedArticle(article: Article)
    | EditorData(tree: seq<CategoryTree>, currentArticle: Option<Article>)
    | IndexData(articles: seq<ListedArticle>, categories: seq<string>)
    | NoData

  /** What a loader or action answers. ServerError stands for an exception
      the route does not catch (a failed database write). */
  datatype Response =
    | Json(status: int, body: Body)
    | Redirect(location: string)
    | ServerError

  /** A route's answer together with the article table it leaves behind. */
  datatype Outcome = Outcome(response: Response, table: seq<Article>)

  /** `if (!title || !category || !content)` fails exactly when this does not hold. */
  predicate FieldsPresent(form: ArticleForm) {
    Truthy(form.title) && Truthy(form.category) && Truthy(form.content)
  }

  const MissingFieldsMessage := "All fields are required"
  const DuplicateTitleMessage := "An article with this title already exists"
}
