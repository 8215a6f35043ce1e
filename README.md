# Article CMS core, modelled in Dafny

This project models the logic layer of a small Remix article CMS. That layer sits over two
database tables, articles and users. The model covers:

- the authentication gate, which gets or creates the user by email;
- the editor route: its loader builds a category tree and its action validates a form, derives
  a slug, checks the slug is unique and then updates or creates an article;
- the "new article" action;
- the article list query;
- the guard chains of the sign-up and login routes.

The database is a `Db.Store` class. It has a sequence of `Article` rows and a map from email to
`User`. Its `Valid()` invariant is the set of unique constraints: article ids, article slugs,
user emails and user ids. The store's own methods (`CreateArticle`, `UpdateArticle`, `CreateUser`) perform the writes.
The route loaders and actions that write are module-level methods taking the store. Each is proved
equal to a pure function of the old table (`Editor.Save`, `ArticlesNew.Create`, `Auth.Resolve`),
and lemmas about those functions state what the routes promise. The queries and the
sign-up/login guards are pure functions.

Inputs the code cannot see are parameters:

- the identity provider's session is an `Option<Session>`;
- `generateSlug` is an uninterpreted `slugify: string -> string`;
- the id the database mints on insert is `newId`, required to be unused;
- the database clock is `now`;
- the provider calls `signUp` and `signInWithPassword` are functions returning an optional
  error message.

Files: `model.dfy` (records, forms, responses), `text.dfy` (lower-casing, `includes`, string
order), `ordering.dfy` (the sort that stands for `orderBy`), `db.dfy` (the store), `auth.dfy`,
`editor_tree.dfy`, `editor.dfy`, `articles_new.dfy`, `index.dfy`, `signup.dfy`, `login.dfy`.

## Model

| member | source | states |
|---|---|---|
| `Text.ContainsAt` | app/routes/login.tsx:33 | `includes` holds exactly when the needle occurs at some offset of the string |
| `Text.LexLeTotal` | app/routes/editor.tsx:43 | any two strings are comparable in the ascending order used for sorting |
| `Text.LexLeTransitive` | app/routes/editor.tsx:43 | the ascending string order is transitive |
| `Text.LexLeAntisymmetric` | app/routes/editor.tsx:43 | two strings that are each at most the other are equal |
| `Ordering.SortPermutes` | app/routes/_index.tsx:23-25 | ordering the rows neither adds, drops nor duplicates a row (same multiset) |
| `Ordering.SortSorted` | app/routes/_index.tsx:23-25 | under a total preorder, the ordered rows are pairwise in order |
| `Db.FindBySlug` | app/routes/articles.new.tsx:20-22 | a found row is in the table and has the slug; none found means no row has it |
| `Db.FindOtherWithSlug` | app/routes/editor.tsx:96-98 | a found row has the slug and a different id; none found means only the row `id` may hold it |
| `Db.FindById` | app/routes/editor.tsx:66-68 | a found row is in the table with that id; none found means no row has it |
| `Db.Store.CreateArticle` | app/routes/editor.tsx:124-126 | the row is appended and the unique constraints still hold |
| `Db.Store.UpdateArticle` | app/routes/editor.tsx:107-110 | only the row with the record's id is replaced; the constraints still hold |
| `Db.Store.CreateUser` | app/lib/auth.server.ts:22-27 | the user is inserted unless its id is taken, in which case the table is unchanged |
| `Auth.Resolve` | app/lib/auth.server.ts:5-31 | no session means a login redirect and no write; a known email returns that user with no write; an unknown email inserts `User(session id, email)` unless the id is taken; an authenticated user is stored under the session email |
| `Auth.ResolveKeepsConstraints` | app/lib/auth.server.ts:17-28 | get-or-create keeps emails and user ids unique |
| `Auth.ResolveIdempotent` | app/lib/auth.server.ts:17-28 | repeating the gate with the same session returns the same user and creates nothing |
| `Auth.RequireAuth` | app/lib/auth.server.ts:5-31 | the method's outcome and the new user table are those `Resolve` gives for the old table |
| `Auth.GetUser` | app/lib/auth.server.ts:33-49 | returns a user exactly when there is a session whose email has a row, and that row carries the session email |
| `Auth.GetUserAgreesWithResolve` | app/lib/auth.server.ts:33-49 | where `getUser` finds a user, `requireAuth` returns it and writes nothing |
| `EditorTree.TitleOrderIsTotalPreorder` | app/routes/editor.tsx:45 | ordering children by title is a total preorder |
| `EditorTree.CategoryTitleOrderIsTotalPreorder` | app/routes/editor.tsx:43 | ordering by category, then title, is a total preorder |
| `EditorTree.ChildrenOf` | app/routes/editor.tsx:44-46 | the included children are exactly the rows whose parentId is the article's id, each as often as the table holds it |
| `EditorTree.RowChildren` | app/routes/editor.tsx:44-46 | each loaded row's children are exactly the articles pointing at it, each as often as the table holds it, ordered by title |
| `EditorTree.FirstSeenCovers` | app/routes/editor.tsx:50-55 | the grouped categories are exactly the categories of the rows, each once |
| `EditorTree.RootsInCount` | app/routes/editor.tsx:56-59 | a category's list holds each root row of that category as often as the input does, and nothing else |
| `EditorTree.FirstSeenInOrder` | app/routes/editor.tsx:52-64 | categories appear in the order of their first occurrence in the input |
| `EditorTree.SortedRowsGiveAscendingCategories` | app/routes/editor.tsx:42-64 | with input sorted by category then title, tree categories strictly ascend |
| `EditorTree.SortedRowsGiveTitleOrderedRoots` | app/routes/editor.tsx:42-64 | with that input, each category's roots come out ordered by title |
| `EditorTree.GroupByCategory` | app/routes/editor.tsx:49-64 | the grouping loop over the Map yields the tree of first-seen categories with their root rows |
| `EditorTree.EditorRowsFromTable` | app/routes/editor.tsx:42-47 | the loaded rows are the table's articles with children, each once, sorted by category then title |
| `EditorTree.EditorTreeCoversTable` | app/routes/editor.tsx:42-64 | every category in the table has a tree entry, even one whose articles are all children |
| `EditorTree.EditorTreeFromTable` | app/routes/editor.tsx:42-64 | every tree entry is a category of some article in the table |
| `EditorTree.EditorTreeCategoriesAscend` | app/routes/editor.tsx:42-64 | tree categories strictly ascend, so no category has two entries |
| `EditorTree.EditorTreeLists` | app/routes/editor.tsx:42-64 | tree lists hold only root articles of their own category; each root of the table occurs exactly once in its category's list; lists are ordered by title |
| `Editor.SaveRejectsMissingFields` | app/routes/editor.tsx:85-90 | a missing or empty title, category or content gives 400 "All fields are required" and leaves the table unchanged |
| `Editor.SaveUpdate` | app/routes/editor.tsx:94-112 | an update is refused iff a different article holds the derived slug; a missing id fails without a write; otherwise only that id's row changes, taking the new fields and authorId = caller |
| `Editor.SaveUnderOwnTitle` | app/routes/editor.tsx:94-112 | re-saving an article under a title that derives its own slug succeeds |
| `Editor.SaveCreate` | app/routes/editor.tsx:113-128 | a create succeeds iff the slug is unused; it appends exactly one row with authorId = caller and no parent for an empty parentId, and redirects to `/editor?article=<id>`; otherwise 400 and no change |
| `Editor.SaveKeepsConstraints` | app/routes/editor.tsx:94-126 | every write of the editor action keeps ids and slugs unique |
| `Editor.Loader` | app/routes/editor.tsx:35-71 | without a session: login redirect and no write; never changes the article table; otherwise the tree of the table and the article named by the `article` parameter |
| `Editor.Action` | app/routes/editor.tsx:74-130 | without a session: login redirect, nothing written; otherwise the response and new table are those of `Save` for the caller's id; the store invariant holds |
| `ArticlesNew.CreateOutcomes` | app/routes/articles.new.tsx:7-41 | 400 "All fields are required" on a missing field; 400 "An article with this title already exists" on a taken slug; otherwise exactly one root article with no author is appended, earlier rows unchanged, and the response redirects to `/articles/<id>` |
| `ArticlesNew.CreateKeepsConstraints` | app/routes/articles.new.tsx:20-38 | the insert keeps ids and slugs unique |
| `ArticlesNew.Action` | app/routes/articles.new.tsx:7-41 | needs no session; its response and new table are those of `Create`; the store invariant holds |
| `Index.Where` | app/routes/_index.tsx:14-22 | the filtered rows are exactly the table rows matching both the search and the category filter, each as often as the table holds it |
| `Index.SearchIgnoresCase` | app/routes/_index.tsx:15-20 | the search term's letter case does not change which articles match |
| `Index.ChildIds` | app/routes/_index.tsx:26-32 | the child ids are exactly the ids of articles whose parentId is the article's id |
| `Index.ChildCount` | app/routes/_index.tsx:151 | with unique ids, the child count shown equals the number of child articles |
| `Index.DistinctCategories` | app/routes/_index.tsx:35-42 | every category of the table, each exactly once, and nothing else |
| `Index.LoaderDefaults` | app/routes/_index.tsx:10-11 | an absent search is the empty search, which constrains nothing; an absent filter is "all" |
| `Index.LoaderResult` | app/routes/_index.tsx:7-43 | the listed articles are the table's matching rows, each as often as the table holds it, ordered by updatedAt non-increasing, each with its child ids; the categories are those of the whole table whatever the query |
| `Signup.Loader` | app/routes/signup.tsx:6-12 | redirects to "/" exactly when `getUser` resolves a user |
| `Signup.ActionGuards` | app/routes/signup.tsx:24-43 | a missing field gives "All fields are required"; a mismatch gives "Passwords do not match" before any length check; a matching pair shorter than 6 gives the minimum-length error |
| `Signup.ProviderOnlyAfterGuards` | app/routes/signup.tsx:24-50 | unless all fields are present, the passwords match and are at least 6 long, the answer is a 400 that no provider answer can change |
| `Signup.ProviderAnswer` | app/routes/signup.tsx:47-59 | past the guards, a provider error is returned verbatim with 400; success gives the fixed confirmation notice |
| `Login.Loader` | app/routes/login.tsx:6-12 | redirects to "/" exactly when `getUser` resolves a user |
| `Login.ErrorText` | app/routes/login.tsx:32-35 | a message containing "email not confirmed" in any letter case is replaced by the confirmation instructions; any other message is kept |
| `Login.ErrorTextByOffset` | app/routes/login.tsx:32-35 | the rewrite happens exactly when the lower-cased message shows the phrase at some offset |
| `Login.MissingFieldsSkipProvider` | app/routes/login.tsx:19-21 | a missing email or password gives 400 "Email and password are required", whatever the provider would answer |
| `Login.ProviderAnswer` | app/routes/login.tsx:25-39 | a provider error gives 400 with the rewritten message; success redirects to "/" |

## Left out

- React components, JSX and UI state (`TreeCategory`, `AlertMessage`, the default exports, `toggleCategory`) are presentation only.
- Supabase client construction and cookie plumbing (app/lib/supabase.server.ts, app/lib/supabase.client.ts) are foreign calls. The session and the provider answers are inputs, and the response headers carrying cookies are not modelled.
- `generateSlug`, `formatDate` and `getRelativeTime` live in `~/lib/utils`, which is not part of this model. The slug function is a parameter with no assumed properties.
- The Prisma client is not modelled as such; the Store stands for it. `orderBy` is modelled as a stable insertion sort, so rows with equal keys come out in one fixed order, which the database does not promise. String order "asc" is modelled as code-point lexicographic order, not the database collation.
- A new article's id is an input required to be unused, standing for the database's id generation. Timestamps are integers supplied by the caller.
- The check-then-write race between the slug lookup and the insert or update is a concurrency issue. Writes are modelled one at a time, so the database's late unique-constraint failure never occurs.
- A session whose user has no email is not modelled. The source asserts the email is present with `!`.
- Case-insensitive matching (`mode: "insensitive"`, `toLowerCase`) lower-cases ASCII letters only, not full Unicode. The model's `|password|` counts Unicode scalar values, where the source's `password.length` counts UTF-16 code units.
- The database's foreign keys on `parentId` and `authorId` are not modelled (the schema is not part of this model). Any `parentId` the form sends is stored as given.
- Article deletion (app/routes/articles.$id.delete.tsx) and the article detail loader (app/routes/articles.$id.tsx) are outside this model.
- The layout (app/root.tsx), build config, health probe and seed script are outside this model.
