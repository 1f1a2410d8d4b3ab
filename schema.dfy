/** The records of the `users`, `articles` and `saved_articles` tables, the
    joined `ArticleWithAuthor` projection, and the constraints of the schema
    as one store invariant. Timestamps are integers read from a clock. */
module Schema {
  import opened Wrappers
  import opened Sequences

  /** A row of `users`. */
  datatype User = User(
    id: string,
    email: string,
    password: string,
    name: string,
    title: string,
    avatar: string,
    createdAt: int)

  /** A row of `articles`. `publishedAt` is a display string, not a sort key;
      `tags` is the one nullable column. */
  datatype Article = Article(
    id: string,
    title: string,
    category: string,
    publishedAt: string,
    readTime: string,
    imageUrl: string,
    isTrending: bool,
    tags: Option<seq<string>>,
    content: string,
    authorId: string,
    createdAt: int,
    updatedAt: int)

  /** A row of `saved_articles`: one bookmark of `articleId` by `userId`. */
  datatype SavedArticle = SavedArticle(userId: string, articleId: string, savedAt: int)

  /** The author columns a left join with `users` yields: `null` as a whole
      when no user matches. */
  datatype AuthorSummary = AuthorSummary(name: string, title: Option<string>, avatar: Option<string>)

  /** An article row without its `authorId` column, plus its author summary.
      The type leaves `authorId` optional; the queries never fill it. */
  datatype ArticleWithAuthor = ArticleWithAuthor(
    id: string,
    title: string,
    category: string,
    publishedAt: string,
    readTime: string,
    imageUrl: string,
    isTrending: bool,
    tags: Option<seq<string>>,
    content: string,
    createdAt: int,
    updatedAt: int,
    authorId: Option<string>,
    author: Option<AuthorSummary>)

  function UserId(u: User): string { u.id }
  function UserEmail(u: User): string { u.email }
  function ArticleId(a: Article): string { a.id }
  function BookmarkKey(s: SavedArticle): (string, string) { (s.userId, s.articleId) }

  /** Some user has the id `id`. */
  predicate HasUser(users: seq<User>, id: string) {
    exists u :: u in users && u.id == id
  }

  /** The schema as one invariant: `users.id` is a primary key and `email` is
      unique; `articles.id` is a primary key; every `authorId` references an
      existing user; at most one bookmark per (user, article) pair, which
      `saveArticle` maintains. */
  ghost predicate Valid(users: seq<User>, articles: seq<Article>, saved: seq<SavedArticle>) {
    && Distinct(users, UserId)
    && Distinct(users, UserEmail)
    && Distinct(articles, ArticleId)
    && (forall a :: a in articles ==> HasUser(users, a.authorId))
    && Distinct(saved, BookmarkKey)
  }

  /** In a table whose ids are distinct, an id names at most one row. */
  lemma DistinctIdsNameOneRow(articles: seq<Article>, a: Article, b: Article)
    requires Distinct(articles, ArticleId)
    requires a in articles && b in articles && a.id == b.id
    ensures a == b
  {
    var i :| 0 <= i < |articles| && articles[i] == a;
    var j :| 0 <= j < |articles| && articles[j] == b;
  }
}
