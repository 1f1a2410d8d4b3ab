/** The article controller: reads the request, calls the service and chooses
    the response. The caller is the `req.user` the authentication middleware
    attached, or `None`; its `userId` is itself optional, as the token's
    claims are. */
module ArticleController {
  import opened Wrappers
  import opened Sequences
  import opened Schema
  import opened ArticleService
  import opened JsParseInt
  import opened Envelope

  const Unauthenticated := Refusal(401, "Authentication required")
  const NotFound := Refusal(404, "Article not found")
  const UpdateDenied := "You are not authorized to update this article"
  const DeleteDenied := "You are not authorized to delete this article"
  const ListFailed := "Failed to retrieve articles"
  const ReadFailed := "Failed to retrieve article"
  const CreateFailed := "Failed to create article"
  const UpdateFailed := "Failed to update article"
  const DeleteFailed := "Failed to delete article"
  const TrendingFailed := "Failed to retrieve trending articles"

  /** The query string of `GET /news`; an absent parameter is `None`. */
  datatype ListQuery = ListQuery(page: Option<string>, limit: Option<string>, category: Option<string>)

  /** `req.user`: the claims of a verified token. */
  datatype Caller = Caller(userId: Option<string>)

  /** The body of `POST /news`. */
  datatype ArticleBody = ArticleBody(
    title: string,
    category: string,
    readTime: string,
    imageUrl: string,
    content: string,
    tags: Option<seq<string>>,
    isTrending: Option<bool>,
    authorId: Option<string>)

  function PageOf(q: ListQuery): int { QueryNumber(q.page, 1) }
  function LimitOf(q: ListQuery): int { QueryNumber(q.limit, 10) }

  /** The `if (category)` test: present and not the empty string. */
  predicate HasCategory(q: ListQuery) { q.category.Some? && q.category.value != "" }

  /** `getAllArticles`: the whole category when one is given, otherwise the
      requested page; the parsed page and limit are echoed either way. */
  function GetAllArticles(db: Db, q: ListQuery): (res: Response)
    ensures res.status == 200 || res.status == 500
    ensures res.success <==> res.status == 200
    ensures HasCategory(q) ==>
              match GetArticlesByCategory(db, q.category.value)
              case Failure(m) => res == Caught(500, ListFailed, m)
              case Success(rows) =>
                res == Answer(200, "Articles retrieved successfully",
                              Some(Listing(RowList(rows), Pagination(PageOf(q), LimitOf(q), |rows|, false))))
    ensures !HasCategory(q) ==>
              match ArticleService.GetAllArticles(db, PageOf(q), LimitOf(q))
              case Failure(m) => res == Caught(500, ListFailed, m)
              case Success(p) =>
                res == Answer(200, "Articles retrieved successfully",
                              Some(Listing(ViewList(p.articles), Pagination(PageOf(q), LimitOf(q), p.total, p.hasMore))))
  {
    var page := PageOf(q);
    var limit := LimitOf(q);
    if HasCategory(q) then
      match GetArticlesByCategory(db, q.category.value)
      case Failure(m) => Caught(500, ListFailed, m)
      case Success(rows) =>
        Answer(200, "Articles retrieved successfully",
               Some(Listing(RowList(rows), Pagination(page, limit, |rows|, false))))
    else
      match ArticleService.GetAllArticles(db, page, limit)
      case Failure(m) => Caught(500, ListFailed, m)
      case Success(p) =>
        Answer(200, "Articles retrieved successfully",
               Some(Listing(ViewList(p.articles), Pagination(page, limit, p.total, p.hasMore))))
  }

  /** With a category, the listing holds every article of the category and
      only those, newest first, with `total` its length and `hasMore` false,
      whatever page and limit were asked for. */
  lemma CategoryListingIsWholeCategory(db: Db, q: ListQuery)
    requires db.failure.None? && HasCategory(q)
    ensures var res := GetAllArticles(db, q);
      && res.status == 200
      && res.data.Some? && res.data.value.Listing? && res.data.value.list.RowList?
      && var rows := res.data.value.list.rows;
      && SortedDesc(rows, CreatedAt)
      && (forall a :: a in rows <==> a in db.articles && a.category == q.category.value)
      && res.data.value.pagination == Pagination(PageOf(q), LimitOf(q), |rows|, false)
  {
  }

  /** A page given as the decimal numeral of a non-zero integer `n` of at
      most 2^53 in magnitude, negative ones included, is echoed back as `n`;
      "0" falls back to page 1. */
  lemma PageParameterPassesThrough(db: Db, q: ListQuery, n: int)
    requires -MaxSafe <= n <= MaxSafe
    requires db.failure.None? && HasCategory(q) && q.page == Some(IntToDecimal(n))
    ensures GetAllArticles(db, q).data.value.pagination.page == if n == 0 then 1 else n
  {
    QueryNumberOfDecimal(n, 1);
  }

  /** Without a category and with a positive limit, a negative page reaches
      the database as a negative OFFSET, which it refuses: the answer is a 500. */
  lemma NegativePageIsServerError(db: Db, q: ListQuery, n: int)
    requires db.failure.None? && !HasCategory(q) && LimitOf(q) >= 1
    requires -MaxSafe <= n < 0 && q.page == Some(IntToDecimal(n))
    ensures GetAllArticles(db, q) == Caught(500, ListFailed, FetchAllPrefix + NegativeOffset)
  {
    QueryNumberOfDecimal(n, 1);
    assert PageOf(q) == n;
    NegativeTimesPositive(n - 1, LimitOf(q));
  }

  lemma NegativeTimesPositive(a: int, b: int)
    requires a < 0 && b >= 1
    ensures a * b < 0
  {
  }

  /** `getArticleById`: 200 with the projection, 404 when there is no such
      article, 500 when the lookup throws. */
  function GetArticleById(db: Db, id: string): (res: Response)
    ensures db.failure.Some? ==> res == Caught(500, ReadFailed, FetchOnePrefix + db.failure.value)
    ensures db.failure.None? && (forall a :: a in db.articles ==> a.id != id) ==> res == NotFound
    ensures res.status == 200 <==> db.failure.None? && exists a :: a in db.articles && a.id == id
    ensures res.status == 200 ==>
              && res.success && res.message == "Article retrieved successfully"
              && res.data.Some? && res.data.value.ArticleView?
              && res.data.value.view.id == id && res.data.value.view.authorId == None
              && exists a :: a in db.articles && a.id == id && res.data == Some(ArticleView(View(db.users, a)))
  {
    match ArticleService.GetArticleById(db, id)
    case Failure(m) => Caught(500, ReadFailed, m)
    case Success(None) => NotFound
    case Success(Some(v)) => Answer(200, "Article retrieved successfully", Some(ArticleView(v)))
  }

  /** `getTrendingArticles`: 200 with every trending article, newest first. */
  function GetTrendingArticles(db: Db): (res: Response)
    ensures db.failure.Some? ==> res == Caught(500, TrendingFailed, TrendingPrefix + db.failure.value)
    ensures db.failure.None? ==>
              && res.status == 200 && res.success
              && res.message == "Trending articles retrieved successfully"
              && res.data.Some? && res.data.value.ArticleRows?
              && SortedDesc(res.data.value.rows, CreatedAt)
              && (forall a :: multiset(res.data.value.rows)[a] == if a.isTrending then multiset(db.articles)[a] else 0)
              && forall a :: a in res.data.value.rows <==> a in db.articles && a.isTrending
  {
    match ArticleService.GetTrendingArticles(db)
    case Failure(m) => Caught(500, TrendingFailed, m)
    case Success(rows) => Answer(200, "Trending articles retrieved successfully", Some(ArticleRows(rows)))
  }

  /** `{ ...req.body, authorId: req.user.userId }`: the caller's id replaces
      whatever author the body names. */
  function ArticleInput(body: ArticleBody, caller: Caller): CreateArticleInput {
    CreateArticleInput(body.title, body.category, body.readTime, body.imageUrl, body.content,
                       body.tags, body.isTrending, caller.userId)
  }

  /** The author named in the body has no effect on what is stored. */
  lemma BodyAuthorIsIgnored(body: ArticleBody, other: Option<string>, caller: Caller)
    ensures ArticleInput(body.(authorId := other), caller) == ArticleInput(body, caller)
    ensures ArticleInput(body, caller).authorId == caller.userId
  {
  }

  /** The ownership test of `updateArticle` and `deleteArticle`, once the caller
      is authenticated: an early response, or `None` to go on. It compares
      the `authorId` of the fetched projection with the caller's id. */
  function OwnershipGuard(lookup: Result<Option<ArticleWithAuthor>, string>, caller: Caller,
                          failed: string, denied: string): Option<Response>
  {
    match lookup
    case Failure(m) => Some(Caught(500, failed, m))
    case Success(None) => Some(NotFound)
    case Success(Some(v)) => if v.authorId != caller.userId then Some(Refusal(403, denied)) else None
  }

  /** The projection carries no `authorId`, so every caller whose token has a
      user id is refused an existing article, its author included; only a
      caller without a user id gets through. */
  lemma GuardRefusesEveryIdentifiedCaller(db: Db, id: string, caller: Caller, failed: string, denied: string)
    requires db.failure.None?
    requires exists a :: a in db.articles && a.id == id
    ensures OwnershipGuard(ArticleService.GetArticleById(db, id), caller, failed, denied)
              == if caller.userId.Some? then Some(Refusal(403, denied)) else None
  {
  }

  /** The author of an article is refused the update of it. */
  lemma AuthorIsRefused(db: Db, a: Article)
    requires db.failure.None? && a in db.articles
    ensures OwnershipGuard(ArticleService.GetArticleById(db, a.id), Caller(Some(a.authorId)), UpdateFailed, UpdateDenied)
              == Some(Refusal(403, UpdateDenied))
  {
    GuardRefusesEveryIdentifiedCaller(db, a.id, Caller(Some(a.authorId)), UpdateFailed, UpdateDenied);
  }

  /** The ownership test as evidently intended: compare the stored row's
      `authorId`, which the projection leaves out, with the caller's id. */
  function OwnerGuard(db: Db, id: string, caller: Caller, failed: string, denied: string): (r: Option<Response>)
    requires Distinct(db.articles, ArticleId)
    ensures r == None <==>
              db.failure.None? && exists a :: a in db.articles && a.id == id && caller.userId == Some(a.authorId)
    ensures r.Some? && r.value.status == 403 ==>
              exists a :: a in db.articles && a.id == id && caller.userId != Some(a.authorId)
  {
    if db.failure.Some? then Some(Caught(500, failed, FetchOnePrefix + db.failure.value))
    else
      match FindArticle(db.articles, id)
      case None => Some(NotFound)
      case Some(row) =>
        if caller.userId != Some(row.authorId) then
          assert forall a :: a in db.articles && a.id == id ==> a == row by {
            forall a | a in db.articles && a.id == id ensures a == row {
              DistinctIdsNameOneRow(db.articles, a, row);
            }
          }
          Some(Refusal(403, denied))
        else None
  }

  /** `createArticle`: 401 without a caller; otherwise the service inserts the
      body with the caller's id as author and the answer is 201 with the new
      row, or 500 with the service's error. */
  method CreateArticle(store: Store, caller: Option<Caller>, body: ArticleBody,
                       id: string, publishedAt: string, now: int) returns (res: Response)
    requires store.Valid()
    requires forall a :: a in store.articles ==> a.id != id
    modifies store
    ensures store.Valid()
    ensures caller.None? ==> res == Unauthenticated && store.Snapshot() == old(store.Snapshot())
    ensures res.status == 201 || res.status == 401 || res.status == 500
    ensures res.status != 201 ==> store.Snapshot() == old(store.Snapshot())
    ensures store.users == old(store.users) && store.savedArticles == old(store.savedArticles)
    ensures store.failure == old(store.failure)
    ensures caller.Some? ==>
              (res.status == 201 <==>
                 store.failure.None? && caller.value.userId.Some? && HasUser(store.users, caller.value.userId.value))
    ensures caller.Some? && store.failure.Some? ==>
              res == Caught(500, CreateFailed, CreatePrefix + store.failure.value)
    ensures caller.Some? ==> res.status != 401
    ensures caller.Some? && store.failure.None? && caller.value.userId.None? ==>
              res == Caught(500, CreateFailed, CreatePrefix + AuthorNotNull)
    ensures (caller.Some? && store.failure.None? && caller.value.userId.Some?
             && !HasUser(store.users, caller.value.userId.value))
              ==> res == Caught(500, CreateFailed, CreatePrefix + AuthorForeignKey)
    ensures res.status == 201 ==>
              && res.success && res.message == "Article created successfully"
              && res.data.Some? && res.data.value.ArticleRow? && res.data.value.row.Some?
              && var row := res.data.value.row.value;
              && store.articles == old(store.articles) + [row]
              && row.id == id && Some(row.authorId) == caller.value.userId
              && row.title == body.title && row.category == body.category
              && row.readTime == body.readTime && row.imageUrl == body.imageUrl
              && row.content == body.content && row.tags == body.tags
              && row.isTrending == (body.isTrending == Some(true))
              && row.createdAt == now && row.updatedAt == now && row.publishedAt == publishedAt
  {
    if caller.None? {
      return Unauthenticated;
    }
    var created := store.CreateArticle(ArticleInput(body, caller.value), id, publishedAt, now);
    match created {
      case Failure(m) =>
        res := Caught(500, CreateFailed, m);
      case Success(row) =>
        res := Answer(201, "Article created successfully", Some(ArticleRow(Some(row))));
    }
  }

  /** `updateArticle`: 401 without a caller, then the ownership guard, then the
      service's update and a 200 with the updated row. */
  method UpdateArticle(store: Store, caller: Option<Caller>, id: string, patch: ArticlePatch, now: int)
    returns (res: Response)
    requires store.Valid()
    modifies store
    ensures store.Valid()
    ensures caller.None? ==> res == Unauthenticated && store.Snapshot() == old(store.Snapshot())
    ensures caller.Some? ==>
              match OwnershipGuard(ArticleService.GetArticleById(old(store.Snapshot()), id), caller.value,
                                   UpdateFailed, UpdateDenied)
              case Some(early) => res == early && store.Snapshot() == old(store.Snapshot())
              case None =>
                && res.status == 200 && res.success && res.message == "Article updated successfully"
                && store.users == old(store.users) && store.savedArticles == old(store.savedArticles)
                && store.failure == old(store.failure)
                && |store.articles| == |old(store.articles)|
                && (forall i :: 0 <= i < |store.articles| ==>
                      store.articles[i] == if old(store.articles)[i].id == id
                                           then Patched(old(store.articles)[i], patch, now)
                                           else old(store.articles)[i])
                && exists a :: a in old(store.articles) && a.id == id
                               && res.data == Some(ArticleRow(Some(Patched(a, patch, now))))
  {
    if caller.None? {
      return Unauthenticated;
    }
    var lookup := ArticleService.GetArticleById(store.Snapshot(), id);
    var early := OwnershipGuard(lookup, caller.value, UpdateFailed, UpdateDenied);
    if early.Some? {
      return early.value;
    }
    var updated := store.UpdateArticle(id, patch, now);
    match updated {
      case Failure(m) =>
        res := Caught(500, UpdateFailed, m);
      case Success(row) =>
        assert row.Some?;
        res := Answer(200, "Article updated successfully", Some(ArticleRow(row)));
    }
  }

  /** `deleteArticle`: 401 without a caller, then the ownership guard, then the
      service's delete and a 200 whatever it reports. */
  method DeleteArticle(store: Store, caller: Option<Caller>, id: string) returns (res: Response)
    requires store.Valid()
    modifies store
    ensures store.Valid()
    ensures caller.None? ==> res == Unauthenticated && store.Snapshot() == old(store.Snapshot())
    ensures caller.Some? ==>
              match OwnershipGuard(ArticleService.GetArticleById(old(store.Snapshot()), id), caller.value,
                                   DeleteFailed, DeleteDenied)
              case Some(early) => res == early && store.Snapshot() == old(store.Snapshot())
              case None =>
                && res == Answer(200, "Article deleted successfully", None)
                && store.users == old(store.users) && store.savedArticles == old(store.savedArticles)
                && store.failure == old(store.failure)
                && store.articles == Filter(old(store.articles), NotWithId(id))
                && forall a :: a in store.articles <==> a in old(store.articles) && a.id != id
  {
    if caller.None? {
      return Unauthenticated;
    }
    var lookup := ArticleService.GetArticleById(store.Snapshot(), id);
    var early := OwnershipGuard(lookup, caller.value, DeleteFailed, DeleteDenied);
    if early.Some? {
      return early.value;
    }
    var deleted := store.DeleteArticle(id);
    match deleted {
      case Failure(m) =>
        res := Caught(500, DeleteFailed, m);
      case Success(_) =>
        res := Answer(200, "Article deleted successfully", None);
    }
  }
}
