/** The article service over an in-memory copy of the database. Each query of
    the service is a function of a `Db` value (the tables plus the error the
    database currently raises, if any); each statement that writes is a
    method of `Store`, whose fields are the same tables. Every `catch` of the
    service becomes a `Failure` whose message is the operation's prefix
    followed by the database's message. */
module ArticleService {
  import opened Wrappers
  import opened Sequences
  import opened Schema

  const FetchAllPrefix := "Failed to fetch articles: "
  const FetchOnePrefix := "Failed to fetch article: "
  const CreatePrefix := "Failed to create article: "
  const UpdatePrefix := "Failed to update article: "
  const DeletePrefix := "Failed to delete article: "
  const CategoryPrefix := "Failed to fetch articles by category: "
  const TrendingPrefix := "Failed to fetch trending articles: "
  const ByUserPrefix := "Failed to fetch user articles: "
  const SavePrefix := "Failed to save article: "
  const UnsavePrefix := "Failed to unsave article: "
  const SavedListPrefix := "Failed to fetch saved articles: "
  const SavedStatusPrefix := "Failed to check saved status: "
  const ArticleNotFound := "Article not found"

  // Messages PostgreSQL raises for the statements below.
  const NegativeOffset := "OFFSET must not be negative"
  const AuthorNotNull := "null value in column \"author_id\" of relation \"articles\" violates not-null constraint"
  const AuthorForeignKey := "insert or update on table \"articles\" violates foreign key constraint \"articles_author_id_users_id_fk\""

  /** The database as the queries see it. `failure` is the message of the
      error every statement raises while the database is unusable. */
  datatype Db = Db(users: seq<User>, articles: seq<Article>, saved: seq<SavedArticle>, failure: Option<string>)

  /** What `getAllArticles` returns. */
  datatype ArticlePage = ArticlePage(articles: seq<ArticleWithAuthor>, total: int, hasMore: bool)

  /** The fields `createArticle` takes. `authorId` is `None` when the caller's
      token carries no user id. */
  datatype CreateArticleInput = CreateArticleInput(
    title: string,
    category: string,
    readTime: string,
    imageUrl: string,
    content: string,
    tags: Option<seq<string>>,
    isTrending: Option<bool>,
    authorId: Option<string>)

  /** The fields `updateArticle` may overwrite; `None` leaves one unchanged. */
  datatype ArticlePatch = ArticlePatch(
    title: Option<string>,
    category: Option<string>,
    readTime: Option<string>,
    imageUrl: Option<string>,
    isTrending: Option<bool>,
    tags: Option<Option<seq<string>>>,
    content: Option<string>)

  /** A bookmarked article joined with its author, with the time it was saved. */
  datatype Bookmark = Bookmark(savedAt: int, view: ArticleWithAuthor)

  function Min(a: int, b: int): int { if a <= b then a else b }

  function CreatedAt(a: Article): int { a.createdAt }
  function ViewCreatedAt(v: ArticleWithAuthor): int { v.createdAt }
  function BookmarkSavedAt(b: Bookmark): int { b.savedAt }

  function InCategory(category: string): Article -> bool { (a: Article) => a.category == category }
  function IsTrending(a: Article): bool { a.isTrending }
  function ByAuthor(userId: string): Article -> bool { (a: Article) => a.authorId == userId }
  function WithId(id: string): Article -> bool { (a: Article) => a.id == id }
  function NotWithId(id: string): Article -> bool { (a: Article) => a.id != id }
  function NotBookmark(userId: string, articleId: string): SavedArticle -> bool {
    (s: SavedArticle) => !(s.userId == userId && s.articleId == articleId)
  }

  /** The first user with id `id`: the row the left join picks. */
  function FindUser(users: seq<User>, id: string): (r: Option<User>)
    ensures r.Some? ==> r.value in users && r.value.id == id
    ensures r.None? <==> !HasUser(users, id)
  {
    if |users| == 0 then None
    else if users[0].id == id then Some(users[0])
    else FindUser(users[1..], id)
  }

  /** The first article with id `id`. */
  function FindArticle(articles: seq<Article>, id: string): (r: Option<Article>)
    ensures r.Some? ==> r.value in articles && r.value.id == id
    ensures r.None? <==> forall a :: a in articles ==> a.id != id
  {
    if |articles| == 0 then None
    else if articles[0].id == id then Some(articles[0])
    else FindArticle(articles[1..], id)
  }

  /** The projection every joined query selects: the article's columns except
      `authorId`, and the author's name, title and avatar exactly when some
      user has the id (the left join). */
  function View(users: seq<User>, a: Article): (v: ArticleWithAuthor)
    ensures v.id == a.id && v.title == a.title && v.content == a.content && v.createdAt == a.createdAt
    ensures v.category == a.category && v.publishedAt == a.publishedAt && v.readTime == a.readTime
            && v.imageUrl == a.imageUrl && v.isTrending == a.isTrending && v.tags == a.tags
            && v.updatedAt == a.updatedAt
    ensures v.authorId == None
    ensures v.author.Some? <==> HasUser(users, a.authorId)
    ensures v.author.Some? ==>
              exists u :: u in users && u.id == a.authorId
                          && v.author.value == AuthorSummary(u.name, Some(u.title), Some(u.avatar))
  {
    var author := match FindUser(users, a.authorId)
      case Some(u) => Some(AuthorSummary(u.name, Some(u.title), Some(u.avatar)))
      case None => None;
    ArticleWithAuthor(a.id, a.title, a.category, a.publishedAt, a.readTime, a.imageUrl,
                      a.isTrending, a.tags, a.content, a.createdAt, a.updatedAt, None, author)
  }

  function Views(users: seq<User>, rows: seq<Article>): (r: seq<ArticleWithAuthor>)
    ensures |r| == |rows|
    ensures forall i :: 0 <= i < |rows| ==> r[i] == View(users, rows[i])
  {
    seq(|rows|, i requires 0 <= i < |rows| => View(users, rows[i]))
  }

  lemma InViews(users: seq<User>, rows: seq<Article>, v: ArticleWithAuthor)
    ensures v in Views(users, rows) <==> exists a :: a in rows && v == View(users, a)
  {
    if exists a :: a in rows && v == View(users, a) {
      var a :| a in rows && v == View(users, a);
      var i :| 0 <= i < |rows| && rows[i] == a;
      assert Views(users, rows)[i] == v;
    }
  }

  /** `(page - 1) * limit`, the first row of a page. */
  function Offset(page: int, limit: int): int { (page - 1) * limit }

  /** Every article joined with its author, newest first. */
  function NewestViews(db: Db): (r: seq<ArticleWithAuthor>)
    ensures SortedDesc(r, ViewCreatedAt)
    ensures multiset(r) == multiset(Views(db.users, db.articles))
    ensures |r| == |db.articles|
  {
    var r := SortDesc(Views(db.users, db.articles), ViewCreatedAt);
    assert |multiset(r)| == |db.articles|;
    r
  }

  /** `getAllArticles`: the page of `limit` rows starting at `Offset(page, limit)`
      of all articles newest first, the count of all articles, and whether
      rows remain after the page. The query builder writes a LIMIT clause
      only for a limit that is not negative, so a negative limit selects
      every row from the offset on; it writes a non-zero OFFSET as given, and
      PostgreSQL rejects a negative one. */
  function GetAllArticles(db: Db, page: int, limit: int): (r: Result<ArticlePage, string>)
    ensures r.Success? <==> db.failure.None? && Offset(page, limit) >= 0
    ensures db.failure.Some? ==> r == Failure(FetchAllPrefix + db.failure.value)
    ensures db.failure.None? && Offset(page, limit) < 0 ==> r == Failure(FetchAllPrefix + NegativeOffset)
    ensures r.Success? ==>
              var offset := Offset(page, limit);
              var n := |db.articles|;
              && r.value.total == n
              && (r.value.hasMore <==> n > offset + limit)
              && |r.value.articles| == (if offset >= n then 0
                                        else if limit < 0 then n - offset
                                        else Min(limit, n - offset))
              && (limit >= 0 ==> |r.value.articles| <= limit)
              && forall i :: 0 <= i < |r.value.articles| ==> r.value.articles[i] == NewestViews(db)[offset + i]
  {
    var offset := Offset(page, limit);
    if db.failure.Some? then Failure(FetchAllPrefix + db.failure.value)
    else if offset < 0 then Failure(FetchAllPrefix + NegativeOffset)
    else
      var total := |db.articles|;
      Success(ArticlePage(Window(NewestViews(db), offset, limit), total, total > offset + limit))
  }

  /** A negative limit on the first page lists every article, newest first,
      and reports that more remain. */
  lemma NegativeLimitListsEverything(db: Db, limit: int)
    requires db.failure.None? && limit < 0
    ensures GetAllArticles(db, 1, limit) == Success(ArticlePage(NewestViews(db), |db.articles|, true))
  {
    var all := NewestViews(db);
    assert Offset(1, limit) == 0;
    assert Window(all, 0, limit) == all;
  }

  /** What LIMIT and OFFSET select: the rows `offset .. offset + limit` of
      `all` as far as they exist, or every row from `offset` on when there is
      no LIMIT clause (a negative `limit`). */
  function Window(all: seq<ArticleWithAuthor>, offset: nat, limit: int): (r: seq<ArticleWithAuthor>)
    ensures |r| == (if offset >= |all| then 0 else if limit < 0 then |all| - offset else Min(limit, |all| - offset))
    ensures forall i :: 0 <= i < |r| ==> r[i] == all[offset + i]
  {
    var end := if limit < 0 then |all| else Min(offset + limit, |all|);
    all[Min(offset, |all|)..end]
  }

  /** On a usable database, `hasMore` says exactly whether the next page has
      rows. */
  lemma {:induction false} HasMoreIffNextPageHasRows(db: Db, page: int, limit: int)
    requires db.failure.None? && page >= 1 && limit >= 1
    ensures GetAllArticles(db, page, limit).Success? && GetAllArticles(db, page + 1, limit).Success?
    ensures GetAllArticles(db, page, limit).value.hasMore <==> |GetAllArticles(db, page + 1, limit).value.articles| > 0
  {
    assert Offset(page + 1, limit) == Offset(page, limit) + limit;
    assert Offset(page, limit) >= 0;
  }

  /** `getArticleById`: the projection of the article with id `id`, or `None`. */
  function GetArticleById(db: Db, id: string): (r: Result<Option<ArticleWithAuthor>, string>)
    ensures db.failure.Some? ==> r == Failure(FetchOnePrefix + db.failure.value)
    ensures db.failure.None? ==> r.Success?
    ensures r.Success? ==> (r.value.None? <==> forall a :: a in db.articles ==> a.id != id)
    ensures r.Success? && r.value.Some? ==>
              && r.value.value.id == id
              && r.value.value.authorId == None
              && exists a :: a in db.articles && a.id == id && r.value.value == View(db.users, a)
  {
    if db.failure.Some? then Failure(FetchOnePrefix + db.failure.value)
    else
      match FindArticle(db.articles, id)
      case Some(a) => Success(Some(View(db.users, a)))
      case None => Success(None)
  }

  /** In a table with distinct ids, `getArticleById` finds exactly the row. */
  lemma GetArticleByIdFindsRow(db: Db, a: Article)
    requires db.failure.None? && Distinct(db.articles, ArticleId)
    requires a in db.articles
    ensures GetArticleById(db, a.id) == Success(Some(View(db.users, a)))
  {
    var b := FindArticle(db.articles, a.id).value;
    DistinctIdsNameOneRow(db.articles, a, b);
  }

  /** `getArticlesByCategory`: every row of the category, newest first. */
  function GetArticlesByCategory(db: Db, category: string): (r: Result<seq<Article>, string>)
    ensures db.failure.Some? ==> r == Failure(CategoryPrefix + db.failure.value)
    ensures db.failure.None? ==> r.Success?
    ensures r.Success? ==>
              && SortedDesc(r.value, CreatedAt)
              && (forall a :: multiset(r.value)[a] == if a.category == category then multiset(db.articles)[a] else 0)
              && forall a :: a in r.value <==> a in db.articles && a.category == category
  {
    if db.failure.Some? then Failure(CategoryPrefix + db.failure.value)
    else Success(SortDesc(Filter(db.articles, InCategory(category)), CreatedAt))
  }

  /** `getTrendingArticles`: every row flagged trending, newest first. */
  function GetTrendingArticles(db: Db): (r: Result<seq<Article>, string>)
    ensures db.failure.Some? ==> r == Failure(TrendingPrefix + db.failure.value)
    ensures db.failure.None? ==> r.Success?
    ensures r.Success? ==>
              && SortedDesc(r.value, CreatedAt)
              && (forall a :: multiset(r.value)[a] == if a.isTrending then multiset(db.articles)[a] else 0)
              && forall a :: a in r.value <==> a in db.articles && a.isTrending
  {
    if db.failure.Some? then Failure(TrendingPrefix + db.failure.value)
    else Success(SortDesc(Filter(db.articles, IsTrending), CreatedAt))
  }

  /** `getArticlesByUser`: the projection of every row written by `userId`,
      newest first. */
  function GetArticlesByUser(db: Db, userId: string): (r: Result<seq<ArticleWithAuthor>, string>)
    ensures db.failure.Some? ==> r == Failure(ByUserPrefix + db.failure.value)
    ensures db.failure.None? ==> r.Success?
    ensures r.Success? ==>
              && SortedDesc(r.value, ViewCreatedAt)
              && multiset(r.value) == multiset(Views(db.users, Filter(db.articles, ByAuthor(userId))))
              && forall v :: v in r.value <==> exists a :: a in db.articles && a.authorId == userId && v == View(db.users, a)
  {
    if db.failure.Some? then Failure(ByUserPrefix + db.failure.value)
    else
      var mine := Filter(db.articles, ByAuthor(userId));
      var r := SortDesc(Views(db.users, mine), ViewCreatedAt);
      SortedViewsOfFilter(db, ByAuthor(userId), r);
      Success(r)
  }

  /** A sorted projection of the rows `p` selects holds exactly their views. */
  lemma SortedViewsOfFilter(db: Db, p: Article -> bool, r: seq<ArticleWithAuthor>)
    requires multiset(r) == multiset(Views(db.users, Filter(db.articles, p)))
    ensures forall v :: v in r <==> exists a :: a in db.articles && p(a) && v == View(db.users, a)
  {
    var rows := Filter(db.articles, p);
    forall v ensures v in r <==> exists a :: a in db.articles && p(a) && v == View(db.users, a) {
      assert v in r <==> v in multiset(r);
      assert v in multiset(Views(db.users, rows)) <==> v in Views(db.users, rows);
      InViews(db.users, rows, v);
    }
  }

  /** The joined rows one bookmark row contributes: one per article with the
      bookmarked id, when the bookmark is `userId`'s. */
  function JoinOne(db: Db, s: SavedArticle, userId: string): seq<Bookmark> {
    if s.userId == userId then
      var rows := Filter(db.articles, WithId(s.articleId));
      seq(|rows|, i requires 0 <= i < |rows| => Bookmark(s.savedAt, View(db.users, rows[i])))
    else []
  }

  /** The rows of the join of `saved` (restricted to `userId`) with `articles`
      and `users`, in the order of `saved`. */
  function JoinBookmarks(db: Db, saved: seq<SavedArticle>, userId: string): seq<Bookmark>
  {
    if |saved| == 0 then []
    else JoinOne(db, saved[0], userId) + JoinBookmarks(db, saved[1..], userId)
  }

  /** What one bookmark row contributes to the join. */
  lemma InJoinOne(db: Db, s: SavedArticle, userId: string, b: Bookmark)
    ensures b in JoinOne(db, s, userId) <==>
              s.userId == userId
              && exists a :: a in db.articles && a.id == s.articleId && b == Bookmark(s.savedAt, View(db.users, a))
  {
    if s.userId == userId {
      var rows := Filter(db.articles, WithId(s.articleId));
      var here := JoinOne(db, s, userId);
      if b in here {
        JoinOneComesFromRow(db, s, userId, b);
      }
      if exists a :: a in db.articles && a.id == s.articleId && b == Bookmark(s.savedAt, View(db.users, a)) {
        var a :| a in db.articles && a.id == s.articleId && b == Bookmark(s.savedAt, View(db.users, a));
        JoinOneHasRow(db, s, userId, a);
      }
    }
  }

  lemma JoinOneComesFromRow(db: Db, s: SavedArticle, userId: string, b: Bookmark)
    requires s.userId == userId && b in JoinOne(db, s, userId)
    ensures exists a :: a in db.articles && a.id == s.articleId && b == Bookmark(s.savedAt, View(db.users, a))
  {
    var rows := Filter(db.articles, WithId(s.articleId));
    var here := JoinOne(db, s, userId);
    var i :| 0 <= i < |here| && here[i] == b;
    assert rows[i] in rows;
  }

  lemma JoinOneHasRow(db: Db, s: SavedArticle, userId: string, a: Article)
    requires s.userId == userId && a in db.articles && a.id == s.articleId
    ensures Bookmark(s.savedAt, View(db.users, a)) in JoinOne(db, s, userId)
  {
    var rows := Filter(db.articles, WithId(s.articleId));
    assert a in rows;
    var i :| 0 <= i < |rows| && rows[i] == a;
    assert JoinOne(db, s, userId)[i] == Bookmark(s.savedAt, View(db.users, a));
  }

  /** A joined bookmark row comes from a bookmark of `userId` and an article with
      the bookmarked id, and every such pair yields one. */
  lemma {:induction false} InJoinBookmarks(db: Db, saved: seq<SavedArticle>, userId: string, b: Bookmark)
    ensures b in JoinBookmarks(db, saved, userId) <==>
              exists s, a :: s in saved && a in db.articles && s.userId == userId && a.id == s.articleId
                             && b == Bookmark(s.savedAt, View(db.users, a))
  {
    if |saved| > 0 {
      InJoinBookmarks(db, saved[1..], userId, b);
      InJoinOne(db, saved[0], userId, b);
      assert forall s :: s in saved <==> s == saved[0] || s in saved[1..];
    }
  }

  /** The joined bookmarks of `userId`, most recently saved first. */
  function SavedByRecency(db: Db, userId: string): (r: seq<Bookmark>)
    ensures SortedDesc(r, BookmarkSavedAt)
    ensures multiset(r) == multiset(JoinBookmarks(db, db.saved, userId))
  {
    SortDesc(JoinBookmarks(db, db.saved, userId), BookmarkSavedAt)
  }

  /** The projections of `marks`, in order. */
  function BookmarkViews(marks: seq<Bookmark>): (r: seq<ArticleWithAuthor>)
    ensures |r| == |marks|
    ensures forall i :: 0 <= i < |marks| ==> r[i] == marks[i].view
  {
    seq(|marks|, i requires 0 <= i < |marks| => marks[i].view)
  }

  /** A projection is among the saved articles of `userId` iff the user saved
      an article that still exists and it is that article's projection. */
  lemma InSavedViews(db: Db, userId: string, v: ArticleWithAuthor)
    ensures v in BookmarkViews(SavedByRecency(db, userId)) <==>
              exists s, a :: s in db.saved && a in db.articles && s.userId == userId && a.id == s.articleId
                             && v == View(db.users, a)
  {
    var marks := SavedByRecency(db, userId);
    var r := BookmarkViews(marks);
    if v in r {
      var i :| 0 <= i < |r| && r[i] == v;
      assert marks[i] in multiset(marks);
      InJoinBookmarks(db, db.saved, userId, marks[i]);
    }
    if exists s, a :: s in db.saved && a in db.articles && s.userId == userId && a.id == s.articleId
                       && v == View(db.users, a) {
      var s, a :| s in db.saved && a in db.articles && s.userId == userId && a.id == s.articleId
                  && v == View(db.users, a);
      var b := Bookmark(s.savedAt, v);
      InJoinBookmarks(db, db.saved, userId, b);
      assert b in multiset(marks);
      var i :| 0 <= i < |marks| && marks[i] == b;
      assert r[i] == v;
    }
  }

  /** `getSavedArticles`: the articles `userId` bookmarked that still exist,
      joined with their authors, most recently saved first. */
  function GetSavedArticles(db: Db, userId: string): (r: Result<seq<ArticleWithAuthor>, string>)
    ensures db.failure.Some? ==> r == Failure(SavedListPrefix + db.failure.value)
    ensures db.failure.None? ==> r.Success?
    ensures r.Success? ==>
              var marks := SavedByRecency(db, userId);
              && |r.value| == |marks|
              && (forall i :: 0 <= i < |marks| ==> r.value[i] == marks[i].view)
              && forall v :: v in r.value <==>
                   exists s, a :: s in db.saved && a in db.articles && s.userId == userId && a.id == s.articleId
                                  && v == View(db.users, a)
  {
    if db.failure.Some? then Failure(SavedListPrefix + db.failure.value)
    else
      var r := BookmarkViews(SavedByRecency(db, userId));
      assert forall v :: v in r <==>
               exists s, a :: s in db.saved && a in db.articles && s.userId == userId && a.id == s.articleId
                              && v == View(db.users, a) by {
        forall v {
          InSavedViews(db, userId, v);
        }
      }
      Success(r)
  }

  /** Some bookmark row pairs `userId` with `articleId`. */
  predicate HasBookmark(saved: seq<SavedArticle>, userId: string, articleId: string) {
    exists s :: s in saved && s.userId == userId && s.articleId == articleId
  }

  /** How many bookmark rows pair `userId` with `articleId`. */
  function BookmarkCount(saved: seq<SavedArticle>, userId: string, articleId: string): nat {
    if |saved| == 0 then 0
    else (if saved[0].userId == userId && saved[0].articleId == articleId then 1 else 0)
         + BookmarkCount(saved[1..], userId, articleId)
  }

  /** With one bookmark per pair, a pair is present exactly once or not at all. */
  lemma {:induction false} BookmarkCountOfDistinct(saved: seq<SavedArticle>, userId: string, articleId: string)
    requires Distinct(saved, BookmarkKey)
    ensures BookmarkCount(saved, userId, articleId) == if HasBookmark(saved, userId, articleId) then 1 else 0
  {
    if |saved| > 0 {
      assert Distinct(saved[1..], BookmarkKey) by {
        forall i, j | 0 <= i < j < |saved[1..]| ensures BookmarkKey(saved[1..][i]) != BookmarkKey(saved[1..][j]) {
          assert BookmarkKey(saved[i + 1]) != BookmarkKey(saved[j + 1]);
        }
      }
      BookmarkCountOfDistinct(saved[1..], userId, articleId);
      assert saved == [saved[0]] + saved[1..];
      if saved[0].userId == userId && saved[0].articleId == articleId {
        forall s | s in saved[1..] ensures !(s.userId == userId && s.articleId == articleId) {
          var k :| 0 <= k < |saved[1..]| && saved[1..][k] == s;
          assert BookmarkKey(saved[0]) != BookmarkKey(saved[k + 1]);
        }
      } else {
        if HasBookmark(saved, userId, articleId) {
          var s :| s in saved && s.userId == userId && s.articleId == articleId;
          assert s in saved[1..];
        }
      }
    }
  }

  /** `isSaved`: whether `userId` bookmarked `articleId`. */
  function IsSaved(db: Db, userId: string, articleId: string): (r: Result<bool, string>)
    ensures db.failure.Some? ==> r == Failure(SavedStatusPrefix + db.failure.value)
    ensures db.failure.None? ==>
              r == Success(exists s :: s in db.saved && s.userId == userId && s.articleId == articleId)
  {
    if db.failure.Some? then Failure(SavedStatusPrefix + db.failure.value)
    else Success(HasBookmark(db.saved, userId, articleId))
  }

  /** The row `updateArticle` writes: the supplied fields, the rest of the row
      as it was, and a new `updatedAt`. */
  function Patched(a: Article, p: ArticlePatch, now: int): Article {
    a.(title := p.title.GetOr(a.title),
       category := p.category.GetOr(a.category),
       readTime := p.readTime.GetOr(a.readTime),
       imageUrl := p.imageUrl.GetOr(a.imageUrl),
       isTrending := p.isTrending.GetOr(a.isTrending),
       tags := p.tags.GetOr(a.tags),
       content := p.content.GetOr(a.content),
       updatedAt := now)
  }

  /** A patch never touches the id, the author, the creation time or the
      display date, and an empty patch only stamps `updatedAt`. */
  lemma PatchedKeepsIdentity(a: Article, p: ArticlePatch, now: int)
    ensures var r := Patched(a, p, now);
      && r.id == a.id && r.authorId == a.authorId && r.createdAt == a.createdAt
      && r.publishedAt == a.publishedAt && r.updatedAt == now
      && (p == ArticlePatch(None, None, None, None, None, None, None) ==> r == a.(updatedAt := now))
  {
  }

  /** The tables, with the error the database raises, if any. */
  class Store {
    var users: seq<User>
    var articles: seq<Article>
    var savedArticles: seq<SavedArticle>
    var failure: Option<string>

    ghost predicate Valid()
      reads this
    {
      Schema.Valid(users, articles, savedArticles)
    }

    function Snapshot(): Db
      reads this
    {
      Db(users, articles, savedArticles, failure)
    }

    constructor(users: seq<User>, failure: Option<string>)
      requires Distinct(users, UserId) && Distinct(users, UserEmail)
      ensures Valid()
      ensures Snapshot() == Db(users, [], [], failure)
    {
      this.users := users;
      this.articles := [];
      this.savedArticles := [];
      this.failure := failure;
    }

    /** `createArticle`: inserts one row with the id the generator supplied,
        the display date `publishedAt` and the clock reading `now`, and
        returns it. `id` is fresh, as the generator promises. */
    method CreateArticle(input: CreateArticleInput, id: string, publishedAt: string, now: int)
      returns (r: Result<Article, string>)
      requires Valid()
      requires forall a :: a in articles ==> a.id != id
      modifies this
      ensures Valid()
      ensures users == old(users) && savedArticles == old(savedArticles) && failure == old(failure)
      ensures r.Success? <==> failure.None? && input.authorId.Some? && HasUser(users, input.authorId.value)
      ensures r.Failure? ==> articles == old(articles)
      ensures failure.Some? ==> r == Failure(CreatePrefix + failure.value)
      ensures failure.None? && input.authorId.None? ==> r == Failure(CreatePrefix + AuthorNotNull)
      ensures (failure.None? && input.authorId.Some? && !HasUser(users, input.authorId.value))
                ==> r == Failure(CreatePrefix + AuthorForeignKey)
      ensures r.Success? ==>
                var row := r.value;
                && articles == old(articles) + [row]
                && row.id == id && row.authorId == input.authorId.value
                && row.title == input.title && row.category == input.category
                && row.readTime == input.readTime && row.imageUrl == input.imageUrl
                && row.content == input.content && row.tags == input.tags
                && (row.isTrending <==> input.isTrending == Some(true))
                && row.publishedAt == publishedAt
                && row.createdAt == now && row.updatedAt == now
    {
      if failure.Some? {
        return Failure(CreatePrefix + failure.value);
      }
      if input.authorId.None? {
        return Failure(CreatePrefix + AuthorNotNull);
      }
      if FindUser(users, input.authorId.value).None? {
        return Failure(CreatePrefix + AuthorForeignKey);
      }
      var row := Article(id, input.title, input.category, publishedAt, input.readTime, input.imageUrl,
                         input.isTrending.GetOr(false), input.tags, input.content,
                         input.authorId.value, now, now);
      AppendKeepsDistinct(articles, row, ArticleId);
      articles := articles + [row];
      r := Success(row);
    }

    /** `updateArticle`: applies `patch` to every row with id `id` (one, the
        id being a key) and returns the updated row, or `None` when there is
        none. */
    method UpdateArticle(id: string, patch: ArticlePatch, now: int) returns (r: Result<Option<Article>, string>)
      requires Valid()
      modifies this
      ensures Valid()
      ensures users == old(users) && savedArticles == old(savedArticles) && failure == old(failure)
      ensures failure.Some? ==> r == Failure(UpdatePrefix + failure.value) && articles == old(articles)
      ensures failure.None? ==>
                && |articles| == |old(articles)|
                && forall i :: 0 <= i < |articles| ==>
                     articles[i] == if old(articles)[i].id == id then Patched(old(articles)[i], patch, now)
                                    else old(articles)[i]
      ensures failure.None? ==> r.Success?
      ensures r == Success(None) <==> failure.None? && forall a :: a in old(articles) ==> a.id != id
      ensures r.Success? && r.value.Some? ==>
                && r.value.value in articles && r.value.value.id == id
                && exists a :: a in old(articles) && a.id == id && r.value.value == Patched(a, patch, now)
    {
      if failure.Some? {
        return Failure(UpdatePrefix + failure.value);
      }
      var found := FindArticle(articles, id);
      var before := articles;
      articles := seq(|before|, i requires 0 <= i < |before| =>
                        if before[i].id == id then Patched(before[i], patch, now) else before[i]);
      assert forall i :: 0 <= i < |articles| ==> articles[i].id == before[i].id && articles[i].authorId == before[i].authorId;
      assert forall a :: a in articles ==> HasUser(users, a.authorId) by {
        forall a | a in articles ensures HasUser(users, a.authorId) {
          var i :| 0 <= i < |articles| && articles[i] == a;
          assert before[i] in before;
        }
      }
      match found {
        case None =>
          r := Success(None);
        case Some(a) =>
          ghost var i :| 0 <= i < |before| && before[i] == a;
          assert articles[i] == Patched(a, patch, now);
          r := Success(Some(Patched(a, patch, now)));
      }
    }

    /** `deleteArticle`: removes every row with id `id` and reports whether
        there was one. Bookmarks of the article stay behind. */
    method DeleteArticle(id: string) returns (r: Result<bool, string>)
      requires Valid()
      modifies this
      ensures Valid()
      ensures users == old(users) && savedArticles == old(savedArticles) && failure == old(failure)
      ensures failure.Some? ==> r == Failure(DeletePrefix + failure.value) && articles == old(articles)
      ensures failure.None? ==>
                && r == Success(exists a :: a in old(articles) && a.id == id)
                && articles == Filter(old(articles), NotWithId(id))
                && (forall a :: a in articles <==> a in old(articles) && a.id != id)
                && forall a: Article :: a.id != id ==> multiset(articles)[a] == multiset(old(articles))[a]
    {
      if failure.Some? {
        return Failure(DeletePrefix + failure.value);
      }
      var existed := FindArticle(articles, id).Some?;
      FilterKeepsDistinct(articles, NotWithId(id), ArticleId);
      articles := Filter(articles, NotWithId(id));
      r := Success(existed);
    }

    /** `saveArticle`: bookmarks an existing article once; saving it again
        changes nothing. A missing article, or a failing lookup, is an error
        wrapped in the save prefix. */
    method SaveArticle(userId: string, articleId: string, now: int) returns (r: Result<bool, string>)
      requires Valid()
      modifies this
      ensures Valid()
      ensures users == old(users) && articles == old(articles) && failure == old(failure)
      ensures r.Failure? ==> savedArticles == old(savedArticles)
      ensures match GetArticleById(old(Snapshot()), articleId)
                case Failure(m) => r == Failure(SavePrefix + m)
                case Success(None) => r == Failure(SavePrefix + ArticleNotFound)
                case Success(Some(_)) =>
                  && r == Success(true)
                  && savedArticles == if HasBookmark(old(savedArticles), userId, articleId) then old(savedArticles)
                                      else old(savedArticles) + [SavedArticle(userId, articleId, now)]
      ensures r.Success? ==> IsSaved(Snapshot(), userId, articleId) == Success(true)
      ensures r.Success? ==> BookmarkCount(savedArticles, userId, articleId) == 1
    {
      match GetArticleById(Snapshot(), articleId) {
        case Failure(m) =>
          r := Failure(SavePrefix + m);
        case Success(None) =>
          r := Failure(SavePrefix + ArticleNotFound);
        case Success(Some(_)) =>
          if !HasBookmark(savedArticles, userId, articleId) {
            var row := SavedArticle(userId, articleId, now);
            AppendKeepsDistinct(savedArticles, row, BookmarkKey);
            savedArticles := savedArticles + [row];
            assert row in savedArticles;
          }
          BookmarkCountOfDistinct(savedArticles, userId, articleId);
          r := Success(true);
      }
    }

    /** `unsaveArticle`: removes the bookmark and reports whether there was one. */
    method UnsaveArticle(userId: string, articleId: string) returns (r: Result<bool, string>)
      requires Valid()
      modifies this
      ensures Valid()
      ensures users == old(users) && articles == old(articles) && failure == old(failure)
      ensures failure.Some? ==> r == Failure(UnsavePrefix + failure.value) && savedArticles == old(savedArticles)
      ensures failure.None? ==>
                && r == Success(HasBookmark(old(savedArticles), userId, articleId))
                && savedArticles == Filter(old(savedArticles), NotBookmark(userId, articleId))
                && IsSaved(Snapshot(), userId, articleId) == Success(false)
    {
      if failure.Some? {
        return Failure(UnsavePrefix + failure.value);
      }
      var present := HasBookmark(savedArticles, userId, articleId);
      FilterKeepsDistinct(savedArticles, NotBookmark(userId, articleId), BookmarkKey);
      savedArticles := Filter(savedArticles, NotBookmark(userId, articleId));
      r := Success(present);
    }
  }
}
