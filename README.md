# News article API: a verified model of its business logic

This is a model of the article and authentication logic of a small news
REST API written in TypeScript on Express and Drizzle over PostgreSQL.

The database is modelled as in-memory tables:
- `users`, `articles` and the saved-article bookmarks;
- a `failure` field. When it is set, the database rejects every statement
  with that message. This drives the `catch` branches of the source.
  Because it is one setting for the whole store, a later statement cannot
  fail after an earlier one in the same request has succeeded (see
  "## Left out").

What the model covers, by module:
- `Schema`: the record shapes and the store invariant. User ids and emails
  are unique, article ids are unique, every article's author is an existing
  user, and there is at most one bookmark per user and article.
- `ArticleService`: the service's queries and updates.
  - The queries are functions over a `Db` value.
  - The inserts, updates and deletes are methods of the `Store` class.
    Each states its whole new state and keeps the invariant.
  - A thrown error is a `Failure` carrying the service's message prefix
    followed by the database's message.
- `ArticleController`: the request-to-response decisions. The guards run
  in order: 401, then 404, then 403, then 200/201, with 500 for a service
  error. It also covers the `parseInt(...) || default` rule for page and
  limit and the category branch of the listing.
- `JsParseInt`: the ECMAScript `parseInt` that rule depends on. It skips
  leading white space, reads an optional sign and an optional `0x`, and
  reads the longest run of digits. `NaN` is `None`.
- `AuthController`: maps what the account service reports to the response
  and to the token claims.
- `Envelope`: the response envelope `{ success, message, data?, error? }`
  and its HTTP status.
- `Sequences`: sorting newest-first, filtering, and key uniqueness. Results
  are specified by sortedness and permutation only, because the database
  leaves the order of equal timestamps open.

Facts about the code that the model keeps:
- Page and limit are not range-checked. `parseInt(...) || default` passes
  any non-zero integer through. With a positive limit, a negative page
  reaches PostgreSQL as a negative OFFSET; the database refuses it, which
  gives a 500. With a negative limit the offset `(page-1)*limit` can be
  positive again (page -1 and limit -5 give offset 10).
- A negative limit reaches the query builder. The model assumes that the
  builder then writes no LIMIT clause, so every row from the offset on is
  returned; the builder is not part of the repository.
- `updatedAt` becomes the clock reading passed in (`updatedAt := now`).
  Nothing makes it larger than the previous value.
- Update and delete compare the `authorId` of the fetched projection with
  the caller, and that projection never selects `authorId`. See "Findings".

## Model

| member | source | states |
|---|---|---|
| ArticleService.View | src/services/articleService.ts:26-46 | the projection keeps every column but `authorId`, and has an author summary exactly when some user has the article's author id (the left join) |
| ArticleService.Patched | src/services/articleService.ts:142-147 | the row `updateArticle` writes: each supplied field replaces the stored one, and `updatedAt` is the clock reading |
| ArticleService.NewestViews | src/services/articleService.ts:26-47 | every article joined with its author, sorted by non-increasing `createdAt`, as a permutation of the joined table |
| ArticleService.GetAllArticles | src/services/articleService.ts:15-69 | the page is exactly the rows at `offset + i` of all articles newest first, where `offset = (page-1)*limit`: at most `limit` of them, or all the rest when `limit` is negative; `total` is the count of all articles; `hasMore` iff `total > offset + limit`; a negative offset is the database's error under "Failed to fetch articles: " |
| ArticleService.Window | src/services/articleService.ts:48-49 | LIMIT and OFFSET select the rows `offset .. offset + limit` as far as they exist, and every row from `offset` on when no LIMIT is written |
| ArticleService.NegativeLimitListsEverything | src/services/articleService.ts:48-60 | a negative limit on the first page lists every article newest first, with `hasMore` true |
| ArticleService.HasMoreIffNextPageHasRows | src/services/articleService.ts:51-60 | for page and limit at least 1, `hasMore` holds exactly when the next page is non-empty |
| ArticleService.GetArticleById | src/services/articleService.ts:71-105 | `None` iff no row has the id; otherwise the projection of a row with that id, with no `authorId` |
| ArticleService.GetArticleByIdFindsRow | src/services/articleService.ts:94-97 | with unique ids, the lookup returns the projection of exactly the stored row |
| ArticleService.GetArticlesByCategory | src/services/articleService.ts:178-194 | exactly the rows of the category, newest first, as a permutation of the filtered table |
| ArticleService.GetTrendingArticles | src/services/articleService.ts:196-212 | exactly the trending rows, newest first, as a permutation of the filtered table |
| ArticleService.GetArticlesByUser | src/services/articleService.ts:214-250 | exactly the joined rows whose author is the user, newest first |
| ArticleService.SortedViewsOfFilter | src/services/articleService.ts:236-240 | a permutation of the joined filtered rows holds a projection iff it is the projection of a row that passes the filter |
| ArticleService.InJoinOne | src/services/articleService.ts:344-346 | one bookmark row of the user joins with exactly the articles that have the bookmarked id |
| ArticleService.JoinOneComesFromRow | src/services/articleService.ts:344-346 | a joined row of a bookmark comes from an article with the bookmarked id |
| ArticleService.JoinOneHasRow | src/services/articleService.ts:344-346 | every article with the bookmarked id yields a joined row |
| ArticleService.JoinBookmarks | src/services/articleService.ts:343-347 | the inner join of the user's bookmarks with the articles, in bookmark order; its contents are stated by InJoinBookmarks |
| ArticleService.InJoinBookmarks | src/services/articleService.ts:344-346 | the inner join holds a bookmark iff some saved row of the user names an existing article |
| ArticleService.SavedByRecency | src/services/articleService.ts:320-347 | the user's joined bookmarks sorted by non-increasing `savedAt`, as a permutation of the join |
| ArticleService.InSavedViews | src/services/articleService.ts:320-347 | a projection is among the saved articles iff the user saved an article that still exists and it is that article's projection |
| ArticleService.GetSavedArticles | src/services/articleService.ts:320-357 | the projections of the bookmarks in saved order; a projection is present iff the user saved an article that still exists |
| ArticleService.IsSaved | src/services/articleService.ts:359-380 | true iff a bookmark pairs the user with the article; the database's error under "Failed to check saved status: " |
| ArticleService.BookmarkCountOfDistinct | src/services/articleService.ts:262-283 | with one bookmark per pair, a pair is present exactly once or not at all |
| ArticleService.PatchedKeepsIdentity | src/services/articleService.ts:142-147 | a patch never changes the id, author, creation time or display date; an empty patch only stamps `updatedAt` |
| ArticleService.Store.constructor | src/db/schema.ts:5-13 | a store with distinct user ids and emails and no articles satisfies the invariant |
| ArticleService.Store.CreateArticle | src/services/articleService.ts:107-135 | appends exactly one row with the fresh id, the input's fields, `isTrending = input.isTrending \|\| false`, the given display date and `createdAt = updatedAt = now`, and returns it; a missing author is the NOT NULL error, an unknown one the foreign-key error; nothing else changes |
| ArticleService.Store.UpdateArticle | src/services/articleService.ts:137-159 | every row with the id is patched with the supplied fields and `updatedAt = now`, and every other row is unchanged; returns the patched row, or `None` iff no row had the id |
| ArticleService.Store.DeleteArticle | src/services/articleService.ts:161-176 | returns true iff a row had the id; afterwards no row has it and every other row keeps its multiplicity |
| ArticleService.Store.SaveArticle | src/services/articleService.ts:252-293 | a missing article is "Failed to save article: Article not found" and nothing changes; otherwise returns true and appends the pair only when absent, leaving it present exactly once |
| ArticleService.Store.UnsaveArticle | src/services/articleService.ts:295-318 | returns true iff the pair was present; afterwards it is absent and `isSaved` is false |
| Sequences.SortDesc | src/services/articleService.ts:47 | the result is sorted by non-increasing key and is a permutation of the input |
| Sequences.Filter | src/services/articleService.ts:183 | keeps exactly the elements that pass, with their multiplicities |
| Sequences.FilterKeepsDistinct | src/services/articleService.ts:163-166 | removing rows keeps keys unique |
| Sequences.AppendKeepsDistinct | src/services/articleService.ts:122-125 | appending a row with a new key keeps keys unique |
| Schema.Valid | src/db/schema.ts:5-32 | the store invariant: user ids and emails unique, article ids unique, every author an existing user, one bookmark per pair |
| Schema.DistinctIdsNameOneRow | src/db/schema.ts:16-18 | when the keys are unique, two rows with the same id are the same row |
| JsParseInt.ParseInt | src/controllers/articleController.ts:9-10 | NaN exactly when no digit follows white space and sign (with `0x`, no hexadecimal digit); a negative result only after a minus sign |
| JsParseInt.QueryNumber | src/controllers/articleController.ts:9-10 | an absent parameter gives the default, and the result is never 0 when the default is not |
| JsParseInt.QueryNumberOfNonNumeral | src/controllers/articleController.ts:9-10 | a value with no digit after white space and an optional sign ("abc", "", "-", "x1", "0x", "0xg") is NaN and gives the default |
| JsParseInt.ParseIntOfDecimal | src/controllers/articleController.ts:9-10 | `parseInt` of an integer's decimal numeral, followed by anything that is not a digit (and, after "0", not `x` or `X`), gives back that integer, negative ones included, for magnitudes up to 2^53 |
| JsParseInt.QueryNumberOfDecimal | src/controllers/articleController.ts:9-10 | a non-zero integer's numeral, of magnitude up to 2^53, passes through unchanged, and "0" gives the default |
| JsParseInt.NatToDecimalSpells | src/controllers/articleController.ts:9-10 | the decimal numeral of a natural number is all digits, has no leading zero and denotes the number |
| ArticleController.GetAllArticles | src/controllers/articleController.ts:7-47 | with a non-empty category, the whole category with `total` its length and `hasMore` false; otherwise the service's page; the parsed page and limit are echoed; a service error is 500 "Failed to retrieve articles" carrying it |
| ArticleController.CategoryListingIsWholeCategory | src/controllers/articleController.ts:14-22 | the category listing holds every article of the category and only those, newest first, with `total` its length and `hasMore` false |
| ArticleController.PageParameterPassesThrough | src/controllers/articleController.ts:9 | with a non-empty category and a usable database, a page given as a non-zero integer of magnitude up to 2^53 is echoed as that integer, negative ones included; "0" becomes 1 |
| ArticleController.NegativePageIsServerError | src/controllers/articleController.ts:9-10 | a negative page without a category and with a positive limit reaches the database as a negative OFFSET and the answer is 500 |
| ArticleController.GetArticleById | src/controllers/articleController.ts:49-73 | 200 iff the article exists, with the projection of the stored row; 404 when it does not; 500 on a service error |
| ArticleController.GetTrendingArticles | src/controllers/articleController.ts:189-205 | 200 with exactly the trending articles, each as often as stored, newest first; 500 on a service error |
| ArticleController.ArticleInput | src/controllers/articleController.ts:84-87 | the body's fields with the caller's id as author; BodyAuthorIsIgnored states the override |
| ArticleController.BodyAuthorIsIgnored | src/controllers/articleController.ts:84-87 | the stored author is the caller's id whatever author the body names |
| ArticleController.OwnershipGuard | src/controllers/articleController.ts:117-130 | the as-written guard of update and delete (lines 159-172 repeat it): 500 on a failing lookup, 404 for no article, 403 when the projection's `authorId` differs from the caller's id |
| ArticleController.GuardRefusesEveryIdentifiedCaller | src/controllers/articleController.ts:125-130 | for an existing article, a caller whose token has a user id always gets 403; one without a user id gets through |
| ArticleController.AuthorIsRefused | src/controllers/articleController.ts:167-172 | the article's own author is refused, a consequence of the guard lemma above |
| ArticleController.OwnerGuard | src/controllers/articleController.ts:114-130 | the corrected guard lets the caller through iff the stored row's author is the caller; it refuses with 403 only when the row exists and belongs to someone else |
| ArticleController.CreateArticle | src/controllers/articleController.ts:75-103 | 401 with no change without a caller; otherwise 201 iff the caller's id names an existing user, with the new row appended, authored by the caller and carrying the body's fields; otherwise 500 with no change and the NOT NULL error (no user id), the foreign-key error (unknown user) or the database's error |
| ArticleController.UpdateArticle | src/controllers/articleController.ts:105-146 | 401, then 500 on a failing lookup, then 404, then 403, each with no change; otherwise 200 with the patched row and only that row changed |
| ArticleController.DeleteArticle | src/controllers/articleController.ts:148-187 | 401, 500, 404 or 403 with no change, as for update; otherwise every row with the id is removed and the answer is 200 "Article deleted successfully", whatever the service reports |
| AuthController.RegisterClaims | src/controllers/authController.ts:18-24 | register's token claims, with the avatar as the title |
| AuthController.LoginClaims | src/controllers/authController.ts:62-68 | login's token claims, with the user's own title |
| AuthController.ResponseUser | src/controllers/authController.ts:30-36 | the user object of both responses (lines 74-80 repeat it), with the avatar as the title |
| AuthController.Register | src/controllers/authController.ts:7-47 | 201 "User registered successfully" with the user object and a token signed over the register claims; any failure is 400 "Registration failed" carrying the message and no token |
| AuthController.Login | src/controllers/authController.ts:49-91 | no matching user is 401 "Invalid email or password" with no token; success is 200 "Login successful" with a token over the login claims; an error is 500 "Login failed" carrying it |
| AuthController.RegisterReportsAvatarAsTitle | src/controllers/authController.ts:18-39 | after registration, both the body and the token report the avatar as the title |
| AuthController.LoginBodyAndTokenDisagreeOnTitle | src/controllers/authController.ts:62-83 | after login the token carries the user's title and the body the avatar; they agree iff title and avatar are equal |
| AuthController.LoginTitleMismatchExample | src/controllers/authController.ts:66-78 | a concrete user whose login body and token name different titles |
| AuthController.FailuresIssueNoToken | src/controllers/authController.ts:40-60 | register and login failures carry no token, and an unknown login does not depend on the signer |
| AuthController.IntendedUser | src/controllers/authController.ts:30-36 | the corrected user object takes every field from the user's own field |
| AuthController.IntendedUserMatchesLoginClaims | src/controllers/authController.ts:62-68 | the corrected user object agrees with the login claims field by field and tells accounts apart |

## Left out

- Process bootstrap, security headers, rate limiting, body parsing and routing are framework plumbing. The authentication middleware is not part of this model: its result is the `caller` parameter.
- Token issuance is the uninterpreted function `sign`. Its secret and expiry belong to the token library.
- The account service is not part of this model. It covers password hashing, the uniqueness check on register and credential matching; the controller sees only its outcome. The register body's fields reach it unchanged and are not modelled.
- Id generation, the clock and the locale-formatted `publishedAt` are parameters: a fresh id, an integer `now` and an opaque string.
- SQL runs as one atomic step per service call; concurrent requests are not modelled.
- The order of rows with equal `createdAt` or `savedAt` is left open. Results are specified by sortedness and permutation only.
- A thrown value that is not an `Error` ("Unknown error") is not modelled, since every modelled failure is an `Error`.
- ParseIntOfDecimal, QueryNumberOfDecimal, PageParameterPassesThrough: stated only for magnitudes up to 2^53. JavaScript rounds a larger parsed value to a double, and the model does not.
- JsParseInt.ParseInt, JsParseInt.QueryNumber: the result is an unbounded integer. Rounding to a double beyond 2^53 is not modelled, so for "9007199254740993" the model echoes that value where JavaScript echoes 9007199254740992.
- ArticleService.GetAllArticles: page, limit and offset are unbounded integers. PostgreSQL's LIMIT and OFFSET are 64-bit, and a value outside that range is an error there (a 500 in the controller); the model answers it with a page.
- ArticleService.GetAllArticles: the SQL text the query builder writes is not part of the repository. The model assumes it omits the LIMIT clause for a negative limit and writes any non-zero offset as given.
- ArticleController.UpdateArticle, ArticleController.DeleteArticle: `failure` is one setting of the whole store. So the model cannot have the update or delete statement fail after the ownership lookup has succeeded; the catch branches for that case are not reachable in the model.
- Query parameters are modelled as single strings or absent. Express can also deliver a repeated parameter as an array and a bracketed one as an object; `?page=2&page=3` then gives `parseInt("2,3") == 2`, and an array category is truthy. These shapes are not modelled.
- A request's extra body keys, and the request validation middleware, are not modelled.
- The saved-articles table is not declared in `src/db/schema.ts`, which is the only schema in the model. Its columns (user id, article id, save time) come from their use in the service. No foreign key or cascade is assumed, so deleting an article leaves its bookmarks; the inner join of `getSavedArticles` then hides them.
- The input and patch types live in `src/types`, which is not part of this model, and neither is the validation middleware. The input's fields and the patch's fields (title, category, readTime, imageUrl, isTrending, tags, content) are an assumption about them.
- ArticleService.PatchedKeepsIdentity: it holds because the modelled patch has no `id`, `authorId`, `createdAt` or `publishedAt` field. The code spreads the whole request body into the update (`.set({...articleData, updatedAt})`), so a body naming those columns would change them.
- ArticleService.Store.UpdateArticle: request-body keys beyond the modelled patch fields are not modelled; the code writes any column the body names, `id` and `authorId` included.
- ArticleService.Store.CreateArticle: the code spreads the body after `id: createId()`, so a body `id` replaces the generated id, and a body `createdAt` or `updatedAt` replaces the defaults. The model always uses the supplied fresh id and `now`.
- ArticleService.GetArticlesByUser: user and author ids are compared as strings. In the database they are `uuid` columns, so an id that is not UUID text is a syntax error there and a differently-cased UUID names the same user. The model assumes canonical lower-case UUID text, which is what `defaultRandom()` and the API's own tokens carry.
- ArticleService.Store.CreateArticle: under the same assumption, an author id that is not canonical UUID text gets the foreign-key error in the model. PostgreSQL raises a uuid syntax error for malformed text, and matches the user for a differently-cased UUID.
- ArticleController.CreateArticle: it inherits that assumption. A caller id that is not canonical UUID text is answered with the foreign-key message, where the code answers with the uuid syntax error or creates the article.
- ArticleService.GetAllArticles: the parameter defaults `page = 1, limit = 10` of the service signature are not modelled, since every caller passes both.
- ArticleController.UpdateArticle, ArticleController.DeleteArticle: they use the guard as written, so that the model answers as the code does. The corrected guard `OwnerGuard` is proved on its own and is not wired into them.
- AuthController.Register, AuthController.Login: they build the user object as written. `IntendedUser` is the corrected form, proved on its own.

## Findings

| source | as written | input that shows it | evidently intended | confidence | as-written member | corrected member |
|---|---|---|---|---|---|---|
| src/controllers/articleController.ts:125-130 | the update and delete guards compare the fetched projection's `authorId` with the caller's id, but the projection at src/services/articleService.ts:73-91 never selects `authorId` | an existing article and a caller whose token names its author: the answer is 403 | compare the stored row's `authorId` with the caller's id | high; not executed | ArticleController.AuthorIsRefused | ArticleController.OwnerGuard |
| src/controllers/authController.ts:22-78 | register's claims (line 22), register's body (line 34) and login's body (line 78) fill `title` from `user.avatar` | the user ("u1", "ann@example.com", "Ann", "Editor", "ann.png") logs in: the body's title is "ann.png" while the token's title is "Editor" | fill `title` from `user.title` | medium; not executed | AuthController.LoginTitleMismatchExample | AuthController.IntendedUser |
