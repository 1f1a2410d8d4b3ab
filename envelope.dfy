/** The JSON envelope every controller answers with: an HTTP status, then
    `{ success, message, data?, error? }`. */
module Envelope {
  import opened Wrappers
  import opened Schema

  datatype Pagination = Pagination(page: int, limit: int, total: int, hasMore: bool)

  /** The `articles` array of a listing: full rows on the category branch,
      joined projections on the paginated one. */
  datatype ArticleList = RowList(rows: seq<Article>) | ViewList(views: seq<ArticleWithAuthor>)

  /** The user object of the auth responses. */
  datatype UserView = UserView(id: string, email: string, name: string, title: string, avatar: string)

  datatype Data =
    | Listing(list: ArticleList, pagination: Pagination)
    | ArticleView(view: ArticleWithAuthor)
    | ArticleRow(row: Option<Article>)
    | ArticleRows(rows: seq<Article>)
    | Session(user: UserView, token: string)

  datatype Response = Response(status: int, success: bool, message: string, data: Option<Data>, error: Option<string>)

  /** A failure answered without an `error` field. */
  function Refusal(status: int, message: string): Response {
    Response(status, false, message, None, None)
  }

  /** The `catch` branch: a failure carrying the thrown error's message. */
  function Caught(status: int, message: string, error: string): Response {
    Response(status, false, message, None, Some(error))
  }

  function Answer(status: int, message: string, data: Option<Data>): Response {
    Response(status, true, message, data, None)
  }
}
