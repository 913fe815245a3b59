/**
 * The records the blog server stores and exchanges (Models.cs and Dtos.cs).
 * Every C# `int` is an unbounded `int` here; strings are `seq<char>`.
 */
module Models {
  import opened Wrappers

  /** A registered user. Models.cs declares no `Name`, but the seeding code and
      the post and comment queries use one, so the record carries it. */
  datatype User = User(id: int, username: string, password: string, name: string)

  /** A blog post, owned by the user whose id is `userId`. */
  datatype Post = Post(id: int, userId: int, title: string, body: string)

  /** A comment on the post `postId`, written by the user `userId`. */
  datatype Comment = Comment(id: int, postId: int, userId: int, body: string)

  /** One page of a listing plus the number of matching rows before slicing. */
  datatype PaginatedResult<T> = PaginatedResult(items: seq<T>, totalCount: int, pageNumber: int, pageSize: int)

  /** A post joined with its author's display name. */
  datatype PostDto = PostDto(id: int, userId: int, title: string, body: string, authorName: string)

  /** A comment joined with its author's display name. The navigation property
      `Post` is never filled by the queries and is not modelled. */
  datatype CommentDto = CommentDto(id: int, postId: int, userId: int, body: string, authorName: string)

  /** The body of a login request. */
  datatype LoginDto = LoginDto(username: string, password: string)

  /** The HTTP results the controllers return: 200, 404 (with or without a message),
      400, 201 with the action and route id of the new resource, and 401. */
  datatype ActionResult<T> =
    | Ok(value: T)
    | NotFound(message: Option<string>)
    | BadRequest(reason: string)
    | CreatedAtAction(actionName: string, routeId: int, created: T)
    | Unauthorized(reason: string)

  /** The exceptions the modelled server code can throw. */
  datatype ServerError =
    | SequenceContainsNoElements  // `FirstAsync` on an empty query
    | ArgumentOutOfRange          // `Substring` past the end of a string
    | DuplicateKey                // adding a row whose key is already stored
    | EntityNotInStore            // updating a row that is not stored
    | ArgumentNull                // a missing configuration value used as a key

  /** The primary keys the store uses for each table. */
  function PostKey(p: Post): int { p.id }
  function CommentKey(c: Comment): int { c.id }
  function UserKey(u: User): int { u.id }

  /** The record with its key set, as the store does when it generates one. */
  function WithPostKey(p: Post, id: int): (r: Post)
    ensures PostKey(r) == id && r.userId == p.userId && r.title == p.title && r.body == p.body
  {
    p.(id := id)
  }

  function WithCommentKey(c: Comment, id: int): (r: Comment)
    ensures CommentKey(r) == id && r.postId == c.postId && r.userId == c.userId && r.body == c.body
  {
    c.(id := id)
  }

  function WithUserKey(u: User, id: int): (r: User)
    ensures UserKey(r) == id && r.username == u.username && r.password == u.password && r.name == u.name
  {
    u.(id := id)
  }

  /** The user id each record points to, used by the joins with the users table. */
  function PostAuthor(p: Post): int { p.userId }
  function CommentAuthor(c: Comment): int { c.userId }
}
