/**
 * The posts API (PostsContoller.cs): listing and reading posts, listing and
 * reading the comments of a post, and creating posts and comments.
 */
module PostsController {
  import opened Wrappers
  import opened Models
  import opened Text
  import opened Linq
  import Data
  import GenericRepository
  import PostRepository
  import CommentRepository
  import UnitOfWork

  const DEFAULT_PAGE: int := 1
  const DEFAULT_PAGE_SIZE: int := 10

  // ---------------------------------------------------------------------------
  // The controller's own decisions, given what the repositories returned.

  /** `GetPost`: 404 without a message when the repository returned `null`. */
  function PostResponse(post: Option<PostDto>): (r: ActionResult<PostDto>)
    ensures post.None? <==> r == NotFound(None)
    ensures post.Some? ==> r == Ok(post.value)
  {
    match post
    case None => NotFound(None)
    case Some(p) => Ok(p)
  }

  function PostNotFoundMessage(postId: int): string
  {
    "Post with ID " + DecimalString(postId) + " not found."
  }

  function CommentNotFoundMessage(commentId: int): string
  {
    "Comment with ID " + DecimalString(commentId) + " not found."
  }

  const COMMENT_ELSEWHERE: string := "Comment does not belong to the specified post."

  /** `GetComments`: 404 naming the post when it was not found, the comment listing otherwise. */
  function CommentsResponse(postId: int, post: Option<PostDto>, listing: PaginatedResult<CommentDto>): (r: ActionResult<PaginatedResult<CommentDto>>)
    ensures post.None? <==> r == NotFound(Some(PostNotFoundMessage(postId)))
    ensures post.Some? <==> r == Ok(listing)
  {
    if post.None? then NotFound(Some(PostNotFoundMessage(postId))) else Ok(listing)
  }

  /** `GetComment`: 404 naming the comment when it is not stored, 400 when it
      belongs to another post, the comment otherwise. */
  function CommentResponse(postId: int, commentId: int, comment: Option<Comment>): (r: ActionResult<Comment>)
    ensures comment.None? <==> r == NotFound(Some(CommentNotFoundMessage(commentId)))
    ensures (comment.Some? && comment.value.postId != postId) <==> r == BadRequest(COMMENT_ELSEWHERE)
    ensures comment.Some? && comment.value.postId == postId ==> r == Ok(comment.value)
  {
    match comment
    case None => NotFound(Some(CommentNotFoundMessage(commentId)))
    case Some(c) => if c.postId != postId then BadRequest(COMMENT_ELSEWHERE) else Ok(c)
  }

  /** The 404 messages name the id they were asked for, and different ids give different messages. */
  lemma NotFoundMessagesNameTheId(m: int, n: int)
    ensures PostNotFoundMessage(m) == PostNotFoundMessage(n) ==> m == n
    ensures CommentNotFoundMessage(m) == CommentNotFoundMessage(n) ==> m == n
  {
    var pre, post := "Post with ID ", " not found.";
    if PostNotFoundMessage(m) == PostNotFoundMessage(n) {
      TrimAffixes(pre, DecimalString(m), DecimalString(n), post);
      DecimalStringInjective(m, n);
    }
    var cpre := "Comment with ID ";
    if CommentNotFoundMessage(m) == CommentNotFoundMessage(n) {
      TrimAffixes(cpre, DecimalString(m), DecimalString(n), post);
      DecimalStringInjective(m, n);
    }
  }

  /** Strings that share a prefix and a suffix are equal when the whole strings are. */
  lemma TrimAffixes(pre: string, a: string, b: string, post: string)
    requires pre + a + post == pre + b + post
    ensures a == b
  {
    var s := pre + a + post;
    assert |a| == |b|;
    assert a == s[|pre|..|pre| + |a|];
    assert b == (pre + b + post)[|pre|..|pre| + |b|];
  }

  // ---------------------------------------------------------------------------
  // The read actions wired to the repositories over the current tables.

  /** `GetPosts(page = 1, pageSize = 10)`: the post listing, as 200. */
  function GetPosts(posts: seq<Post>, users: seq<User>, page: int := DEFAULT_PAGE, pageSize: int := DEFAULT_PAGE_SIZE): (r: Result<ActionResult<PaginatedResult<PostDto>>, ServerError>)
    ensures r.Success? <==> PostRepository.GetAll(posts, users, page, pageSize).Success?
    ensures r.Success? ==> r.value == Ok(PostRepository.GetAll(posts, users, page, pageSize).value)
    ensures r.Failure? ==> r.error == ArgumentOutOfRange
  {
    match PostRepository.GetAll(posts, users, page, pageSize)
    case Failure(e) => Failure(e)
    case Success(listing) => Success(Ok(listing))
  }

  /** `GetPost(id)`: the post with its full body; an exception when it is not listed. */
  function GetPost(posts: seq<Post>, users: seq<User>, id: int): (r: Result<ActionResult<PostDto>, ServerError>)
    ensures r.Success? <==> exists p, u | p in posts && u in users :: p.id == id && u.id == p.userId
    ensures r.Success? ==> r.value.Ok? && r.value.value.id == id
    ensures r.Success? ==> r.value == Ok(PostRepository.GetById(posts, users, id).value)
    ensures r.Success? ==>
      exists p, u | p in posts && u in users ::
        && p.id == id && u.id == p.userId
        && r.value.value == PostDto(p.id, p.userId, p.title, p.body, u.name)
    ensures r.Failure? ==> r.error == SequenceContainsNoElements
  {
    match PostRepository.GetById(posts, users, id)
    case Failure(e) => Failure(e)
    case Success(p) => Success(PostResponse(Some(p)))
  }

  /** `GetComments(postId, page = 1, pageSize = 10)`: the post is looked up first;
      the comment listing is only queried when it exists. */
  function GetComments(posts: seq<Post>, users: seq<User>, comments: seq<Comment>, postId: int, page: int := DEFAULT_PAGE, pageSize: int := DEFAULT_PAGE_SIZE): (r: Result<ActionResult<PaginatedResult<CommentDto>>, ServerError>)
    ensures r.Success? <==> PostRepository.GetById(posts, users, postId).Success?
    ensures r.Success? ==> r.value == Ok(CommentRepository.GetAll(comments, users, postId, page, pageSize))
    ensures r.Failure? ==> r.error == SequenceContainsNoElements
  {
    match PostRepository.GetById(posts, users, postId)
    case Failure(e) => Failure(e)
    case Success(p) => Success(CommentsResponse(postId, Some(p), CommentRepository.GetAll(comments, users, postId, page, pageSize)))
  }

  /** `GetComment(postId, commentId)`: the lookup by key, then the ownership check. */
  function GetComment(comments: seq<Comment>, postId: int, commentId: int): (r: ActionResult<Comment>)
    ensures r.Ok? ==> r.value in comments && r.value.id == commentId && r.value.postId == postId
    ensures r.NotFound? <==> forall c | c in comments :: c.id != commentId
    ensures r.BadRequest? ==> exists c | c in comments :: c.id == commentId && c.postId != postId
    ensures r.Ok? || r.NotFound? || r.BadRequest?
  {
    CommentResponse(postId, commentId, GenericRepository.GetById(comments, CommentKey, commentId))
  }

  // ---------------------------------------------------------------------------
  // What the wiring implies.

  /** Through the real repository a missing post is an exception, never the
      controller's 404: `FirstAsync` throws before the `null` check is reached. */
  lemma GetPostNeverNotFound(posts: seq<Post>, users: seq<User>, id: int)
    ensures GetPost(posts, users, id).Success? ==> !GetPost(posts, users, id).value.NotFound?
    ensures (forall p | p in posts :: p.id != id) ==> GetPost(posts, users, id) == Failure(SequenceContainsNoElements)
  {
  }

  /** The same holds for the comments of a missing post: the 404 naming the post is
      never produced, and the comments table is never consulted. */
  lemma GetCommentsOfMissingPost(posts: seq<Post>, users: seq<User>, comments1: seq<Comment>, comments2: seq<Comment>, postId: int, page: int, pageSize: int)
    requires forall p | p in posts :: p.id != postId
    ensures GetComments(posts, users, comments1, postId, page, pageSize) == Failure(SequenceContainsNoElements)
    ensures GetComments(posts, users, comments1, postId, page, pageSize) == GetComments(posts, users, comments2, postId, page, pageSize)
  {
  }

  /** With unique comment ids the outcome of `GetComment` is decided by the stored
      comment with that id: 200 when it is on the post, 400 when on another. */
  lemma GetCommentDecided(comments: seq<Comment>, postId: int, c: Comment)
    requires UniqueKeys(comments, CommentKey)
    requires c in comments
    ensures c.postId == postId ==> GetComment(comments, postId, c.id) == Ok(c)
    ensures c.postId != postId ==> GetComment(comments, postId, c.id) == BadRequest(COMMENT_ELSEWHERE)
  {
    var i :| 0 <= i < |comments| && comments[i] == c;
    GenericRepository.GetByIdFindsStored(comments, CommentKey, i);
  }

  // ---------------------------------------------------------------------------
  // The write actions.

  class PostsController {
    const unitOfWork: UnitOfWork.UnitOfWork

    constructor (unitOfWork: UnitOfWork.UnitOfWork)
      ensures this.unitOfWork == unitOfWork
    {
      this.unitOfWork := unitOfWork;
    }

    /** `CreatePost(post)`: stores the post, under the generated key `nextKey` when it
        arrives without an id (the client never sends one), and answers 201 pointing
        at `GetPost` with the stored post's id. */
    method CreatePost(post: Post, nextKey: int) returns (r: Result<ActionResult<Post>, ServerError>)
      requires unitOfWork.Valid() && unitOfWork.context.Valid()
      requires GenericRepository.GetById(unitOfWork.context.posts.rows, PostKey, nextKey).None?
      modifies unitOfWork, unitOfWork.context.posts
      ensures unitOfWork.Valid() && unitOfWork.context.Valid()
      ensures var stored := if post.id == 0 then WithPostKey(post, nextKey) else post;
              && (post.id == 0 ==> r.Success?)
              && (r.Success? <==> GenericRepository.GetById(old(unitOfWork.context.posts.rows), PostKey, stored.id).None?)
              && (r.Success? ==> r.value == CreatedAtAction("GetPost", stored.id, stored))
              && (r.Success? ==> unitOfWork.context.posts.rows == old(unitOfWork.context.posts.rows) + [stored])
      ensures r.Failure? ==> r.error == DuplicateKey && unitOfWork.context.posts.rows == old(unitOfWork.context.posts.rows)
    {
      var repo := unitOfWork.PostRepository();
      var added := repo.Add(post, nextKey);
      match added
      case Failure(e) =>
        r := Failure(e);
      case Success(created) =>
        r := Success(CreatedAtAction("GetPost", created.id, created));
    }

    /** `AddComment(postId, comment)`: stores the comment as sent, under the generated
        key `nextKey` when it arrives without an id, and answers 201 pointing at `GetPost`
        with the route's post id. Neither the post's existence nor the comment's own
        `PostId` is checked against the route. */
    method AddComment(postId: int, comment: Comment, nextKey: int) returns (r: Result<ActionResult<Comment>, ServerError>)
      requires unitOfWork.Valid() && unitOfWork.context.Valid()
      requires GenericRepository.GetById(unitOfWork.context.comments.rows, CommentKey, nextKey).None?
      modifies unitOfWork, unitOfWork.context.comments
      ensures unitOfWork.Valid() && unitOfWork.context.Valid()
      ensures var stored := if comment.id == 0 then WithCommentKey(comment, nextKey) else comment;
              && (comment.id == 0 ==> r.Success?)
              && (r.Success? <==> GenericRepository.GetById(old(unitOfWork.context.comments.rows), CommentKey, stored.id).None?)
              && (r.Success? ==> r.value == CreatedAtAction("GetPost", postId, stored))
              && (r.Success? ==> unitOfWork.context.comments.rows == old(unitOfWork.context.comments.rows) + [stored])
      ensures r.Failure? ==> r.error == DuplicateKey && unitOfWork.context.comments.rows == old(unitOfWork.context.comments.rows)
    {
      var repo := unitOfWork.CommentRepository();
      var added := repo.Add(comment, nextKey);
      match added
      case Failure(e) =>
        r := Failure(e);
      case Success(created) =>
        r := Success(CreatedAtAction("GetPost", postId, created));
    }
  }
}
