/**
 * The in-memory database behind the server (BlogDbContext.cs): one table per
 * record type, each a sequence of rows in insertion order with unique keys.
 */
module Data {
  import opened Models
  import Linq

  /** An EF `DbSet<T>`: the stored rows, in insertion order, their key, and how a
      generated key is written into a row. A key of 0 (the CLR default) is unset. */
  class Table<T> {
    var rows: seq<T>
    const key: T -> int
    const withKey: (T, int) -> T

    ghost predicate Valid()
      reads this
    {
      Linq.UniqueKeys(rows, key)
    }

    constructor (key: T -> int, withKey: (T, int) -> T)
      ensures Valid()
      ensures rows == [] && this.key == key && this.withKey == withKey
    {
      rows := [];
      this.key := key;
      this.withKey := withKey;
    }
  }

  /** The shared context: the three tables and how often it has been disposed. */
  class BlogDbContext {
    const posts: Table<Post>
    const comments: Table<Comment>
    const users: Table<User>
    var disposeCount: nat

    ghost predicate Valid()
      reads this, posts, comments, users
    {
      && posts.key == PostKey && comments.key == CommentKey && users.key == UserKey
      && posts.withKey == WithPostKey && comments.withKey == WithCommentKey && users.withKey == WithUserKey
      && posts.Valid() && comments.Valid() && users.Valid()
    }

    constructor ()
      ensures Valid() && fresh(posts) && fresh(comments) && fresh(users)
      ensures posts.rows == [] && comments.rows == [] && users.rows == []
      ensures disposeCount == 0
    {
      posts := new Table(PostKey, WithPostKey);
      comments := new Table(CommentKey, WithCommentKey);
      users := new Table(UserKey, WithUserKey);
      disposeCount := 0;
    }

    /** `DbContext.Dispose()`; the model only counts the calls. */
    method Dispose()
      modifies this
      ensures disposeCount == old(disposeCount) + 1
    {
      disposeCount := disposeCount + 1;
    }
  }
}
