/**
 * The unit of work (UnitOfWork.cs): one repository per table, each created on
 * first use over the shared context, and a disposal that disposes the context once.
 */
module UnitOfWork {
  import opened Models
  import opened Data
  import opened GenericRepository

  class UnitOfWork {
    const context: BlogDbContext
    var postRepository: Repository?<Post>
    var commentRepository: Repository?<Comment>
    var userRepository: Repository?<User>
    var disposed: bool
    /** How often the context had been disposed when this unit of work was built. */
    ghost const disposalsBefore: nat

    /** Every repository built so far works on this context and its own table, and
        this unit of work has disposed the context at most once, and only after
        being disposed itself. */
    ghost predicate Valid()
      reads this, context
    {
      && (postRepository != null ==> postRepository.context == context && postRepository.dbSet == context.posts)
      && (commentRepository != null ==> commentRepository.context == context && commentRepository.dbSet == context.comments)
      && (userRepository != null ==> userRepository.context == context && userRepository.dbSet == context.users)
      && disposalsBefore <= context.disposeCount <= disposalsBefore + (if disposed then 1 else 0)
    }

    constructor (context: BlogDbContext)
      ensures Valid()
      ensures this.context == context
      ensures postRepository == null && commentRepository == null && userRepository == null
      ensures !disposed
    {
      this.context := context;
      postRepository := null;
      commentRepository := null;
      userRepository := null;
      disposed := false;
      disposalsBefore := context.disposeCount;
    }

    /** The `PostRepository` property: built on first access, the same object after. */
    method PostRepository() returns (repo: Repository<Post>)
      requires Valid()
      modifies this
      ensures Valid()
      ensures repo.context == context && repo.dbSet == context.posts
      ensures old(postRepository) != null ==> repo == old(postRepository)
      ensures old(postRepository) == null ==> fresh(repo)
      ensures postRepository == repo
      ensures commentRepository == old(commentRepository) && userRepository == old(userRepository)
      ensures disposed == old(disposed)
    {
      if postRepository == null {
        postRepository := new Repository(context, context.posts);
      }
      repo := postRepository;
    }

    /** The `CommentRepository` property: built on first access, the same object after. */
    method CommentRepository() returns (repo: Repository<Comment>)
      requires Valid()
      modifies this
      ensures Valid()
      ensures repo.context == context && repo.dbSet == context.comments
      ensures old(commentRepository) != null ==> repo == old(commentRepository)
      ensures old(commentRepository) == null ==> fresh(repo)
      ensures commentRepository == repo
      ensures postRepository == old(postRepository) && userRepository == old(userRepository)
      ensures disposed == old(disposed)
    {
      if commentRepository == null {
        commentRepository := new Repository(context, context.comments);
      }
      repo := commentRepository;
    }

    /** The `UserRepository` property: built on first access, the same object after. */
    method UserRepository() returns (repo: Repository<User>)
      requires Valid()
      modifies this
      ensures Valid()
      ensures repo.context == context && repo.dbSet == context.users
      ensures old(userRepository) != null ==> repo == old(userRepository)
      ensures old(userRepository) == null ==> fresh(repo)
      ensures userRepository == repo
      ensures postRepository == old(postRepository) && commentRepository == old(commentRepository)
      ensures disposed == old(disposed)
    {
      if userRepository == null {
        userRepository := new Repository(context, context.users);
      }
      repo := userRepository;
    }

    /** `Dispose(disposing)`: disposes the context only on the first call with
        `disposing` set; every call marks this unit of work disposed. */
    method DisposeCore(disposing: bool)
      requires Valid()
      modifies this, context
      ensures Valid()
      ensures disposed
      ensures context.disposeCount == old(context.disposeCount) + (if !old(disposed) && disposing then 1 else 0)
      ensures postRepository == old(postRepository) && commentRepository == old(commentRepository)
      ensures userRepository == old(userRepository)
    {
      if !disposed && disposing {
        context.Dispose();
      }
      disposed := true;
    }

    /** `Dispose()`: the same as `Dispose(true)`, so a second call does nothing more. */
    method Dispose()
      requires Valid()
      modifies this, context
      ensures Valid()
      ensures disposed
      ensures context.disposeCount == old(context.disposeCount) + (if old(disposed) then 0 else 1)
      ensures postRepository == old(postRepository) && commentRepository == old(commentRepository)
      ensures userRepository == old(userRepository)
    {
      DisposeCore(true);
    }
  }
}
