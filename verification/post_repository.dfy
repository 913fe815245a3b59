/**
 * The post queries (PostRepository.cs): posts joined with their authors, newest
 * id first, with a body preview in the listing and the full body by id.
 */
module PostRepository {
  import opened Wrappers
  import opened Models
  import opened Linq

  /** One result row of `from post in Posts join user in Users on post.UserId equals user.Id`. */
  type PostRow = (Post, User)

  function RowPostId(row: PostRow): int { row.0.id }

  /** Every post paired with each user whose id is its `UserId`, in store order. */
  function JoinedPosts(posts: seq<Post>, users: seq<User>): (rows: seq<PostRow>)
    ensures forall row | row in rows :: row.0 in posts && row.1 in users && row.1.id == row.0.userId
  {
    Join(posts, users, PostAuthor, UserKey)
  }

  /** The joined rows after `orderby post.Id descending`: the same rows, newest id first. */
  function OrderedPosts(posts: seq<Post>, users: seq<User>): (rows: seq<PostRow>)
    ensures multiset(rows) == multiset(JoinedPosts(posts, users))
    ensures NonIncreasing(rows, RowPostId)
  {
    SortDescending(JoinedPosts(posts, users), RowPostId)
  }

  /** The listing body: `Body.Length > 50 ? Body.Substring(0, 500) + "..." : Body`.
      A body of 51 to 499 characters makes `Substring` throw. */
  function Preview(body: string): (r: Result<string, ServerError>)
    ensures r.Success? <==> |body| <= 50 || |body| >= 500
    ensures r.Failure? ==> r.error == ArgumentOutOfRange
    ensures r.Success? && |body| <= 50 ==> r.value == body
    ensures r.Success? && |body| > 50 ==> |r.value| == 503 && r.value[..500] == body[..500] && r.value[500..] == "..."
  {
    if |body| > 50 then
      if |body| >= 500 then Success(body[..500] + "...") else Failure(ArgumentOutOfRange)
    else Success(body)
  }

  /** The full projection of a row, used by the lookup by id. */
  function Detail(row: PostRow): PostDto
  {
    PostDto(row.0.id, row.0.userId, row.0.title, row.0.body, row.1.name)
  }

  /** The listing projection of a row: the post's fields and its author's name, with
      the previewed body; it fails exactly when the preview does. */
  function ListItem(row: PostRow): (r: Result<PostDto, ServerError>)
    ensures r.Success? <==> Preview(row.0.body).Success?
    ensures r.Failure? ==> r.error == ArgumentOutOfRange
    ensures r.Success? ==>
      && r.value.id == row.0.id && r.value.userId == row.0.userId && r.value.title == row.0.title
      && r.value.authorName == row.1.name && r.value.body == Preview(row.0.body).value
  {
    match Preview(row.0.body)
    case Failure(e) => Failure(e)
    case Success(b) => Success(Detail(row).(body := b))
  }

  /** Materialises the rows of one page; the first row whose preview throws aborts the query. */
  function ListItems(rows: seq<PostRow>): (r: Result<seq<PostDto>, ServerError>)
    ensures r.Success? <==> forall k | 0 <= k < |rows| :: ListItem(rows[k]).Success?
    ensures r.Failure? ==> r.error == ArgumentOutOfRange
    ensures r.Success? ==> |r.value| == |rows| && forall k | 0 <= k < |rows| :: r.value[k] == ListItem(rows[k]).value
    decreases |rows|
  {
    if rows == [] then Success([])
    else match ListItem(rows[0])
      case Failure(e) => Failure(e)
      case Success(item) =>
        match ListItems(rows[1..])
        case Failure(e) =>
          assert forall k | 0 <= k < |rows[1..]| :: rows[1..][k] == rows[k + 1];
          Failure(e)
        case Success(rest) => Success([item] + rest)
  }

  /** `GetAllAsync(page, pageSize)`: the count of joined rows, and the page of the
      ordered rows with each body previewed. */
  function GetAll(posts: seq<Post>, users: seq<User>, page: int, pageSize: int): (r: Result<PaginatedResult<PostDto>, ServerError>)
    ensures var rows := Page(OrderedPosts(posts, users), page, pageSize);
            r.Success? <==> forall k | 0 <= k < |rows| :: Preview(rows[k].0.body).Success?
    ensures r.Failure? ==> r.error == ArgumentOutOfRange
    ensures r.Success? ==> r.value.totalCount == |JoinedPosts(posts, users)|
    ensures r.Success? ==> r.value.pageNumber == page && r.value.pageSize == pageSize
    ensures r.Success? ==>
      var rows := Page(OrderedPosts(posts, users), page, pageSize);
      && |r.value.items| == |rows|
      && forall k | 0 <= k < |rows| ::
           && r.value.items[k].id == rows[k].0.id
           && r.value.items[k].userId == rows[k].0.userId
           && r.value.items[k].title == rows[k].0.title
           && r.value.items[k].body == Preview(rows[k].0.body).value
           && r.value.items[k].authorName == rows[k].1.name
  {
    var ordered := OrderedPosts(posts, users);
    var rows := Page(ordered, page, pageSize);
    assert |ordered| == |JoinedPosts(posts, users)| by {
      assert |multiset(ordered)| == |multiset(JoinedPosts(posts, users))|;
    }
    match ListItems(rows)
    case Failure(e) => Failure(e)
    case Success(items) => Success(PaginatedResult(items, |ordered|, page, pageSize))
  }

  // ---------------------------------------------------------------------------
  // Properties of the listing.

  /** With unique post and user ids the joined rows have unique post ids. */
  lemma {:induction false} JoinedPostIdsUnique(posts: seq<Post>, users: seq<User>)
    requires UniqueKeys(posts, PostKey) && UniqueKeys(users, UserKey)
    ensures UniqueKeys(JoinedPosts(posts, users), RowPostId)
    decreases |posts|
  {
    if posts != [] {
      var tail := posts[1..];
      assert UniqueKeys(tail, PostKey) by {
        forall i, j | 0 <= i < j < |tail| ensures PostKey(tail[i]) != PostKey(tail[j]) {
          assert tail[i] == posts[i + 1] && tail[j] == posts[j + 1];
        }
      }
      JoinedPostIdsUnique(tail, users);
      var m := Matching(users, UserKey, PostAuthor(posts[0]));
      MatchingAtMostOne(users, UserKey, PostAuthor(posts[0]));
      var head := PairWith(posts[0], m);
      var rest := JoinedPosts(tail, users);
      assert JoinedPosts(posts, users) == head + rest;
      forall a, b | a in head && b in rest ensures RowPostId(a) != RowPostId(b) {
        var k :| 0 <= k < |tail| && tail[k] == b.0;
        assert posts[k + 1] == b.0;
      }
      UniqueConcat(head, rest, RowPostId);
    }
  }

  /** Two sequences with unique keys, and no key shared between them, concatenate
      to a sequence with unique keys. */
  lemma UniqueConcat<T>(head: seq<T>, rest: seq<T>, key: T -> int)
    requires UniqueKeys(head, key) && UniqueKeys(rest, key)
    requires forall a, b | a in head && b in rest :: key(a) != key(b)
    ensures UniqueKeys(head + rest, key)
  {
    var all := head + rest;
    forall i, j | 0 <= i < j < |all| ensures key(all[i]) != key(all[j]) {
      if j < |head| {
        assert all[i] == head[i] && all[j] == head[j];
      } else if i < |head| {
        assert all[i] in head && all[j] == rest[j - |head|] && all[j] in rest;
      } else {
        assert all[i] == rest[i - |head|] && all[j] == rest[j - |head|];
      }
    }
  }

  /** Every row of the listing is a stored post with a stored author, and a stored
      post reaches the listing's rows exactly when a user with its `UserId` exists. */
  lemma OrderedPostsMember(posts: seq<Post>, users: seq<User>, row: PostRow)
    ensures row in OrderedPosts(posts, users) <==> row.0 in posts && row.1 in users && row.1.id == row.0.userId
  {
    assert row in OrderedPosts(posts, users) <==> row in multiset(JoinedPosts(posts, users));
    JoinMember(posts, users, PostAuthor, UserKey, row);
  }

  /** Listed posts come strictly newest id first. */
  lemma GetAllOrderedById(posts: seq<Post>, users: seq<User>, page: int, pageSize: int)
    requires UniqueKeys(posts, PostKey) && UniqueKeys(users, UserKey)
    requires GetAll(posts, users, page, pageSize).Success?
    ensures var items := GetAll(posts, users, page, pageSize).value.items;
            forall i, j | 0 <= i < j < |items| :: items[i].id > items[j].id
  {
    JoinedPostIdsUnique(posts, users);
    var ordered := OrderedPosts(posts, users);
    SortStrict(JoinedPosts(posts, users), RowPostId);
    var lo := Clamp((page - 1) * pageSize, |ordered|);
    var skipped := ordered[lo..];
    SliceStrict(ordered, lo, |ordered|, RowPostId);
    var rows := Page(ordered, page, pageSize);
    SliceStrict(skipped, 0, Clamp(pageSize, |skipped|), RowPostId);
    assert StrictlyDecreasing(rows, RowPostId);
  }

  /** Every listed item is a stored post whose author is a stored user: the item
      copies the post's id, user id and title and carries that user's name. */
  lemma GetAllItemsJoinAuthors(posts: seq<Post>, users: seq<User>, page: int, pageSize: int, k: nat)
    requires GetAll(posts, users, page, pageSize).Success?
    requires k < |GetAll(posts, users, page, pageSize).value.items|
    ensures var item := GetAll(posts, users, page, pageSize).value.items[k];
            exists p, u | p in posts && u in users ::
              && p.id == item.id && p.userId == item.userId && p.title == item.title
              && u.id == p.userId && u.name == item.authorName
  {
    var ordered := OrderedPosts(posts, users);
    var rows := Page(ordered, page, pageSize);
    PageBounded(ordered, page, pageSize);
    assert rows[k] in rows;
    OrderedPostsMember(posts, users, rows[k]);
  }

  /** The total counts the joined rows only: a post whose `UserId` matches no user
      is neither counted nor listed. */
  lemma GetAllDropsOrphans(posts: seq<Post>, users: seq<User>, page: int, pageSize: int, p: Post)
    requires p in posts
    requires forall u | u in users :: u.id != p.userId
    ensures forall row | row in OrderedPosts(posts, users) :: row.0 != p
    ensures GetAll(posts, users, page, pageSize).Success? ==>
      GetAll(posts, users, page, pageSize).value.totalCount == |JoinedPosts(posts, users)|
  {
    forall row | row in OrderedPosts(posts, users) ensures row.0 != p {
      OrderedPostsMember(posts, users, row);
    }
  }

  // ---------------------------------------------------------------------------
  // Lookup by id.

  /** `GetByIdAsync(id)`: the first joined row of the post with that id, with its
      full body; `FirstAsync` throws when there is none, so it never yields `null`. */
  function GetById(posts: seq<Post>, users: seq<User>, id: int): (r: Result<PostDto, ServerError>)
    ensures r.Success? <==> exists p, u | p in posts && u in users :: p.id == id && u.id == p.userId
    ensures r.Failure? ==> r.error == SequenceContainsNoElements
    ensures r.Success? ==> r.value.id == id
    ensures r.Success? ==>
      exists p, u | p in posts && u in users ::
        && p.id == id && u.id == p.userId
        && r.value == PostDto(p.id, p.userId, p.title, p.body, u.name)
  {
    var rows := SortDescending(Join(Matching(posts, PostKey, id), users, PostAuthor, UserKey), RowPostId);
    if rows == [] then
      assert forall p, u | p in posts && u in users && p.id == id :: u.id != p.userId by {
        forall p, u | p in posts && u in users && p.id == id ensures u.id != p.userId {
          JoinMember(Matching(posts, PostKey, id), users, PostAuthor, UserKey, (p, u));
          assert (p, u) !in multiset(rows);
        }
      }
      Failure(SequenceContainsNoElements)
    else
      var row := rows[0];
      assert row in multiset(rows);
      JoinMember(Matching(posts, PostKey, id), users, PostAuthor, UserKey, row);
      Success(Detail(row))
  }
}
