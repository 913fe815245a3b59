/**
 * The comment query (CommentRepositoy.cs): the comments of one post joined with
 * their authors, in store order, one page at a time.
 */
module CommentRepository {
  import opened Models
  import opened Linq

  type CommentRow = (Comment, User)

  function CommentPost(c: Comment): int { c.postId }

  /** `from comment in Comments where comment.PostId == postId join user in Users on comment.UserId equals user.Id`. */
  function JoinedComments(comments: seq<Comment>, users: seq<User>, postId: int): seq<CommentRow>
  {
    Join(Matching(comments, CommentPost, postId), users, CommentAuthor, UserKey)
  }

  function ToDto(row: CommentRow): (d: CommentDto)
    ensures d.id == row.0.id && d.postId == row.0.postId && d.userId == row.0.userId
    ensures d.body == row.0.body && d.authorName == row.1.name
  {
    CommentDto(row.0.id, row.0.postId, row.0.userId, row.0.body, row.1.name)
  }

  /** `GetAllAsync(postId, page, pageSize)`: the count of joined rows, and one page
      of them projected to `CommentDto`. There is no ordering clause. */
  function GetAll(comments: seq<Comment>, users: seq<User>, postId: int, page: int, pageSize: int): (r: PaginatedResult<CommentDto>)
    ensures r.totalCount == |JoinedComments(comments, users, postId)|
    ensures r.pageNumber == page && r.pageSize == pageSize
    ensures var rows := Page(JoinedComments(comments, users, postId), page, pageSize);
            |r.items| == |rows| && forall k | 0 <= k < |rows| :: r.items[k] == ToDto(rows[k])
  {
    var rows := JoinedComments(comments, users, postId);
    var pageRows := Page(rows, page, pageSize);
    PaginatedResult(seq(|pageRows|, k requires 0 <= k < |pageRows| => ToDto(pageRows[k])), |rows|, page, pageSize)
  }

  /** Every listed comment belongs to the requested post and is a stored comment
      whose author is a stored user, whose name it carries. */
  lemma GetAllItemsBelongToPost(comments: seq<Comment>, users: seq<User>, postId: int, page: int, pageSize: int, k: nat)
    requires k < |GetAll(comments, users, postId, page, pageSize).items|
    ensures var item := GetAll(comments, users, postId, page, pageSize).items[k];
            && item.postId == postId
            && exists c, u | c in comments && u in users ::
                 && c == Comment(item.id, item.postId, item.userId, item.body)
                 && u.id == c.userId && u.name == item.authorName
  {
    var rows := JoinedComments(comments, users, postId);
    var pageRows := Page(rows, page, pageSize);
    PageBounded(rows, page, pageSize);
    assert pageRows[k] in pageRows;
    JoinMember(Matching(comments, CommentPost, postId), users, CommentAuthor, UserKey, pageRows[k]);
  }

  /** A comment of the post whose author is not a stored user is neither counted nor listed. */
  lemma GetAllDropsOrphans(comments: seq<Comment>, users: seq<User>, postId: int, c: Comment)
    requires forall u | u in users :: u.id != c.userId
    ensures forall row | row in JoinedComments(comments, users, postId) :: row.0 != c
  {
    forall row | row in JoinedComments(comments, users, postId) ensures row.0 != c {
      JoinMember(Matching(comments, CommentPost, postId), users, CommentAuthor, UserKey, row);
    }
  }

  /** With unique user ids and every author stored, the total is the number of the
      post's comments and the page holds them in store order, each with its author. */
  lemma GetAllListsStoreOrder(comments: seq<Comment>, users: seq<User>, postId: int, page: int, pageSize: int)
    requires UniqueKeys(users, UserKey)
    requires forall c | c in comments :: exists u | u in users :: u.id == c.userId
    ensures var ofPost := Matching(comments, CommentPost, postId);
            var r := GetAll(comments, users, postId, page, pageSize);
            && r.totalCount == |ofPost|
            && |r.items| == |Page(ofPost, page, pageSize)|
            && forall k | 0 <= k < |r.items| ::
                 exists u | u in users && u.id == Page(ofPost, page, pageSize)[k].userId ::
                   r.items[k] == ToDto((Page(ofPost, page, pageSize)[k], u))
  {
    var ofPost := Matching(comments, CommentPost, postId);
    var rows := JoinedComments(comments, users, postId);
    var r := GetAll(comments, users, postId, page, pageSize);
    JoinedInStoreOrder(comments, users, postId);
    var lo := Clamp((page - 1) * pageSize, |rows|);
    forall k | 0 <= k < |r.items|
      ensures exists u | u in users && u.id == Page(ofPost, page, pageSize)[k].userId ::
                r.items[k] == ToDto((Page(ofPost, page, pageSize)[k], u))
    {
      var row := rows[lo + k];
      assert row == Page(rows, page, pageSize)[k];
      assert row.0 == Page(ofPost, page, pageSize)[k];
      assert r.items[k] == ToDto((row.0, row.1));
    }
  }

  /** With unique user ids and every author stored, joined row `j` is the post's
      comment `j` with a stored user carrying its author id. */
  lemma JoinedInStoreOrder(comments: seq<Comment>, users: seq<User>, postId: int)
    requires UniqueKeys(users, UserKey)
    requires forall c | c in comments :: exists u | u in users :: u.id == c.userId
    ensures var ofPost := Matching(comments, CommentPost, postId);
            var rows := JoinedComments(comments, users, postId);
            && |rows| == |ofPost|
            && forall j | 0 <= j < |rows| :: rows[j].0 == ofPost[j] && rows[j].1 in users && rows[j].1.id == ofPost[j].userId
  {
    var ofPost := Matching(comments, CommentPost, postId);
    forall c | c in ofPost ensures HasPartner(users, UserKey, CommentAuthor(c)) {
      var u :| u in users && u.id == c.userId;
      assert UserKey(u) == CommentAuthor(c);
    }
    JoinKeepsOuter(ofPost, users, CommentAuthor, UserKey);
    var rows := JoinedComments(comments, users, postId);
    forall j | 0 <= j < |rows| ensures rows[j].1 in users && rows[j].1.id == rows[j].0.userId {
      assert rows[j] in rows;
      JoinMember(ofPost, users, CommentAuthor, UserKey, rows[j]);
    }
  }
}
