/**
 * The post details page (post-details.component.ts): the comment list with its
 * page buttons, the update after a comment is added, and author initials.
 */
module PostDetails {
  import opened Models
  import opened Text
  import PageList

  // ---------------------------------------------------------------------------
  // Initials.

  /** `s.split(' ')`: the parts between single spaces, empty ones included; the
      empty string splits into one empty part. */
  function Split(s: string): (parts: seq<string>)
    ensures |parts| >= 1
    ensures forall k | 0 <= k < |parts| :: ' ' !in parts[k]
    decreases |s|
  {
    if s == [] then [""]
    else
      var rest := Split(s[1..]);
      if s[0] == ' ' then [""] + rest
      else [[s[0]] + rest[0]] + rest[1..]
  }

  /** `parts.join(' ')`. */
  function JoinWithSpaces(parts: seq<string>): string
    requires |parts| >= 1
    decreases |parts|
  {
    if |parts| == 1 then parts[0] else parts[0] + " " + JoinWithSpaces(parts[1..])
  }

  /** Splitting on spaces loses nothing: joining the parts back gives the string. */
  lemma {:induction false} SplitJoin(s: string)
    ensures JoinWithSpaces(Split(s)) == s
    decreases |s|
  {
    if s != [] {
      SplitJoin(s[1..]);
      var rest := Split(s[1..]);
      if s[0] == ' ' {
        assert Split(s)[1..] == rest;
      } else {
        var parts := Split(s);
        if |rest| == 1 {
          assert parts == [[s[0]] + rest[0]];
        } else {
          assert parts[1..] == rest[1..];
          assert JoinWithSpaces(rest) == rest[0] + " " + JoinWithSpaces(rest[1..]);
        }
      }
    }
  }

  /** `part.charAt(0).toUpperCase()`: nothing for an empty part. */
  function FirstUpper(part: string): (r: string)
    ensures part == [] ==> r == []
    ensures part != [] ==> r == [ToUpper(part[0])]
  {
    if part == [] then [] else [ToUpper(part[0])]
  }

  /** `parts.map(FirstUpper).join('')`: at most one character per part, and no
      space when no part holds one. */
  function InitialsOf(parts: seq<string>): (r: string)
    ensures |r| <= |parts|
    ensures (forall k | 0 <= k < |parts| :: ' ' !in parts[k]) ==> ' ' !in r
    decreases |parts|
  {
    if parts == [] then [] else FirstUpper(parts[0]) + InitialsOf(parts[1..])
  }

  /** `getInitials(name)`: never a space, and nothing for an empty name. */
  function GetInitials(name: string): (r: string)
    ensures ' ' !in r
    ensures name == [] ==> r == []
  {
    if name == [] then [] else InitialsOf(Split(name))
  }

  /** A reference reading of initials, one character at a time: a character that
      is not a space and opens a word (at the start, or after a space) contributes
      its upper case; everything else contributes nothing. */
  function ScanInitials(s: string, atWordStart: bool): string
    decreases |s|
  {
    if s == [] then []
    else if s[0] == ' ' then ScanInitials(s[1..], true)
    else (if atWordStart then [ToUpper(s[0])] else []) + ScanInitials(s[1..], false)
  }

  /** The split-based initials agree with the scan; dropping the first part
      corresponds to starting inside a word. */
  lemma {:induction false} InitialsMatchScan(s: string)
    ensures InitialsOf(Split(s)) == ScanInitials(s, true)
    ensures InitialsOf(Split(s)[1..]) == ScanInitials(s, false)
    decreases |s|
  {
    if s != [] {
      InitialsMatchScan(s[1..]);
      var rest := Split(s[1..]);
      if s[0] == ' ' {
        assert Split(s) == [""] + rest;
        assert Split(s)[1..] == rest;
      } else {
        var parts := Split(s);
        assert parts[1..] == rest[1..];
        assert FirstUpper(parts[0]) == [ToUpper(s[0])];
      }
    }
  }

  /** `getInitials` is the scan from a word start: one upper-cased letter per word,
      in order, with runs of spaces contributing nothing; `""` gives `""`. */
  lemma GetInitialsIsScan(name: string)
    ensures GetInitials(name) == ScanInitials(name, true)
    ensures name == [] ==> GetInitials(name) == []
  {
    InitialsMatchScan(name);
  }

  /** The number of non-empty parts, the words of the string. */
  function WordCount(parts: seq<string>): nat
    decreases |parts|
  {
    if parts == [] then 0 else (if parts[0] == [] then 0 else 1) + WordCount(parts[1..])
  }

  /** One initial per word. */
  lemma {:induction false} InitialsPerWord(parts: seq<string>)
    ensures |InitialsOf(parts)| == WordCount(parts)
    decreases |parts|
  {
    if parts != [] {
      InitialsPerWord(parts[1..]);
    }
  }

  // ---------------------------------------------------------------------------
  // The component.

  const COMMENTS_PAGE_SIZE: int := 4

  class PostDetailsComponent {
    var comments: seq<CommentDto>
    var pages: seq<int>
    var currentPage: int
    var totalComments: int
    /** The `getComments(postId, page)` requests issued, oldest first. */
    var requests: seq<(int, int)>

    /** The page buttons always match the comment total. */
    ghost predicate Valid()
      reads this
    {
      pages == PageList.Pages(totalComments, COMMENTS_PAGE_SIZE)
    }

    constructor ()
      ensures Valid()
      ensures comments == [] && pages == [] && currentPage == 1 && totalComments == 0 && requests == []
    {
      comments := [];
      pages := [];
      currentPage := 1;
      totalComments := 0;
      requests := [];
    }

    /** `getComments(postId, page)`: issues the request for four comments of that page. */
    method GetComments(postId: int, page: int)
      modifies this
      ensures requests == old(requests) + [(postId, page)]
      ensures comments == old(comments) && pages == old(pages) && currentPage == old(currentPage)
      ensures totalComments == old(totalComments)
    {
      requests := requests + [(postId, page)];
    }

    /** The success handler of `getComments`: shows the page, its total, the
        buttons for that total, and marks the requested page current. */
    method OnCommentsLoaded(data: PaginatedResult<CommentDto>, page: int)
      modifies this
      ensures Valid()
      ensures comments == data.items && totalComments == data.totalCount
      ensures pages == PageList.PageNumbers(PageList.PageCount(data.totalCount, COMMENTS_PAGE_SIZE))
      ensures currentPage == page
      ensures requests == old(requests)
    {
      comments := data.items;
      totalComments := data.totalCount;
      pages := PageList.Pages(totalComments, COMMENTS_PAGE_SIZE);
      currentPage := page;
    }

    /** `onCommentAdded(newComment)`: appends it, counts it, recomputes the buttons,
        and once more than four comments are shown moves on a page and asks for it. */
    method OnCommentAdded(newComment: CommentDto)
      modifies this
      ensures Valid()
      ensures comments == old(comments) + [newComment]
      ensures totalComments == old(totalComments) + 1
      ensures |comments| > COMMENTS_PAGE_SIZE ==>
        currentPage == old(currentPage) + 1 && requests == old(requests) + [(newComment.postId, currentPage)]
      ensures |comments| <= COMMENTS_PAGE_SIZE ==> currentPage == old(currentPage) && requests == old(requests)
    {
      comments := comments + [newComment];
      totalComments := totalComments + 1;
      pages := PageList.Pages(totalComments, COMMENTS_PAGE_SIZE);
      if |comments| > COMMENTS_PAGE_SIZE {
        currentPage := currentPage + 1;
        GetComments(newComment.postId, currentPage);
      }
    }
  }

  /** After a comment is added to a total of `t`, there is one more button exactly
      when `t` filled its last page. */
  lemma AddedCommentPages(t: nat)
    ensures |PageList.Pages(t + 1, COMMENTS_PAGE_SIZE)| ==
            |PageList.Pages(t, COMMENTS_PAGE_SIZE)| + (if t % COMMENTS_PAGE_SIZE == 0 then 1 else 0)
  {
    var n := PageList.PageCount(t, COMMENTS_PAGE_SIZE);
    var m := PageList.PageCount(t + 1, COMMENTS_PAGE_SIZE);
    if t % COMMENTS_PAGE_SIZE == 0 {
      assert t == (t / 4) * 4;
      PageList.PageCountIsLeast(t, COMMENTS_PAGE_SIZE, t / 4);
    } else {
      assert t == (t / 4) * 4 + t % 4;
      PageList.PageCountIsLeast(t + 1, COMMENTS_PAGE_SIZE, t / 4 + 1);
    }
  }
}
