/**
 * The client's page buttons (post-list and post-details components): the
 * numbers 1 to `Math.ceil(totalCount / pageSize)`.
 */
module PageList {
  import opened Linq

  /** `Math.ceil(total / pageSize)` used as an array length: a total of zero or
      less gives no pages. */
  function PageCount(total: int, pageSize: int): (n: nat)
    requires pageSize >= 1
    ensures total <= 0 ==> n == 0
    ensures total > 0 ==> (n - 1) * pageSize < total <= n * pageSize
  {
    if total <= 0 then 0
    else
      var q := (total + pageSize - 1) / pageSize;
      var rem := (total + pageSize - 1) % pageSize;
      assert q * pageSize + rem == total + pageSize - 1;
      assert (q - 1) * pageSize == q * pageSize - pageSize;
      q
  }

  /** `Array.from({ length: n }, (_, i) => i + 1)`. */
  function PageNumbers(n: nat): (pages: seq<int>)
    ensures |pages| == n
    ensures forall k | 0 <= k < n :: pages[k] == k + 1
  {
    seq(n, k requires 0 <= k < n => k + 1)
  }

  /** The page buttons for a listing of `total` rows. */
  function Pages(total: int, pageSize: int): (pages: seq<int>)
    requires pageSize >= 1
    ensures |pages| == PageCount(total, pageSize)
  {
    PageNumbers(PageCount(total, pageSize))
  }

  /** The count is the least number of pages of `pageSize` rows that hold `total` rows. */
  lemma PageCountIsLeast(total: int, pageSize: int, m: nat)
    requires pageSize >= 1
    requires total <= m * pageSize
    ensures PageCount(total, pageSize) <= m
  {
  }

  /** Against the server's slicing of the same `total` rows: every button names a
      page that holds rows, and the page after the last button is empty. */
  lemma PagesCoverListing<T>(s: seq<T>, pageSize: int)
    requires pageSize >= 1
    ensures forall p | 1 <= p <= PageCount(|s|, pageSize) :: Page(s, p, pageSize) != []
    ensures Page(s, PageCount(|s|, pageSize) + 1, pageSize) == []
  {
    var n := PageCount(|s|, pageSize);
    forall p | 1 <= p <= n ensures Page(s, p, pageSize) != [] {
      assert (p - 1) * pageSize <= (n - 1) * pageSize by {
        assert (n - p) * pageSize >= 0;
      }
      PageIsSlice(s, p, pageSize);
    }
    assert n * pageSize >= |s|;
    PagePastEnd(s, n + 1, pageSize);
  }
}
