/**
 * The LINQ operators the repositories compose: `Where`, `Join`, `OrderByDescending`,
 * `Skip` and `Take`, over sequences kept in store (insertion) order, and the
 * page slice `Skip((page - 1) * pageSize).Take(pageSize)` every listing uses.
 */
module Linq {
  import opened Models

  /** `Where`: the elements that satisfy `p`, in their original order. */
  function Where<T>(s: seq<T>, p: T -> bool): (r: seq<T>)
    ensures |r| <= |s|
    ensures forall x | x in r :: x in s && p(x)
    ensures forall x | x in s && p(x) :: x in r
    ensures multiset(r) <= multiset(s)
    ensures forall x | x in s :: multiset(r)[x] == if p(x) then multiset(s)[x] else 0
    decreases |s|
  {
    if s == [] then [] else
      assert s == [s[0]] + s[1..];
      (if p(s[0]) then [s[0]] else []) + Where(s[1..], p)
  }

  /** Filtering a concatenation filters each part and keeps them in order; with the
      one-element case this fixes the order `Where` keeps. */
  lemma {:induction false} WhereConcat<T>(s: seq<T>, t: seq<T>, p: T -> bool)
    ensures Where(s + t, p) == Where(s, p) + Where(t, p)
    decreases |s|
  {
    if s == [] {
      assert s + t == t;
    } else {
      var u := s + t;
      assert u[0] == s[0] && u[1..] == s[1..] + t;
      WhereConcat(s[1..], t, p);
      var head := if p(s[0]) then [s[0]] else [];
      calc {
        Where(u, p);
        head + Where(s[1..] + t, p);
        head + (Where(s[1..], p) + Where(t, p));
        (head + Where(s[1..], p)) + Where(t, p);
      }
    }
  }

  /** A single row is kept exactly when it passes. */
  lemma WhereSingle<T>(x: T, p: T -> bool)
    ensures Where([x], p) == if p(x) then [x] else []
  {
    assert [x][1..] == [];
  }

  /** The positions of `s` whose row passes `p`. */
  function Admitted<T>(s: seq<T>, p: T -> bool): set<int>
  {
    set i | 0 <= i < |s| && p(s[i])
  }

  /** Appending a row adds its position exactly when it passes. */
  lemma AdmittedSnoc<T>(s: seq<T>, x: T, p: T -> bool)
    ensures |Admitted(s + [x], p)| == |Admitted(s, p)| + (if p(x) then 1 else 0)
  {
    var u := s + [x];
    assert forall i | 0 <= i < |s| :: u[i] == s[i];
    if p(x) {
      assert Admitted(u, p) == Admitted(s, p) + {|s|};
    } else {
      assert Admitted(u, p) == Admitted(s, p);
    }
  }

  /** `Where` keeps as many rows as there are positions whose row passes `p`. */
  lemma {:induction false} WhereCount<T>(s: seq<T>, p: T -> bool)
    ensures |Where(s, p)| == |set i | 0 <= i < |s| && p(s[i])|
    decreases |s|
  {
    if s != [] {
      var n := |s| - 1;
      var init := s[..n];
      assert s == init + [s[n]];
      WhereConcat(init, [s[n]], p);
      WhereSingle(s[n], p);
      WhereCount(init, p);
      AdmittedSnoc(init, s[n], p);
    }
    assert Admitted(s, p) == set i | 0 <= i < |s| && p(s[i]);
  }

  /** The first element `Where` yields is the first element of `s` that satisfies `p`. */
  lemma {:induction false} WhereFirst<T>(s: seq<T>, p: T -> bool)
    requires Where(s, p) != []
    ensures exists i :: 0 <= i < |s| && s[i] == Where(s, p)[0] && p(s[i]) && forall j :: 0 <= j < i ==> !p(s[j])
    decreases |s|
  {
    if p(s[0]) {
      assert s[0] == Where(s, p)[0];
    } else {
      assert Where(s, p) == Where(s[1..], p);
      WhereFirst(s[1..], p);
      var i :| 0 <= i < |s[1..]| && s[1..][i] == Where(s[1..], p)[0] && p(s[1..][i]) && forall j :: 0 <= j < i ==> !p(s[1..][j]);
      assert s[i + 1] == Where(s, p)[0];
      assert forall j :: 0 <= j < i + 1 ==> !p(s[j]) by {
        forall j | 0 <= j < i + 1 ensures !p(s[j]) {
          if j > 0 { assert s[j] == s[1..][j - 1]; }
        }
      }
    }
  }

  /** A filter that every element passes leaves the sequence as it is. */
  lemma {:induction false} WhereAll<T>(s: seq<T>, p: T -> bool)
    requires forall x :: x in s ==> p(x)
    ensures Where(s, p) == s
    decreases |s|
  {
    if s != [] {
      WhereAll(s[1..], p);
    }
  }

  /** LINQ clamps a count to the range 0..len: a negative count skips or takes nothing. */
  function Clamp(n: int, len: nat): (c: nat)
    ensures c <= len
  {
    if n <= 0 then 0 else if n >= len then len else n
  }

  /** `Skip(n)`: everything after the first `n` elements; `n <= 0` skips nothing. */
  function Skip<T>(s: seq<T>, n: int): (r: seq<T>)
    ensures |r| == |s| - Clamp(n, |s|)
    ensures forall k | 0 <= k < |r| :: r[k] == s[Clamp(n, |s|) + k]
    ensures n <= 0 ==> r == s
    ensures n >= |s| ==> r == []
  {
    s[Clamp(n, |s|)..]
  }

  /** `Take(n)`: the first `n` elements; `n <= 0` takes nothing. */
  function Take<T>(s: seq<T>, n: int): (r: seq<T>)
    ensures r <= s
    ensures 0 <= n <= |s| ==> |r| == n
    ensures n <= 0 ==> r == []
    ensures n >= |s| ==> r == s
  {
    s[..Clamp(n, |s|)]
  }

  /** `Skip((page - 1) * pageSize).Take(pageSize)`, with exact arithmetic: element
      `k` of a page is element `lo + k` of the sequence, where `lo` is the clamped
      skip count, and the length is the clamped page size. */
  function Page<T>(s: seq<T>, page: int, pageSize: int): (r: seq<T>)
    ensures var lo := Clamp((page - 1) * pageSize, |s|);
            && |r| == Clamp(pageSize, |s| - lo)
            && forall k | 0 <= k < |r| :: r[k] == s[lo + k]
  {
    Take(Skip(s, (page - 1) * pageSize), pageSize)
  }

  /** The envelope every listing returns: the page and the count taken before slicing. */
  function Paginate<T>(s: seq<T>, page: int, pageSize: int): PaginatedResult<T>
  {
    PaginatedResult(Page(s, page, pageSize), |s|, page, pageSize)
  }

  lemma OffsetNonNegative(page: int, pageSize: int)
    requires page >= 1 && pageSize >= 1
    ensures (page - 1) * pageSize >= 0
  {
  }

  /** For positive arguments a page is the contiguous slice that starts at index
      `(page - 1) * pageSize` (or at the end) and holds at most `pageSize` elements. */
  lemma PageIsSlice<T>(s: seq<T>, page: int, pageSize: int)
    requires page >= 1 && pageSize >= 1
    ensures var lo := if (page - 1) * pageSize < |s| then (page - 1) * pageSize else |s|;
            var hi := if lo + pageSize < |s| then lo + pageSize else |s|;
            Page(s, page, pageSize) == s[lo..hi]
    ensures |Page(s, page, pageSize)| <= pageSize
    ensures forall k :: 0 <= k < |Page(s, page, pageSize)| ==> Page(s, page, pageSize)[k] == s[(page - 1) * pageSize + k]
  {
    OffsetNonNegative(page, pageSize);
  }

  /** A page that starts at or after the end of the data is empty. */
  lemma PagePastEnd<T>(s: seq<T>, page: int, pageSize: int)
    requires page >= 1 && pageSize >= 1
    requires (page - 1) * pageSize >= |s|
    ensures Page(s, page, pageSize) == []
  {
  }

  /** Whatever the arguments, a page never holds more than `pageSize` elements,
      and every element of a page is an element of the data. */
  lemma PageBounded<T>(s: seq<T>, page: int, pageSize: int)
    ensures |Page(s, page, pageSize)| <= (if pageSize < 0 then 0 else pageSize)
    ensures |Page(s, page, pageSize)| <= |s|
    ensures forall x :: x in Page(s, page, pageSize) ==> x in s
  {
    var t := Skip(s, (page - 1) * pageSize);
    forall x | x in Page(s, page, pageSize) ensures x in s {
      var k :| 0 <= k < |Page(s, page, pageSize)| && Page(s, page, pageSize)[k] == x;
      assert x == s[Clamp((page - 1) * pageSize, |s|) + k];
    }
  }

  /** A page number of 1 or less reads from the start: LINQ clamps a negative skip to zero. */
  lemma PageAtOrBeforeFirst<T>(s: seq<T>, page: int, pageSize: int)
    requires page <= 1 && pageSize >= 0
    ensures Page(s, page, pageSize) == Take(s, pageSize)
  {
    assert (page - 1) * pageSize <= 0;
  }

  // ---------------------------------------------------------------------------
  // Sorting: `orderby key descending`, a stable sort.

  predicate NonIncreasing<T>(s: seq<T>, key: T -> int)
  {
    forall i, j :: 0 <= i < j < |s| ==> key(s[i]) >= key(s[j])
  }

  predicate StrictlyDecreasing<T>(s: seq<T>, key: T -> int)
  {
    forall i, j :: 0 <= i < j < |s| ==> key(s[i]) > key(s[j])
  }

  predicate UniqueKeys<T>(s: seq<T>, key: T -> int)
  {
    forall i, j :: 0 <= i < j < |s| ==> key(s[i]) != key(s[j])
  }

  /** Inserts `x` before the first element whose key is not larger, so that an
      element keeps its place ahead of later elements with an equal key. */
  function InsertDescending<T>(x: T, s: seq<T>, key: T -> int): (r: seq<T>)
    ensures multiset(r) == multiset(s) + multiset{x}
    decreases |s|
  {
    if s == [] || key(x) >= key(s[0]) then [x] + s
    else
      assert s == [s[0]] + s[1..];
      [s[0]] + InsertDescending(x, s[1..], key)
  }

  /** Every element of an insertion is the inserted one or an old one. */
  lemma InsertMembers<T>(x: T, s: seq<T>, key: T -> int, y: T)
    requires y in InsertDescending(x, s, key)
    ensures y == x || y in s
  {
    assert y in multiset(InsertDescending(x, s, key));
  }

  lemma {:induction false} InsertSorted<T>(x: T, s: seq<T>, key: T -> int)
    requires NonIncreasing(s, key)
    ensures NonIncreasing(InsertDescending(x, s, key), key)
    decreases |s|
  {
    if s == [] || key(x) >= key(s[0]) {
      var r := [x] + s;
      forall i, j | 0 <= i < j < |r| ensures key(r[i]) >= key(r[j]) {
        if i == 0 && j > 1 { assert key(s[0]) >= key(s[j - 1]); }
      }
    } else {
      var tail := s[1..];
      assert NonIncreasing(tail, key) by {
        forall i, j | 0 <= i < j < |tail| ensures key(tail[i]) >= key(tail[j]) {
          assert tail[i] == s[i + 1] && tail[j] == s[j + 1];
        }
      }
      InsertSorted(x, tail, key);
      var rest := InsertDescending(x, tail, key);
      var r := [s[0]] + rest;
      forall i, j | 0 <= i < j < |r| ensures key(r[i]) >= key(r[j]) {
        if i == 0 {
          var y := rest[j - 1];
          InsertMembers(x, tail, key, y);
          if y != x {
            var k :| 0 <= k < |tail| && tail[k] == y;
            assert key(s[0]) >= key(s[k + 1]);
          }
        } else {
          assert r[i] == rest[i - 1] && r[j] == rest[j - 1];
        }
      }
    }
  }

  /** `OrderByDescending(key)`: an insertion sort that yields a permutation of
      `s` whose keys never increase. */
  function SortDescending<T>(s: seq<T>, key: T -> int): (r: seq<T>)
    ensures multiset(r) == multiset(s)
    ensures NonIncreasing(r, key)
    decreases |s|
  {
    if s == [] then []
    else
      assert s == [s[0]] + s[1..];
      var sorted := SortDescending(s[1..], key);
      InsertSorted(s[0], sorted, key);
      InsertDescending(s[0], sorted, key)
  }

  lemma {:induction false} InsertStrict<T>(x: T, s: seq<T>, key: T -> int)
    requires StrictlyDecreasing(s, key)
    requires forall y | y in s :: key(y) != key(x)
    ensures StrictlyDecreasing(InsertDescending(x, s, key), key)
    decreases |s|
  {
    if s == [] || key(x) >= key(s[0]) {
      var r := [x] + s;
      forall i, j | 0 <= i < j < |r| ensures key(r[i]) > key(r[j]) {
        if i == 0 {
          assert s[j - 1] in s;
          if j > 1 { assert key(s[0]) > key(s[j - 1]); }
        }
      }
    } else {
      var tail := s[1..];
      assert StrictlyDecreasing(tail, key) by {
        forall i, j | 0 <= i < j < |tail| ensures key(tail[i]) > key(tail[j]) {
          assert tail[i] == s[i + 1] && tail[j] == s[j + 1];
        }
      }
      InsertStrict(x, tail, key);
      var rest := InsertDescending(x, tail, key);
      var r := [s[0]] + rest;
      forall i, j | 0 <= i < j < |r| ensures key(r[i]) > key(r[j]) {
        if i == 0 {
          var y := rest[j - 1];
          InsertMembers(x, tail, key, y);
          if y != x {
            var k :| 0 <= k < |tail| && tail[k] == y;
            assert key(s[0]) > key(s[k + 1]);
          }
        } else {
          assert r[i] == rest[i - 1] && r[j] == rest[j - 1];
        }
      }
    }
  }

  /** Sorting rows whose keys are unique gives keys that strictly decrease. */
  lemma {:induction false} SortStrict<T>(s: seq<T>, key: T -> int)
    requires UniqueKeys(s, key)
    ensures StrictlyDecreasing(SortDescending(s, key), key)
    decreases |s|
  {
    if s != [] {
      var tail := s[1..];
      assert UniqueKeys(tail, key) by {
        forall i, j | 0 <= i < j < |tail| ensures key(tail[i]) != key(tail[j]) {
          assert tail[i] == s[i + 1] && tail[j] == s[j + 1];
        }
      }
      SortStrict(tail, key);
      var sorted := SortDescending(tail, key);
      forall y | y in sorted ensures key(y) != key(s[0]) {
        assert y in multiset(sorted);
        var k :| 0 <= k < |tail| && tail[k] == y;
        assert s[k + 1] == y;
      }
      InsertStrict(s[0], sorted, key);
    }
  }

  /** A contiguous piece of a strictly decreasing sequence decreases strictly. */
  lemma SliceStrict<T>(s: seq<T>, lo: nat, hi: nat, key: T -> int)
    requires lo <= hi <= |s|
    requires StrictlyDecreasing(s, key)
    ensures StrictlyDecreasing(s[lo..hi], key)
  {
    forall i, j | 0 <= i < j < hi - lo ensures key(s[lo..hi][i]) > key(s[lo..hi][j]) {
      assert s[lo..hi][i] == s[lo + i] && s[lo..hi][j] == s[lo + j];
    }
  }

  // ---------------------------------------------------------------------------
  // Inner join: `from x in xs join y in ys on outerKey(x) equals innerKey(y)`.

  /** The inner rows whose key is `k`, in order. */
  function Matching<B>(ys: seq<B>, innerKey: B -> int, k: int): (r: seq<B>)
    ensures forall y | y in r :: y in ys && innerKey(y) == k
    ensures forall y | y in ys && innerKey(y) == k :: y in r
    decreases |ys|
  {
    if ys == [] then []
    else (if innerKey(ys[0]) == k then [ys[0]] else []) + Matching(ys[1..], innerKey, k)
  }

  lemma {:induction false} MatchingNone<B>(ys: seq<B>, innerKey: B -> int, k: int)
    requires forall y | y in ys :: innerKey(y) != k
    ensures Matching(ys, innerKey, k) == []
    decreases |ys|
  {
    if ys != [] {
      assert ys[0] in ys;
      MatchingNone(ys[1..], innerKey, k);
    }
  }

  /** When inner keys are unique at most one inner row matches a key. */
  lemma {:induction false} MatchingAtMostOne<B>(ys: seq<B>, innerKey: B -> int, k: int)
    requires UniqueKeys(ys, innerKey)
    ensures |Matching(ys, innerKey, k)| <= 1
    decreases |ys|
  {
    if ys != [] {
      var tail := ys[1..];
      assert UniqueKeys(tail, innerKey) by {
        forall i, j | 0 <= i < j < |tail| ensures innerKey(tail[i]) != innerKey(tail[j]) {
          assert tail[i] == ys[i + 1] && tail[j] == ys[j + 1];
        }
      }
      MatchingAtMostOne(tail, innerKey, k);
      if innerKey(ys[0]) == k {
        forall y | y in tail ensures innerKey(y) != k {
          var j :| 0 <= j < |tail| && tail[j] == y;
          assert ys[j + 1] == y;
        }
        MatchingNone(tail, innerKey, k);
      }
    }
  }

  /** Pairs one outer row with each of its matches. */
  function PairWith<A, B>(x: A, ys: seq<B>): (r: seq<(A, B)>)
    ensures |r| == |ys|
    ensures forall k :: 0 <= k < |r| ==> r[k] == (x, ys[k])
  {
    seq(|ys|, k requires 0 <= k < |ys| => (x, ys[k]))
  }

  /** LINQ's inner join: outer order first, then the order of the inner matches.
      Every pair joins a stored outer row to a stored inner row with the same key. */
  function Join<A, B>(xs: seq<A>, ys: seq<B>, outerKey: A -> int, innerKey: B -> int): (r: seq<(A, B)>)
    ensures forall q | q in r :: q.0 in xs && q.1 in ys && innerKey(q.1) == outerKey(q.0)
    decreases |xs|
  {
    if xs == [] then []
    else PairWith(xs[0], Matching(ys, innerKey, outerKey(xs[0]))) + Join(xs[1..], ys, outerKey, innerKey)
  }

  /** A pair is in the join exactly when both halves are stored and their keys agree:
      rows without a partner are dropped, and nothing else is. */
  lemma {:induction false} JoinMember<A, B>(xs: seq<A>, ys: seq<B>, outerKey: A -> int, innerKey: B -> int, p: (A, B))
    ensures p in Join(xs, ys, outerKey, innerKey) <==> p.0 in xs && p.1 in ys && innerKey(p.1) == outerKey(p.0)
    decreases |xs|
  {
    if xs != [] {
      JoinMember(xs[1..], ys, outerKey, innerKey, p);
      var m := Matching(ys, innerKey, outerKey(xs[0]));
      var head := PairWith(xs[0], m);
      assert p in head <==> p.0 == xs[0] && p.1 in m by {
        if p in head {
          var k :| 0 <= k < |head| && head[k] == p;
          assert m[k] in m;
        }
        if p.0 == xs[0] && p.1 in m {
          var k :| 0 <= k < |m| && m[k] == p.1;
          assert head[k] == p;
        }
      }
      assert xs == [xs[0]] + xs[1..];
    }
  }

  /** When every outer row has exactly one partner (unique inner keys, none missing),
      the join keeps every outer row, in order. */
  lemma {:induction false} JoinKeepsOuter<A, B>(xs: seq<A>, ys: seq<B>, outerKey: A -> int, innerKey: B -> int)
    requires UniqueKeys(ys, innerKey)
    requires forall x | x in xs :: HasPartner(ys, innerKey, outerKey(x))
    ensures |Join(xs, ys, outerKey, innerKey)| == |xs|
    ensures forall k | 0 <= k < |xs| :: Join(xs, ys, outerKey, innerKey)[k].0 == xs[k]
    decreases |xs|
  {
    if xs != [] {
      assert xs[0] in xs;
      OnePartner(ys, innerKey, outerKey(xs[0]));
      var tail := xs[1..];
      assert forall x | x in tail :: x in xs;
      JoinKeepsOuter(tail, ys, outerKey, innerKey);
      FirstsOfCons(xs, PairWith(xs[0], Matching(ys, innerKey, outerKey(xs[0]))), Join(tail, ys, outerKey, innerKey));
    }
  }

  /** One pair for the first row followed by one pair per later row, in order. */
  lemma FirstsOfCons<A, B>(xs: seq<A>, head: seq<(A, B)>, rest: seq<(A, B)>)
    requires xs != [] && |head| == 1 && head[0].0 == xs[0]
    requires |rest| == |xs| - 1
    requires forall k | 0 <= k < |rest| :: rest[k].0 == xs[k + 1]
    ensures |head + rest| == |xs|
    ensures forall k | 0 <= k < |xs| :: (head + rest)[k].0 == xs[k]
  {
  }

  /** Some stored row carries key `k`. */
  predicate HasPartner<B(==)>(ys: seq<B>, innerKey: B -> int, k: int)
  {
    exists y | y in ys :: innerKey(y) == k
  }

  /** A key that some row carries, among unique keys, has exactly one partner. */
  lemma OnePartner<B>(ys: seq<B>, innerKey: B -> int, k: int)
    requires UniqueKeys(ys, innerKey)
    requires HasPartner(ys, innerKey, k)
    ensures |Matching(ys, innerKey, k)| == 1
  {
    MatchingAtMostOne(ys, innerKey, k);
    var y :| y in ys && innerKey(y) == k;
    assert y in Matching(ys, innerKey, k);
  }



  // ---------------------------------------------------------------------------
  // Finding: the skip count is 32-bit arithmetic in the source.

  const INT32_MIN: int := -0x8000_0000
  const INT32_MAX: int := 0x7fff_ffff

  predicate IsInt32(x: int) { INT32_MIN <= x <= INT32_MAX }

  /** Two's complement wrap-around of C#'s unchecked `int` arithmetic. */
  function WrapInt32(x: int): (r: int)
    ensures IsInt32(r)
    ensures (x - r) % 0x1_0000_0000 == 0
    ensures IsInt32(x) ==> r == x
  {
    var m := x % 0x1_0000_0000;
    if m > INT32_MAX then m - 0x1_0000_0000 else m
  }

  /** `(page - 1) * pageSize` as the server computes it, on 32-bit `int`s. */
  function SkipCountAsWritten(page: int, pageSize: int): (n: int)
    requires IsInt32(page) && IsInt32(pageSize)
    ensures IsInt32(n)
  {
    WrapInt32(WrapInt32(page - 1) * pageSize)
  }

  /** The page slice as the server computes it, with the wrapped skip count. */
  function PageAsWritten<T>(s: seq<T>, page: int, pageSize: int): seq<T>
    requires IsInt32(page) && IsInt32(pageSize)
  {
    Take(Skip(s, SkipCountAsWritten(page, pageSize)), pageSize)
  }

  /** While `(page - 1) * pageSize` fits in 32 bits the server's slice is the exact one. */
  lemma PageAsWrittenAgrees<T>(s: seq<T>, page: int, pageSize: int)
    requires IsInt32(page) && IsInt32(pageSize)
    requires IsInt32(page - 1) && IsInt32((page - 1) * pageSize)
    ensures PageAsWritten(s, page, pageSize) == Page(s, page, pageSize)
  {
  }

  /** The largest page number with a page size of 2 wraps the skip count to -4,
      so the server returns the first two rows instead of an empty page. */
  lemma PageAsWrittenOverflows<T>(s: seq<T>)
    requires 2 <= |s| <= 0xffff_fffc
    ensures SkipCountAsWritten(INT32_MAX, 2) == -4
    ensures PageAsWritten(s, INT32_MAX, 2) == s[..2]
    ensures Page(s, INT32_MAX, 2) == []
  {
    assert (INT32_MAX - 1) * 2 == 0xffff_fffc;
    assert WrapInt32(0xffff_fffc) == -4;
  }
}
