/**
 * The collection queries the repositories are built from: Rust's iterator
 * `skip`/`take`, MongoDB's `limit` (where 0 means no limit) and MongoDB's
 * `sort` on a timestamp field, descending.
 */
module Sequences {

  /** `iter().skip(n)`. */
  function Skip<T>(s: seq<T>, n: nat): (r: seq<T>)
    ensures |r| == if n <= |s| then |s| - n else 0
    ensures forall i :: 0 <= i < |r| ==> r[i] == s[n + i]
  {
    if n <= |s| then s[n..] else []
  }

  /** `iter().take(n)`. */
  function Take<T>(s: seq<T>, n: nat): (r: seq<T>)
    ensures |r| == if n <= |s| then n else |s|
    ensures r == s[..|r|]
  {
    if n <= |s| then s[..n] else s
  }

  /** A MongoDB `limit(n)`: at most `n` documents, except that 0 imposes no limit. */
  function Limit<T>(s: seq<T>, n: nat): (r: seq<T>)
    ensures n == 0 ==> r == s
    ensures n > 0 ==> r == Take(s, n)
  {
    if n == 0 then s else Take(s, n)
  }

  function Min(a: int, b: int): int
  {
    if a <= b then a else b
  }

  /** The `k`-th run (from 1) of `size` consecutive elements: skip `(k - 1) * size`, take `size`. */
  function Window<T>(s: seq<T>, k: nat, size: nat): seq<T>
    requires k >= 1
  {
    Take(Skip(s, (k - 1) * size), size)
  }

  /** Windows 1 to `k` laid end to end. */
  function Windows<T>(s: seq<T>, size: nat, k: nat): seq<T>
  {
    if k == 0 then [] else Windows(s, size, k - 1) + Window(s, k, size)
  }

  /** One more run of `size` elements: `k * size` is `(k - 1) * size + size`. */
  lemma NextOffset(k: nat, size: nat)
    requires k >= 1
    ensures k * size == (k - 1) * size + size
  {
  }

  /** How much of a sequence of length `len` the first `k` windows of `size` cover. */
  function Covered(k: nat, size: nat, len: nat): (n: nat)
    ensures n <= len
  {
    if k == 0 then 0 else Min(Covered(k - 1, size, len) + size, len)
  }

  /** The first `k` windows cover `k * size` elements, or all of them. */
  lemma {:induction false} CoveredIsProduct(k: nat, size: nat, len: nat)
    ensures Covered(k, size, len) == Min(k * size, len)
  {
    if k > 0 {
      CoveredIsProduct(k - 1, size, len);
      NextOffset(k, size);
    }
  }

  /** Window `k` is the slice between what windows `k - 1` and `k` cover. */
  lemma WindowIsSlice<T>(s: seq<T>, k: nat, size: nat)
    requires k >= 1
    ensures Window(s, k, size) == s[Covered(k - 1, size, |s|)..Covered(k, size, |s|)]
  {
    var lo := (k - 1) * size;
    CoveredIsProduct(k - 1, size, |s|);
    if lo <= |s| {
      assert Skip(s, lo) == s[lo..];
    } else {
      assert Skip(s, lo) == [];
    }
  }

  /**
   * Consecutive windows tile the sequence: windows 1 to `k` together are its
   * first `k * size` elements (all of it when that is more), each once and
   * in order.
   */
  lemma {:induction false} WindowsTile<T>(s: seq<T>, size: nat, k: nat)
    ensures Windows(s, size, k) == s[..Covered(k, size, |s|)]
    ensures Covered(k, size, |s|) == Min(k * size, |s|)
  {
    CoveredIsProduct(k, size, |s|);
    if k > 0 {
      WindowsTile(s, size, k - 1);
      WindowIsSlice(s, k, size);
      PrefixThenSlice(s, Covered(k - 1, size, |s|), Covered(k, size, |s|));
    }
  }

  /** A prefix followed by the slice after it is the longer prefix. */
  lemma PrefixThenSlice<T>(s: seq<T>, lo: nat, hi: nat)
    requires lo <= hi <= |s|
    ensures s[..lo] + s[lo..hi] == s[..hi]
  {
  }

  /** Every element is at least as recent as every element after it. */
  predicate NewestFirst<T>(s: seq<T>, key: T -> int)
  {
    forall i, j :: 0 <= i < j < |s| ==> key(s[i]) >= key(s[j])
  }

  /** Every element of `s` has a key of at most `k`. */
  predicate KeysAtMost<T>(s: seq<T>, key: T -> int, k: int)
  {
    forall i :: 0 <= i < |s| ==> key(s[i]) <= k
  }

  lemma KeysAtMostOfMultiset<T>(s: seq<T>, t: seq<T>, key: T -> int, k: int)
    requires multiset(s) == multiset(t) && KeysAtMost(t, key, k)
    ensures KeysAtMost(s, key, k)
  {
    forall i | 0 <= i < |s|
      ensures key(s[i]) <= k
    {
      assert s[i] in multiset(t);
      var j :| 0 <= j < |t| && t[j] == s[i];
    }
  }

  /** Insert `x` into a newest-first sequence, keeping it newest first. */
  function InsertNewestFirst<T>(x: T, s: seq<T>, key: T -> int): (r: seq<T>)
    requires NewestFirst(s, key)
    ensures NewestFirst(r, key)
    ensures multiset(r) == multiset(s) + multiset{x}
  {
    if |s| == 0 then [x]
    else if key(x) >= key(s[0]) then [x] + s
    else
      var rest := InsertNewestFirst(x, s[1..], key);
      BehindHead(x, s, key, rest);
      [s[0]] + rest
  }

  /** Putting the head of `s` in front of `x` inserted into the tail keeps the order and the contents. */
  lemma BehindHead<T>(x: T, s: seq<T>, key: T -> int, rest: seq<T>)
    requires NewestFirst(s, key) && |s| > 0 && key(x) < key(s[0])
    requires NewestFirst(rest, key) && multiset(rest) == multiset(s[1..]) + multiset{x}
    ensures NewestFirst([s[0]] + rest, key)
    ensures multiset([s[0]] + rest) == multiset(s) + multiset{x}
  {
    assert s == [s[0]] + s[1..];
    assert KeysAtMost(s[1..] + [x], key, key(s[0]));
    assert multiset(s[1..] + [x]) == multiset(s[1..]) + multiset{x};
    KeysAtMostOfMultiset(rest, s[1..] + [x], key, key(s[0]));
  }

  /** `sort({field: -1})`: a newest-first rearrangement of `s`. */
  function SortNewestFirst<T>(s: seq<T>, key: T -> int): (r: seq<T>)
    ensures NewestFirst(r, key)
    ensures multiset(r) == multiset(s)
    ensures |r| == |s|
  {
    if |s| == 0 then []
    else
      assert s == [s[0]] + s[1..];
      InsertNewestFirst(s[0], SortNewestFirst(s[1..], key), key)
  }

  /**
   * `sort({field: -1}).skip(skip).limit(n)`: newest first, drawn from `s`, at
   * most `n` elements unless `n` is 0, and all of `s` when nothing is skipped
   * and nothing is cut off.
   */
  function NewestPage<T>(s: seq<T>, key: T -> int, skip: nat, n: nat): (r: seq<T>)
    ensures NewestFirst(r, key)
    ensures forall i :: 0 <= i < |r| ==> r[i] in multiset(s)
    ensures n > 0 ==> |r| <= n
    ensures skip == 0 && (n == 0 || |s| <= n) ==> multiset(r) == multiset(s)
    ensures skip == 0 && n > 0 && |r| < n ==> multiset(r) == multiset(s)
    ensures skip == 0 ==> r == SortNewestFirst(s, key)[..|r|]
    ensures skip == 0 && n > 0 ==> |r| == Min(n, |s|)
  {
    var sorted := SortNewestFirst(s, key);
    SkipLimitOrder(sorted, key, skip, n);
    SkipLimitMembers(sorted, s, skip, n);
    SkipLimitFromStart(sorted, n);
    Limit(Skip(sorted, skip), n)
  }

  /** Dropping `skip` elements and applying `limit(n)` leaves one contiguous slice. */
  lemma SkipLimitIsSlice<T>(t: seq<T>, skip: nat, n: nat)
    ensures var lo := Min(skip, |t|);
      Limit(Skip(t, skip), n) == t[lo..if n == 0 then |t| else Min(lo + n, |t|)]
  {
    var lo := Min(skip, |t|);
    assert Skip(t, skip) == t[lo..];
  }

  /** A page with a positive limit is the run of at most `n` elements after the first `skip`. */
  lemma LimitedPageIsSlice<T>(t: seq<T>, page: seq<T>, skip: nat, n: nat)
    requires n > 0 && page == Limit(Skip(t, skip), n)
    ensures var lo := Min(skip, |t|); page == t[lo..Min(lo + n, |t|)]
  {
    SkipLimitIsSlice(t, skip, n);
  }

  /** A page of a newest-first sequence is newest first, and no longer than `n` unless `n` is 0. */
  lemma SkipLimitOrder<T>(t: seq<T>, key: T -> int, skip: nat, n: nat)
    requires NewestFirst(t, key)
    ensures NewestFirst(Limit(Skip(t, skip), n), key)
    ensures n > 0 ==> |Limit(Skip(t, skip), n)| <= n
  {
    var lo := Min(skip, |t|);
    SkipLimitIsSlice(t, skip, n);
    NewestFirstSlice(t, key, lo, if n == 0 then |t| else Min(lo + n, |t|));
  }

  /** Every element of a page of `t` is an element of any rearrangement of `t`. */
  lemma SkipLimitMembers<T>(t: seq<T>, s: seq<T>, skip: nat, n: nat)
    requires multiset(t) == multiset(s)
    ensures forall i :: 0 <= i < |Limit(Skip(t, skip), n)| ==> Limit(Skip(t, skip), n)[i] in multiset(s)
  {
    var r := Limit(Skip(t, skip), n);
    forall i | 0 <= i < |r|
      ensures r[i] in multiset(s)
    {
      assert r[i] == t[Min(skip, |t|) + i];
    }
  }

  /** With nothing skipped, a page is a prefix: all of `t` when the limit does not cut it. */
  lemma SkipLimitFromStart<T>(t: seq<T>, n: nat)
    ensures Limit(Skip(t, 0), n) == t[..|Limit(Skip(t, 0), n)|]
    ensures n > 0 ==> |Limit(Skip(t, 0), n)| == Min(n, |t|)
    ensures n == 0 || |t| <= n || |Limit(Skip(t, 0), n)| < n ==> Limit(Skip(t, 0), n) == t
  {
    assert Skip(t, 0) == t;
  }

  /** Every element of a newest-first sequence is at least as recent as its last element. */
  lemma NewestFirstLastIsOldest<T>(s: seq<T>, key: T -> int, i: nat)
    requires NewestFirst(s, key) && i < |s|
    ensures key(s[i]) >= key(s[|s| - 1])
  {
  }

  /**
   * An element of a newest-first sequence is either among its first `n`
   * elements or no more recent than the `n`-th.
   */
  lemma NewestFirstBeyondPrefix<T>(s: seq<T>, key: T -> int, n: nat, x: T)
    requires NewestFirst(s, key) && 0 < n <= |s| && x in s
    ensures x in s[..n] || key(x) <= key(s[n - 1])
  {
    var j :| 0 <= j < |s| && s[j] == x;
    if j < n {
      assert s[..n][j] == x;
    }
  }

  /** A contiguous piece of a newest-first sequence is newest first. */
  lemma NewestFirstSlice<T>(s: seq<T>, key: T -> int, lo: nat, hi: nat)
    requires NewestFirst(s, key) && lo <= hi <= |s|
    ensures NewestFirst(s[lo..hi], key)
  {
  }

  /** No two elements share a key. */
  predicate DistinctKeys<T>(s: seq<T>, key: T -> int)
  {
    forall i, j :: 0 <= i < j < |s| ==> key(s[i]) != key(s[j])
  }

  /** An element found at two positions is counted at least twice. */
  lemma TwiceCounted<T>(s: seq<T>, i: nat, j: nat)
    requires i < j < |s|
    ensures s[i] == s[j] ==> multiset(s)[s[i]] >= 2
  {
    assert s == s[..j] + [s[j]] + s[j + 1..];
    assert s[..j][i] == s[i];
  }

  /** With distinct keys, every element is counted at most once. */
  lemma {:induction false} CountedOnce<T>(s: seq<T>, key: T -> int, x: T)
    requires DistinctKeys(s, key)
    ensures multiset(s)[x] <= 1
  {
    if |s| > 0 {
      assert s == [s[0]] + s[1..];
      assert DistinctKeys(s[1..], key) by {
        assert forall i :: 0 <= i < |s| - 1 ==> s[1..][i] == s[i + 1];
      }
      CountedOnce(s[1..], key, x);
      if s[0] == x {
        assert forall k :: 0 <= k < |s| - 1 ==> s[1..][k] != x by {
          assert forall k :: 0 <= k < |s| - 1 ==> key(s[1..][k]) != key(s[0]);
        }
        assert x !in multiset(s[1..]);
      }
    }
  }

  /** A rearrangement of a sequence with distinct keys has distinct keys. */
  lemma DistinctKeysOfPermutation<T>(s: seq<T>, t: seq<T>, key: T -> int)
    requires multiset(s) == multiset(t) && DistinctKeys(t, key)
    ensures DistinctKeys(s, key)
  {
    forall i, j | 0 <= i < j < |s|
      ensures key(s[i]) != key(s[j])
    {
      TwiceCounted(s, i, j);
      CountedOnce(t, key, s[i]);
      assert s[i] != s[j];
      assert s[i] in multiset(t) && s[j] in multiset(t);
      var p :| 0 <= p < |t| && t[p] == s[i];
      var q :| 0 <= q < |t| && t[q] == s[j];
      assert p != q;
    }
  }

  /** Two newest-first rearrangements of elements with distinct keys start alike. */
  lemma SameNewest<T>(a: seq<T>, b: seq<T>, key: T -> int)
    requires NewestFirst(a, key) && NewestFirst(b, key) && DistinctKeys(b, key)
    requires multiset(a) == multiset(b) && |a| > 0
    ensures |b| > 0 && a[0] == b[0]
  {
    assert a[0] in multiset(b);
    var j :| 0 <= j < |b| && b[j] == a[0];
    assert b[0] in multiset(a);
    var k :| 0 <= k < |a| && a[k] == b[0];
    assert key(b[0]) >= key(b[j]) == key(a[0]) >= key(a[k]) == key(b[0]);
    assert j == 0;
  }

  /** Dropping equal first elements from two rearrangements of each other leaves rearrangements. */
  lemma SameTails<T>(a: seq<T>, b: seq<T>)
    requires multiset(a) == multiset(b) && |a| > 0 && |b| > 0 && a[0] == b[0]
    ensures multiset(a[1..]) == multiset(b[1..])
  {
    assert a == [a[0]] + a[1..] && b == [b[0]] + b[1..];
    assert multiset(a[1..]) == multiset(a) - multiset{a[0]};
    assert multiset(b[1..]) == multiset(b) - multiset{b[0]};
  }

  /** The tail of a newest-first sequence with distinct keys is one too. */
  lemma TailKeepsOrder<T>(a: seq<T>, key: T -> int)
    requires NewestFirst(a, key) && DistinctKeys(a, key) && |a| > 0
    ensures NewestFirst(a[1..], key) && DistinctKeys(a[1..], key)
  {
    assert forall i :: 0 <= i < |a| - 1 ==> a[1..][i] == a[i + 1];
  }

  /**
   * Among elements with distinct keys the newest-first order is unique: two
   * newest-first rearrangements of the same elements are equal.
   */
  lemma {:induction false} NewestFirstUnique<T>(a: seq<T>, b: seq<T>, key: T -> int)
    requires NewestFirst(a, key) && NewestFirst(b, key) && DistinctKeys(a, key)
    requires multiset(a) == multiset(b)
    ensures a == b
  {
    assert |a| == |multiset(a)| == |multiset(b)| == |b|;
    if |a| > 0 {
      DistinctKeysOfPermutation(b, a, key);
      SameNewest(a, b, key);
      SameTails(a, b);
      TailKeepsOrder(a, key);
      TailKeepsOrder(b, key);
      NewestFirstUnique(a[1..], b[1..], key);
      assert a == [a[0]] + a[1..] && b == [b[0]] + b[1..];
    }
  }
}
