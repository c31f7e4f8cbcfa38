/** Ordered lists whose elements carry a string key.

    The three collections of the session controller are all handled with the
    same two list idioms: `list.filter(x => keyOf(x) !== k)` to drop every
    element with a given key, and `[item, ...list.filter(...)].slice(0, cap)`
    to move an item to the front of a bounded most-recent-first list.
    This module states those two idioms once, generically in the key
    function, together with what they guarantee. */
module KeyedList {

  function Min(a: int, b: int): (r: int) { if a <= b then a else b }

  /** Some element of `s` has key `k` (App.js's `list.some(...)`). */
  predicate HasKey<T>(s: seq<T>, key: T -> string, k: string) {
    exists i :: 0 <= i < |s| && key(s[i]) == k
  }

  /** No two elements of `s` share a key. */
  predicate UniqueKeys<T>(s: seq<T>, key: T -> string) {
    forall i, j :: 0 <= i < j < |s| ==> key(s[i]) != key(s[j])
  }

  /** `a` can be obtained from `b` by deleting elements, keeping the order of
      the rest. */
  ghost predicate IsSubsequence<T>(a: seq<T>, b: seq<T>)
    decreases |b|
  {
    if a == [] then true
    else if b == [] then false
    else if a[0] == b[0] then IsSubsequence(a[1..], b[1..])
    else IsSubsequence(a, b[1..])
  }

  /** The elements of `s` whose key differs from `k`, in their original order. */
  function Without<T(==,!new)>(s: seq<T>, key: T -> string, k: string): (r: seq<T>)
    ensures |r| <= |s|
    ensures forall i :: 0 <= i < |r| ==> key(r[i]) != k
    ensures !HasKey(s, key, k) ==> r == s
    ensures HasKey(s, key, k) ==> |r| < |s|
  {
    if s == [] then []
    else
      assert s == [s[0]] + s[1..];
      assert HasKey(s[1..], key, k) ==> HasKey(s, key, k) by {
        if HasKey(s[1..], key, k) {
          var i :| 0 <= i < |s[1..]| && key(s[1..][i]) == k;
          assert key(s[i + 1]) == k;
        }
      }
      assert HasKey(s, key, k) && key(s[0]) != k ==> HasKey(s[1..], key, k) by {
        if HasKey(s, key, k) && key(s[0]) != k {
          var i :| 0 <= i < |s| && key(s[i]) == k;
          assert i > 0 && key(s[1..][i - 1]) == k;
        }
      }
      if key(s[0]) == k then Without(s[1..], key, k)
      else [s[0]] + Without(s[1..], key, k)
  }

  /** Filtering keeps every element whose key differs from `k` exactly as
      often as it occurs in `s`, and no element with key `k`. */
  lemma {:induction false} WithoutCounts<T(!new)>(s: seq<T>, key: T -> string, k: string, x: T)
    ensures multiset(Without(s, key, k))[x] == if key(x) == k then 0 else multiset(s)[x]
  {
    if s != [] {
      WithoutCounts(s[1..], key, k, x);
      assert s == [s[0]] + s[1..];
    }
  }

  /** An element survives filtering exactly when it occurs in `s` and its key
      differs from `k`. */
  lemma WithoutMembership<T(!new)>(s: seq<T>, key: T -> string, k: string, x: T)
    ensures x in Without(s, key, k) <==> x in s && key(x) != k
  {
    WithoutCounts(s, key, k, x);
    assert x in Without(s, key, k) <==> multiset(Without(s, key, k))[x] > 0;
    assert x in s <==> multiset(s)[x] > 0;
  }

  /** Put `x` at the front, drop every other element with the same key, keep
      at most `cap` elements. */
  function PushFront<T(==,!new)>(s: seq<T>, x: T, key: T -> string, cap: nat): (r: seq<T>)
    requires cap > 0
    ensures 1 <= |r| <= cap
    ensures r[0] == x
    ensures forall i :: 1 <= i < |r| ==> key(r[i]) != key(x)
    ensures r[1..] <= Without(s, key, key(x))
    ensures |r| == Min(cap, |Without(s, key, key(x))| + 1)
  {
    var rest := Without(s, key, key(x));
    var n := Min(cap, |rest| + 1);
    var r := ([x] + rest)[..n];
    assert r[1..] == rest[..n - 1];
    r
  }

  /** When none of the first `m` elements has key `k`, filtering leaves them in
      place as the first `m` elements of the result. */
  lemma {:induction false} WithoutKeepsCleanPrefix<T(!new)>(s: seq<T>, key: T -> string, k: string, m: nat)
    requires m <= |s|
    requires forall i :: 0 <= i < m ==> key(s[i]) != k
    ensures |Without(s, key, k)| >= m
    ensures Without(s, key, k)[..m] == s[..m]
  {
    if m > 0 {
      WithoutKeepsCleanPrefix(s[1..], key, k, m - 1);
      var w := Without(s[1..], key, k);
      assert Without(s, key, k) == [s[0]] + w;
      assert ([s[0]] + w)[..m] == [s[0]] + w[..m - 1];
      assert s[..m] == [s[0]] + s[1..][..m - 1];
    }
  }

  /** A prefix of a subsequence is a subsequence. */
  lemma {:induction false} SubsequencePrefix<T>(a: seq<T>, b: seq<T>, n: nat)
    requires IsSubsequence(a, b)
    requires n <= |a|
    ensures IsSubsequence(a[..n], b)
    decreases |b|
  {
    if n == 0 || a == [] {
    } else if b == [] {
    } else if a[0] == b[0] {
      SubsequencePrefix(a[1..], b[1..], n - 1);
      assert a[..n][1..] == a[1..][..n - 1];
    } else {
      SubsequencePrefix(a, b[1..], n);
    }
  }

  /** Dropping the elements with one key keeps the relative order of the rest. */
  lemma {:induction false} WithoutIsSubsequence<T(!new)>(s: seq<T>, key: T -> string, k: string)
    ensures IsSubsequence(Without(s, key, k), s)
  {
    if s != [] {
      WithoutIsSubsequence(s[1..], key, k);
      if key(s[0]) != k {
        assert ([s[0]] + Without(s[1..], key, k))[1..] == Without(s[1..], key, k);
      } else {
        SkipHeadKeepsSubsequence(Without(s[1..], key, k), s);
      }
    }
  }

  /** A subsequence of the tail is a subsequence of the whole. */
  lemma {:induction false} SkipHeadKeepsSubsequence<T>(a: seq<T>, b: seq<T>)
    requires b != []
    requires IsSubsequence(a, b[1..])
    ensures IsSubsequence(a, b)
    decreases |b|, |a|
  {
    if a != [] && a[0] == b[0] {
      SubsequenceTail(a, b[1..]);
    }
  }

  /** Dropping the head of a subsequence keeps it a subsequence. */
  lemma {:induction false} SubsequenceTail<T>(a: seq<T>, b: seq<T>)
    requires a != []
    requires IsSubsequence(a, b)
    ensures IsSubsequence(a[1..], b)
    decreases |b|, |a|
  {
    if a[0] != b[0] {
      SubsequenceTail(a, b[1..]);
    }
    if a[1..] != [] {
      SkipHeadKeepsSubsequence(a[1..], b);
    }
  }

  /** The elements that survive a push keep their relative order. */
  lemma PushFrontKeepsOrder<T(!new)>(s: seq<T>, x: T, key: T -> string, cap: nat)
    requires cap > 0
    ensures IsSubsequence(PushFront(s, x, key, cap)[1..], s)
  {
    var rest := Without(s, key, key(x));
    var r := PushFront(s, x, key, cap);
    WithoutIsSubsequence(s, key, key(x));
    SubsequencePrefix(rest, s, |r| - 1);
    assert r[1..] == rest[..|r| - 1];
  }

  /** Filtering by key keeps keys unique. */
  lemma {:induction false} WithoutKeepsUnique<T(!new)>(s: seq<T>, key: T -> string, k: string)
    requires UniqueKeys(s, key)
    ensures UniqueKeys(Without(s, key, k), key)
  {
    if s != [] {
      WithoutKeepsUnique(s[1..], key, k);
      if key(s[0]) != k {
        var w := Without(s[1..], key, k);
        forall i | 0 <= i < |w| ensures key(w[i]) != key(s[0]) {
          WithoutMembership(s[1..], key, k, w[i]);
          var j :| 0 <= j < |s[1..]| && s[1..][j] == w[i];
          assert s[j + 1] == w[i];
        }
      }
    }
  }

  /** A push onto a list with unique keys leaves the keys unique. */
  lemma PushFrontKeepsUnique<T(!new)>(s: seq<T>, x: T, key: T -> string, cap: nat)
    requires cap > 0
    requires UniqueKeys(s, key)
    ensures UniqueKeys(PushFront(s, x, key, cap), key)
  {
    var rest := Without(s, key, key(x));
    WithoutKeepsUnique(s, key, key(x));
    var r := PushFront(s, x, key, cap);
    forall i, j | 0 <= i < j < |r| ensures key(r[i]) != key(r[j]) {
      if i > 0 {
        assert r[i] == rest[i - 1] && r[j] == rest[j - 1];
      }
    }
  }

  /** Pushing two items with the same key in a row is the same as pushing only
      the second one: a single entry for that key, the later one, at the front. */
  lemma PushFrontSameKeyTwice<T(!new)>(s: seq<T>, x: T, y: T, key: T -> string, cap: nat)
    requires cap > 0
    requires key(x) == key(y)
    ensures PushFront(PushFront(s, x, key, cap), y, key, cap) == PushFront(s, y, key, cap)
  {
    var rest := Without(s, key, key(x));
    var once := PushFront(s, x, key, cap);
    var tail := once[1..];
    assert tail == rest[..|once| - 1];
    assert !HasKey(tail, key, key(x)) by {
      forall i | 0 <= i < |tail| ensures key(tail[i]) != key(x) {
        assert tail[i] == once[i + 1];
      }
    }
    assert once == [x] + tail;
    assert Without(once, key, key(y)) == tail by {
      assert key(once[0]) == key(y);
      assert once[1..] == tail;
    }
  }
}
