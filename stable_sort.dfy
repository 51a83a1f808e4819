/** The stable descending sort both server-side selections use: Python's
    `list.sort(key=..., reverse=True)` keeps records with equal keys in their original order.
    The model sorts by insertion over sequences; a stable sort's output is determined by its
    input, so the result is the one the in-place sort produces. */
module StableSort {

  /** Keys never increase from left to right. */
  predicate NonIncreasing<T>(s: seq<T>, key: T -> real)
  {
    forall i, j :: 0 <= i < j < |s| ==> key(s[i]) >= key(s[j])
  }

  /** The elements of s whose key is v, in their order in s. */
  function WithKey<T>(s: seq<T>, key: T -> real, v: real): seq<T>
  {
    if s == [] then []
    else (if key(s[0]) == v then [s[0]] else []) + WithKey(s[1..], key, v)
  }

  /** Puts x in front of the first element whose key does not exceed x's. */
  function Insert<T>(x: T, s: seq<T>, key: T -> real): (r: seq<T>)
    ensures multiset(r) == multiset(s) + multiset{x}
    ensures s == [] ==> r == [x]
    ensures s != [] ==> r[0] == x || r[0] == s[0]
    ensures NonIncreasing(s, key) ==> NonIncreasing(r, key)
    decreases |s|
  {
    if s == [] || key(s[0]) <= key(x) then [x] + s
    else
      var rest := Insert(x, s[1..], key);
      assert s == [s[0]] + s[1..];
      [s[0]] + rest
  }

  /** Stable sort by non-increasing key. */
  function SortDescending<T>(xs: seq<T>, key: T -> real): (r: seq<T>)
    ensures multiset(r) == multiset(xs)
    ensures |r| == |xs|
    ensures NonIncreasing(r, key)
    decreases |xs|
  {
    if xs == [] then []
    else
      assert xs == [xs[0]] + xs[1..];
      Insert(xs[0], SortDescending(xs[1..], key), key)
  }

  lemma {:induction false} InsertStable<T>(x: T, s: seq<T>, key: T -> real, v: real)
    requires NonIncreasing(s, key)
    ensures WithKey(Insert(x, s, key), key, v) == (if key(x) == v then [x] else []) + WithKey(s, key, v)
    decreases |s|
  {
    if s == [] || key(s[0]) <= key(x) {
      assert Insert(x, s, key) == [x] + s;
      assert ([x] + s)[1..] == s;
    } else {
      var rest := Insert(x, s[1..], key);
      var r := Insert(x, s, key);
      assert r == [s[0]] + rest;
      assert r[1..] == rest;
      assert NonIncreasing(s[1..], key) by {
        forall i, j | 0 <= i < j < |s[1..]| ensures key(s[1..][i]) >= key(s[1..][j]) {
          assert s[1..][i] == s[i + 1] && s[1..][j] == s[j + 1];
        }
      }
      InsertStable(x, s[1..], key, v);
      assert WithKey(r, key, v) == (if key(s[0]) == v then [s[0]] else []) + WithKey(rest, key, v);
      assert WithKey(s, key, v) == (if key(s[0]) == v then [s[0]] else []) + WithKey(s[1..], key, v);
      if key(x) == v {
        assert key(s[0]) != v;
      }
    }
  }

  /** Stability: for every key value, the elements carrying it keep their relative order. */
  lemma {:induction false} SortStable<T>(xs: seq<T>, key: T -> real, v: real)
    ensures WithKey(SortDescending(xs, key), key, v) == WithKey(xs, key, v)
    decreases |xs|
  {
    if xs != [] {
      SortStable(xs[1..], key, v);
      InsertStable(xs[0], SortDescending(xs[1..], key), key, v);
    }
  }

  /** Index of the first element of xs with the largest key. */
  function FirstMaxIndex<T>(xs: seq<T>, key: T -> real): (i: nat)
    requires xs != []
    ensures i < |xs|
    ensures forall j :: 0 <= j < |xs| ==> key(xs[j]) <= key(xs[i])
    ensures forall j :: 0 <= j < i ==> key(xs[j]) < key(xs[i])
    decreases |xs|
  {
    if |xs| == 1 then 0
    else
      var k := FirstMaxIndex(xs[1..], key);
      if key(xs[0]) >= key(xs[1 + k]) then 0 else k + 1
  }

  /** The head of the stable descending sort is the first element with the largest key. */
  lemma {:induction false} SortHeadIsFirstMax<T>(xs: seq<T>, key: T -> real)
    requires xs != []
    ensures SortDescending(xs, key)[0] == xs[FirstMaxIndex(xs, key)]
    decreases |xs|
  {
    var rest := xs[1..];
    if rest != [] {
      SortHeadIsFirstMax(rest, key);
      var s := SortDescending(rest, key);
      assert s[0] == rest[FirstMaxIndex(rest, key)];
    }
  }

  /** The first min(k, |s|) elements: Python's s[:k]. */
  function Take<T>(s: seq<T>, k: nat): (r: seq<T>)
    ensures |r| <= k && |r| <= |s|
    ensures |s| <= k ==> r == s
    ensures |s| > k ==> |r| == k
  {
    if |s| <= k then s else s[..k]
  }

  /** Truncating a sorted sequence keeps its largest keys: nothing dropped outscores
      anything kept. */
  lemma TakeKeepsLargest<T>(s: seq<T>, key: T -> real, k: nat)
    requires NonIncreasing(s, key)
    ensures NonIncreasing(Take(s, k), key)
    ensures forall i, j :: 0 <= i < |Take(s, k)| <= j < |s| ==> key(s[j]) <= key(Take(s, k)[i])
  {
  }
}
