/** The two index computations of the tracker's matching step: the arg-min of
    a row of distances and the arg-sort of the rows by their minimum distance. */
module Assignment {

  /** numpy's `argmin`: the index of the first smallest element. */
  function ArgMin(xs: seq<int>): (i: nat)
    requires |xs| > 0
    ensures i < |xs|
    ensures forall j :: 0 <= j < |xs| ==> xs[i] <= xs[j]
    ensures forall j :: 0 <= j < i ==> xs[i] < xs[j]
    decreases |xs|
  {
    if |xs| == 1 then 0
    else
      var n := |xs| - 1;
      var i := ArgMin(xs[..n]);
      if xs[n] < xs[i] then n else i
  }

  /** Row `a` comes before row `b` in the arg-sort: a smaller key, or the same
      key and a lower index. */
  predicate Before(keys: seq<int>, a: nat, b: nat)
    requires a < |keys| && b < |keys|
  {
    keys[a] < keys[b] || (keys[a] == keys[b] && a < b)
  }

  /** Every listed index is a valid position in `keys`. */
  ghost predicate InRange(keys: seq<int>, p: seq<nat>) {
    forall k :: 0 <= k < |p| ==> p[k] < |keys|
  }

  /** The indices are listed in `Before` order. */
  ghost predicate Ordered(keys: seq<int>, p: seq<nat>)
    requires InRange(keys, p)
  {
    forall i, j :: 0 <= i < j < |p| ==> Before(keys, p[i], p[j])
  }

  /** Puts index `x` into the ordered list `p` in front of the first index it
      comes before. */
  function Insert(keys: seq<int>, p: seq<nat>, x: nat): (q: seq<nat>)
    requires InRange(keys, p) && x < |keys|
    ensures |q| == |p| + 1
    ensures multiset(q) == multiset(p) + multiset{x}
    ensures forall k :: 0 <= k < |q| ==> q[k] == x || q[k] in p
    decreases |p|
  {
    if p == [] || Before(keys, x, p[0]) then [x] + p
    else
      assert p == [p[0]] + p[1..];
      [p[0]] + Insert(keys, p[1..], x)
  }

  /** Inserting a new index keeps the list in range and ordered. */
  lemma {:induction false} InsertOrdered(keys: seq<int>, p: seq<nat>, x: nat)
    requires InRange(keys, p) && Ordered(keys, p) && x < |keys| && x !in p
    ensures InRange(keys, Insert(keys, p, x)) && Ordered(keys, Insert(keys, p, x))
    decreases |p|
  {
    if p == [] || Before(keys, x, p[0]) {
      InsertFront(keys, p, x);
    } else {
      assert p == [p[0]] + p[1..];
      InsertOrdered(keys, p[1..], x);
      InsertBehind(keys, p, x);
    }
  }

  /** The case where `x` goes first. */
  lemma InsertFront(keys: seq<int>, p: seq<nat>, x: nat)
    requires InRange(keys, p) && Ordered(keys, p) && x < |keys|
    requires p == [] || Before(keys, x, p[0])
    ensures InRange(keys, [x] + p) && Ordered(keys, [x] + p)
  {
    var q := [x] + p;
    forall i, j | 0 <= i < j < |q| ensures Before(keys, q[i], q[j]) {
      if i == 0 && j > 1 { assert Before(keys, p[0], p[j - 1]); }
    }
  }

  /** The case where `x` goes behind the first index. */
  lemma InsertBehind(keys: seq<int>, p: seq<nat>, x: nat)
    requires InRange(keys, p) && Ordered(keys, p) && x < |keys| && x !in p
    requires p != [] && !Before(keys, x, p[0])
    requires InRange(keys, Insert(keys, p[1..], x)) && Ordered(keys, Insert(keys, p[1..], x))
    ensures InRange(keys, Insert(keys, p, x)) && Ordered(keys, Insert(keys, p, x))
  {
    var rest := Insert(keys, p[1..], x);
    assert Insert(keys, p, x) == [p[0]] + rest;
    assert p[0] in p;
    assert Before(keys, p[0], x);
    forall k | 0 <= k < |rest| ensures Before(keys, p[0], rest[k]) {
      if rest[k] != x {
        HeadBefore(keys, p, rest[k]);
      }
    }
  }

  /** In an ordered list the first index comes before every later one. */
  lemma HeadBefore(keys: seq<int>, p: seq<nat>, y: nat)
    requires InRange(keys, p) && Ordered(keys, p) && |p| > 0 && y in p[1..]
    ensures y < |keys| && Before(keys, p[0], y)
  {
    var m :| 0 <= m < |p[1..]| && p[1..][m] == y;
    assert p[m + 1] == y;
  }

  /** The indices `0 .. n - 1` ordered by `Before`. */
  function ArgSortPrefix(keys: seq<int>, n: nat): (p: seq<nat>)
    requires n <= |keys|
    ensures |p| == n
    ensures forall k :: 0 <= k < |p| ==> p[k] < n
    decreases n
  {
    if n == 0 then []
    else Insert(keys, ArgSortPrefix(keys, n - 1), n - 1)
  }

  /** The prefix arg-sort is ordered. */
  lemma {:induction false} ArgSortPrefixOrdered(keys: seq<int>, n: nat)
    requires n <= |keys|
    ensures InRange(keys, ArgSortPrefix(keys, n)) && Ordered(keys, ArgSortPrefix(keys, n))
    decreases n
  {
    if n > 0 {
      var p := ArgSortPrefix(keys, n - 1);
      ArgSortPrefixOrdered(keys, n - 1);
      assert n - 1 !in p by {
        forall k | 0 <= k < |p| ensures p[k] != n - 1 {
        }
      }
      InsertOrdered(keys, p, n - 1);
    }
  }

  /** The prefix arg-sort lists each of `0 .. n - 1` once. */
  lemma {:induction false} ArgSortPrefixPermutation(keys: seq<int>, n: nat)
    requires n <= |keys|
    ensures multiset(ArgSortPrefix(keys, n)) == multiset(Range(n))
    decreases n
  {
    if n > 0 {
      ArgSortPrefixPermutation(keys, n - 1);
      var last: nat := n - 1;
      assert ArgSortPrefix(keys, n) == Insert(keys, ArgSortPrefix(keys, last), last);
      assert multiset(Range(n)) == multiset(Range(last) + [last]) == multiset(Range(last)) + multiset{last};
    }
  }

  /** `0, 1, ..., n - 1`. */
  function Range(n: nat): (s: seq<nat>)
    ensures |s| == n
    ensures forall k :: 0 <= k < n ==> s[k] == k
  {
    if n == 0 then [] else Range(n - 1) + [n - 1]
  }

  /** numpy's `argsort`, with equal keys kept in index order. */
  function ArgSort(keys: seq<int>): (p: seq<nat>)
    ensures |p| == |keys|
    ensures forall k :: 0 <= k < |p| ==> p[k] < |keys|
  {
    ArgSortPrefix(keys, |keys|)
  }

  /** The arg-sort lists every index exactly once, in ascending key order, equal
      keys by ascending index. */
  lemma ArgSortCorrect(keys: seq<int>)
    ensures var p := ArgSort(keys);
            && |p| == |keys|
            && InRange(keys, p) && Ordered(keys, p)
            && multiset(p) == multiset(Range(|keys|))
  {
    ArgSortPrefixOrdered(keys, |keys|);
    ArgSortPrefixPermutation(keys, |keys|);
  }

  /** Consequently no index is listed twice. */
  lemma ArgSortDistinct(keys: seq<int>, i: nat, j: nat)
    requires i < j < |keys|
    ensures |ArgSort(keys)| == |keys| && ArgSort(keys)[i] != ArgSort(keys)[j]
  {
    ArgSortCorrect(keys);
    var p := ArgSort(keys);
    assert Before(keys, p[i], p[j]);
  }

  /** ...and no index is left out. */
  lemma ArgSortCovers(keys: seq<int>, x: nat)
    requires x < |keys|
    ensures x in ArgSort(keys)
  {
    ArgSortCorrect(keys);
    assert Range(|keys|)[x] == x;
    assert x in multiset(Range(|keys|));
  }
}
