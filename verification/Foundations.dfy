/** Datatypes and sequence facts shared by the component models. */
module Foundations {

  datatype Option<+T> = None | Some(value: T) {
    function GetOr(default: T): T {
      match this
      case Some(v) => v
      case None => default
    }
  }

  datatype Result<+T, +E> = Ok(value: T) | Err(error: E)

  const U64_MAX: int := 0xFFFF_FFFF_FFFF_FFFF
  const I128_MAX: int := 0x7FFF_FFFF_FFFF_FFFF_FFFF_FFFF_FFFF_FFFF

  function Min(a: int, b: int): int {
    if a <= b then a else b
  }

  function Max(a: int, b: int): int {
    if a >= b then a else b
  }

  /** Rust's `u64::saturating_sub`. */
  function SaturatingSub(a: nat, b: nat): nat {
    if a >= b then a - b else 0
  }

  /** The difference, or nothing: whatever reaches it, reaches `a` when `b` is added. */
  lemma SaturatingSubMeans(a: nat, b: nat, c: nat)
    ensures SaturatingSub(a, b) <= c <==> a <= c + b
  {
  }

  /** The newest `n` elements, in order. */
  function LastN<T>(xs: seq<T>, n: nat): seq<T> {
    if |xs| <= n then xs else xs[|xs| - n..]
  }

  /** Appending and then dropping the oldest element when over the cap keeps exactly the newest `n`. */
  lemma LastNAppend<T>(xs: seq<T>, x: T, n: nat)
    ensures LastN(xs + [x], n) ==
            if |LastN(xs, n)| + 1 > n then (LastN(xs, n) + [x])[1..] else LastN(xs, n) + [x]
  {
  }

  /** Nothing is lost by forgetting all but the newest `n` before appending. */
  lemma LastNIdempotent<T>(xs: seq<T>, x: T, n: nat)
    ensures LastN(LastN(xs, n) + [x], n) == LastN(xs + [x], n)
  {
  }

  predicate StartsWith(s: string, prefix: string) {
    |prefix| <= |s| && s[..|prefix|] == prefix
  }

  lemma Regrouped(s: string, t: string, u: string, rest: string)
    ensures (s + t) + (u + rest) == s + ((t + u) + rest)
  {
  }

  function Filter<T>(xs: seq<T>, p: T -> bool): seq<T> {
    if xs == [] then []
    else if p(xs[0]) then [xs[0]] + Filter(xs[1..], p)
    else Filter(xs[1..], p)
  }

  lemma {:induction false} FilterAppend<T>(xs: seq<T>, ys: seq<T>, p: T -> bool)
    ensures Filter(xs + ys, p) == Filter(xs, p) + Filter(ys, p)
  {
    if xs == [] {
      assert xs + ys == ys;
    } else {
      assert (xs + ys)[1..] == xs[1..] + ys;
      FilterAppend(xs[1..], ys, p);
    }
  }

  lemma {:induction false} FilterMembers<T>(xs: seq<T>, p: T -> bool)
    ensures forall x :: x in Filter(xs, p) <==> x in xs && p(x)
  {
    if xs != [] {
      assert xs == [xs[0]] + xs[1..];
      FilterMembers(xs[1..], p);
    }
  }

  ghost predicate NoDuplicates<T>(xs: seq<T>) {
    forall i, j :: 0 <= i < j < |xs| ==> xs[i] != xs[j]
  }

  function Elements<T(==)>(xs: seq<T>): set<T> {
    set x | x in xs
  }

  lemma {:induction false} DistinctLength<T>(xs: seq<T>)
    requires NoDuplicates(xs)
    ensures |Elements(xs)| == |xs|
  {
    if xs != [] {
      var n := |xs| - 1;
      DistinctLength(xs[..n]);
      assert xs == xs[..n] + [xs[n]];
      assert Elements(xs) == Elements(xs[..n]) + {xs[n]};
      assert xs[n] !in xs[..n];
    }
  }

  lemma SubsetSize<T>(a: set<T>, b: set<T>)
    requires a <= b
    ensures |a| <= |b|
    ensures |b - a| == |b| - |a|
  {
    assert b == a + (b - a);
  }
}

/** Rust's stable `sort_by_key`, its characterisation, and the ascending order in which storage maps are walked. */
module StableSort {
  import opened Foundations

  ghost predicate SortedBy<T>(xs: seq<T>, key: T -> int) {
    forall i, j :: 0 <= i < j < |xs| ==> key(xs[i]) <= key(xs[j])
  }

  /** The elements whose key is `k`, in order. */
  ghost function WithKey<T>(xs: seq<T>, key: T -> int, k: int): seq<T> {
    if xs == [] then []
    else (if key(xs[0]) == k then [xs[0]] else []) + WithKey(xs[1..], key, k)
  }

  /** `ys` is a stable sort of `xs`: sorted, and elements with equal keys are the same ones in the same order. */
  ghost predicate IsStableSort<T>(ys: seq<T>, xs: seq<T>, key: T -> int) {
    SortedBy(ys, key) && forall k :: WithKey(ys, key, k) == WithKey(xs, key, k)
  }

  function Insert<T>(x: T, xs: seq<T>, key: T -> int): seq<T> {
    if xs == [] || key(x) <= key(xs[0]) then [x] + xs
    else [xs[0]] + Insert(x, xs[1..], key)
  }

  function SortBy<T>(xs: seq<T>, key: T -> int): seq<T> {
    if xs == [] then [] else Insert(xs[0], SortBy(xs[1..], key), key)
  }

  lemma {:induction false} InsertPermutes<T>(x: T, xs: seq<T>, key: T -> int)
    ensures multiset(Insert(x, xs, key)) == multiset(xs) + multiset{x}
  {
    if xs == [] || key(x) <= key(xs[0]) {
      assert multiset([x] + xs) == multiset(xs) + multiset{x};
    } else {
      InsertPermutes(x, xs[1..], key);
      assert xs == [xs[0]] + xs[1..];
    }
  }

  lemma {:induction false} InsertKeepsSorted<T>(x: T, xs: seq<T>, key: T -> int)
    requires SortedBy(xs, key)
    ensures SortedBy(Insert(x, xs, key), key)
  {
    if xs != [] && key(x) > key(xs[0]) {
      var rest := Insert(x, xs[1..], key);
      InsertKeepsSorted(x, xs[1..], key);
      InsertPermutes(x, xs[1..], key);
      forall j | 0 <= j < |rest|
        ensures key(xs[0]) <= key(rest[j])
      {
        assert rest[j] in multiset(rest);
        assert rest[j] == x || rest[j] in xs[1..];
      }
    }
  }

  lemma WithKeyCons<T>(x: T, xs: seq<T>, key: T -> int, k: int)
    ensures WithKey([x] + xs, key, k) == (if key(x) == k then [x] else []) + WithKey(xs, key, k)
  {
    assert ([x] + xs)[1..] == xs;
  }

  lemma {:induction false} InsertKeepsKeys<T>(x: T, xs: seq<T>, key: T -> int, k: int)
    ensures WithKey(Insert(x, xs, key), key, k) == WithKey([x] + xs, key, k)
  {
    if xs != [] && key(x) > key(xs[0]) {
      var tail := xs[1..];
      InsertKeepsKeys(x, tail, key, k);
      WithKeyCons(xs[0], Insert(x, tail, key), key, k);
      WithKeyCons(x, tail, key, k);
      WithKeyCons(x, xs, key, k);
    }
  }

  lemma {:induction false} SortByKeepsKeys<T>(xs: seq<T>, key: T -> int, k: int)
    ensures WithKey(SortBy(xs, key), key, k) == WithKey(xs, key, k)
  {
    if xs != [] {
      SortByKeepsKeys(xs[1..], key, k);
      InsertKeepsKeys(xs[0], SortBy(xs[1..], key), key, k);
      WithKeyCons(xs[0], SortBy(xs[1..], key), key, k);
    }
  }

  lemma {:induction false} SortByIsSorted<T>(xs: seq<T>, key: T -> int)
    ensures SortedBy(SortBy(xs, key), key)
    ensures multiset(SortBy(xs, key)) == multiset(xs)
  {
    if xs != [] {
      SortByIsSorted(xs[1..], key);
      InsertKeepsSorted(xs[0], SortBy(xs[1..], key), key);
      InsertPermutes(xs[0], SortBy(xs[1..], key), key);
      assert xs == [xs[0]] + xs[1..];
    }
  }

  /** The sort is a stable sort of its input and a permutation of it. */
  lemma SortByIsStable<T>(xs: seq<T>, key: T -> int)
    ensures IsStableSort(SortBy(xs, key), xs, key)
    ensures multiset(SortBy(xs, key)) == multiset(xs)
    ensures |SortBy(xs, key)| == |xs|
  {
    SortByIsSorted(xs, key);
    forall k {
      SortByKeepsKeys(xs, key, k);
    }
    assert |multiset(SortBy(xs, key))| == |multiset(xs)|;
  }

  lemma {:induction false} WithKeyNonEmpty<T>(xs: seq<T>, key: T -> int, k: int)
    ensures WithKey(xs, key, k) != [] <==> exists i :: 0 <= i < |xs| && key(xs[i]) == k
  {
    if xs != [] {
      WithKeyNonEmpty(xs[1..], key, k);
      if key(xs[0]) == k {
      } else if i :| 0 <= i < |xs| && key(xs[i]) == k {
        assert xs[1..][i - 1] == xs[i];
      }
    }
  }

  /** There is only one stable sort: the characterisation leaves no freedom. */
  lemma {:induction false} StableSortIsUnique<T>(ys: seq<T>, zs: seq<T>, key: T -> int)
    requires SortedBy(ys, key) && SortedBy(zs, key)
    requires forall k :: WithKey(ys, key, k) == WithKey(zs, key, k)
    ensures ys == zs
  {
    if ys == [] {
      if z :| z in zs {
        WithKeyNonEmpty(zs, key, key(z));
        assert false;
      }
    } else {
      var k := key(ys[0]);
      WithKeyNonEmpty(zs, key, k);
      assert WithKey(ys, key, k)[0] == ys[0];
      assert zs != [];
      WithKeyNonEmpty(ys, key, key(zs[0]));
      assert WithKey(zs, key, key(zs[0]))[0] == zs[0];
      assert key(zs[0]) == k;
      assert ys[0] == zs[0];
      forall j
        ensures WithKey(ys[1..], key, j) == WithKey(zs[1..], key, j)
      {
        var head := if key(ys[0]) == j then [ys[0]] else [];
        assert WithKey(ys, key, j) == head + WithKey(ys[1..], key, j);
        assert WithKey(zs, key, j) == head + WithKey(zs[1..], key, j);
        assert WithKey(ys, key, j)[|head|..] == WithKey(ys[1..], key, j);
        assert WithKey(zs, key, j)[|head|..] == WithKey(zs[1..], key, j);
      }
      StableSortIsUnique(ys[1..], zs[1..], key);
      assert ys == [ys[0]] + ys[1..];
      assert zs == [zs[0]] + zs[1..];
    }
  }

  /** Sorting a sequence that is already sorted changes nothing, ties included. */
  lemma SortBySorted<T>(xs: seq<T>, key: T -> int)
    requires SortedBy(xs, key)
    ensures SortBy(xs, key) == xs
  {
    SortByIsStable(xs, key);
    StableSortIsUnique(SortBy(xs, key), xs, key);
  }

  lemma {:induction false} WithKeyOfFilter<T>(xs: seq<T>, p: T -> bool, key: T -> int, k: int)
    ensures WithKey(Filter(xs, p), key, k) == Filter(WithKey(xs, key, k), p)
  {
    if xs != [] {
      WithKeyOfFilter(xs[1..], p, key, k);
      var head := if key(xs[0]) == k then [xs[0]] else [];
      FilterAppend(head, WithKey(xs[1..], key, k), p);
      if p(xs[0]) {
        WithKeyCons(xs[0], Filter(xs[1..], p), key, k);
      }
    }
  }

  lemma {:induction false} FilterKeepsBound<T>(xs: seq<T>, p: T -> bool, key: T -> int, low: int)
    requires forall i :: 0 <= i < |xs| ==> low <= key(xs[i])
    ensures forall i :: 0 <= i < |Filter(xs, p)| ==> low <= key(Filter(xs, p)[i])
  {
    if xs != [] {
      FilterKeepsBound(xs[1..], p, key, low);
    }
  }

  lemma {:induction false} FilterKeepsSorted<T>(xs: seq<T>, p: T -> bool, key: T -> int)
    requires SortedBy(xs, key)
    ensures SortedBy(Filter(xs, p), key)
  {
    if xs != [] {
      FilterKeepsSorted(xs[1..], p, key);
      FilterKeepsBound(xs[1..], p, key, key(xs[0]));
    }
  }

  /** It makes no difference whether one sorts and then filters, or filters and then sorts. */
  lemma FilterCommutesWithSort<T>(xs: seq<T>, p: T -> bool, key: T -> int)
    ensures Filter(SortBy(xs, key), p) == SortBy(Filter(xs, p), key)
  {
    SortByIsStable(xs, key);
    SortByIsStable(Filter(xs, p), key);
    FilterKeepsSorted(SortBy(xs, key), p, key);
    forall k
      ensures WithKey(Filter(SortBy(xs, key), p), key, k) == WithKey(SortBy(Filter(xs, p), key), key, k)
    {
      WithKeyOfFilter(SortBy(xs, key), p, key, k);
      WithKeyOfFilter(xs, p, key, k);
    }
    StableSortIsUnique(Filter(SortBy(xs, key), p), SortBy(Filter(xs, p), key), key);
  }

  ghost predicate StrictlyAscending(xs: seq<nat>) {
    forall i, j :: 0 <= i < j < |xs| ==> xs[i] < xs[j]
  }

  lemma {:induction false} LeastExists(s: set<nat>)
    requires s != {}
    ensures exists k :: IsLeast(k, s)
  {
    var x :| x in s;
    var rest := s - {x};
    assert forall j :: j in s ==> j == x || j in rest;
    if rest == {} {
      assert IsLeast(x, s);
    } else {
      LeastExists(rest);
      var k :| IsLeast(k, rest);
      assert IsLeast(if k < x then k else x, s);
    }
  }

  predicate IsLeast(k: nat, s: set<nat>) {
    k in s && forall j :: j in s ==> k <= j
  }

  function Least(s: set<nat>): (k: nat)
    requires s != {}
    ensures IsLeast(k, s)
  {
    LeastExists(s);
    var k :| IsLeast(k, s);
    k
  }

  /** The keys of a ledger map with numeric keys, in the order the ledger walks them. */
  function Ascending(s: set<nat>): (xs: seq<nat>)
    ensures StrictlyAscending(xs)
    ensures |xs| == |s|
    ensures forall k :: k in xs <==> k in s
  {
    if s == {} then []
    else
      var k := Least(s);
      var rest := Ascending(s - {k});
      assert forall i :: 0 <= i < |rest| ==> rest[i] in rest;
      [k] + rest
  }

  ghost function Above(s: set<nat>, j: nat): set<nat> {
    set i | i in s && i > j
  }

  lemma AboveIsTail(s: set<nat>, k: nat)
    requires k < |s|
    ensures Above(s, Ascending(s)[k]) == Elements(Ascending(s)[k + 1..])
    ensures |Above(s, Ascending(s)[k])| == |s| - 1 - k
  {
    hide Ascending;
    var xs := Ascending(s);
    var tail := xs[k + 1..];
    forall j
      ensures j in Above(s, xs[k]) <==> j in tail
    {
      if j in Above(s, xs[k]) {
        assert j in xs;
        var x :| 0 <= x < |xs| && xs[x] == j;
        assert x > k;
        assert tail[x - k - 1] == j;
      }
      if j in tail {
        var x :| 0 <= x < |tail| && tail[x] == j;
        assert xs[x + k + 1] == j && j in xs;
      }
    }
    assert Above(s, xs[k]) == Elements(tail);
    DistinctLength(tail);
  }

  /** The members with fewer than `n` larger ones are the last `n` in ascending order. */
  lemma LargestAreLast(s: set<nat>, n: nat, j: nat)
    ensures j in Ascending(s)[SaturatingSub(|s|, n)..] <==> j in s && |Above(s, j)| < n
  {
    hide Ascending;
    var xs := Ascending(s);
    var cut := SaturatingSub(|s|, n);
    if j in s {
      assert j in xs;
      var k :| 0 <= k < |xs| && xs[k] == j;
      AboveIsTail(s, k);
      if k >= cut {
        assert xs[cut..][k - cut] == j;
      } else {
        assert forall x :: cut <= x < |xs| ==> xs[x] > j;
      }
    } else {
      assert j !in xs;
    }
  }

  /** Smaller key, or the same key and the smaller number. */
  predicate Before(i: nat, j: nat, key: nat -> int) {
    key(i) < key(j) || (key(i) == key(j) && i < j)
  }

  ghost predicate BeforeInOrder(xs: seq<nat>, key: nat -> int) {
    forall i, j :: 0 <= i < j < |xs| ==> Before(xs[i], xs[j], key)
  }

  lemma {:induction false} InsertLeastKeepsOrder(x: nat, xs: seq<nat>, key: nat -> int)
    requires BeforeInOrder(xs, key) && forall y :: y in xs ==> x < y
    ensures BeforeInOrder(Insert(x, xs, key), key)
  {
    assert forall k :: 0 <= k < |xs| ==> xs[k] in xs;
    if xs != [] && key(x) > key(xs[0]) {
      var rest := Insert(x, xs[1..], key);
      assert forall k :: 0 <= k < |xs[1..]| ==> xs[1..][k] == xs[k + 1];
      InsertLeastKeepsOrder(x, xs[1..], key);
      InsertPermutes(x, xs[1..], key);
      forall j | 0 <= j < |rest|
        ensures Before(xs[0], rest[j], key)
      {
        assert rest[j] in multiset(rest);
        if rest[j] != x {
          var k :| 0 <= k < |xs[1..]| && xs[1..][k] == rest[j];
          assert xs[k + 1] == rest[j];
        }
      }
    }
  }

  /** A stable sort of ascending numbers breaks ties by the number. */
  lemma {:induction false} SortAscendingBreaksTies(xs: seq<nat>, key: nat -> int)
    requires StrictlyAscending(xs)
    ensures BeforeInOrder(SortBy(xs, key), key)
    ensures |SortBy(xs, key)| == |xs|
    ensures forall x :: x in SortBy(xs, key) <==> x in xs
  {
    SortByIsStable(xs, key);
    forall x
      ensures x in SortBy(xs, key) <==> x in xs
    {
      assert x in SortBy(xs, key) <==> x in multiset(SortBy(xs, key));
    }
    if xs != [] {
      SortAscendingBreaksTies(xs[1..], key);
      assert forall y :: y in xs[1..] ==> xs[0] < y;
      InsertLeastKeepsOrder(xs[0], SortBy(xs[1..], key), key);
    }
  }

  lemma OrderedIsDistinct(xs: seq<nat>, key: nat -> int)
    requires BeforeInOrder(xs, key)
    ensures NoDuplicates(xs)
  {
    assert forall i, j :: 0 <= i < j < |xs| ==> Before(xs[i], xs[j], key);
  }

  /** Cutting a set sorted by key in two: what is in front comes before what is left. */
  lemma CutComesBefore(s: set<nat>, key: nat -> int, sorted: seq<nat>, cut: nat, d: nat, k: nat)
    requires sorted == SortBy(Ascending(s), key) && cut <= |sorted|
    requires d in sorted[..cut] && k in s && k !in sorted[..cut]
    ensures Before(d, k, key)
  {
    hide Ascending;
    SortAscendingBreaksTies(Ascending(s), key);
    assert forall x :: 0 <= x < cut ==> sorted[x] in sorted[..cut];
    var i :| 0 <= i < cut && sorted[..cut][i] == d;
    assert k in sorted;
    var j :| 0 <= j < |sorted| && sorted[j] == k;
    assert i < j;
  }
}

/** SHA-256 as the models see it. */
module Digests {
  const DIGEST_LENGTH := 64

  ghost predicate FixedLength(h: string -> string) {
    forall s :: |h(s)| == DIGEST_LENGTH
  }

  function ZeroDigest(s: string): string {
    seq(DIGEST_LENGTH, _ => '0')
  }

  /** SHA-256 in lower-case hexadecimal: some function with 64-character results. Nothing says it is injective. */
  type HashFunction = h: string -> string | FixedLength(h) witness ZeroDigest
}
