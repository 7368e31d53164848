/** Listings of finite sets under a strict total order.

    Every list the program returns (snapshots newest first, rollback pages, audit pages, key pages)
    is the beginning of such a listing, so the paging and merging laws are proved here once. */
module Ordering {

  ghost predicate StrictOrder<T(!new)>(before: (T, T) -> bool) {
    && (forall x :: !before(x, x))
    && (forall x, y, z :: before(x, y) && before(y, z) ==> before(x, z))
    && (forall x, y :: x != y ==> before(x, y) || before(y, x))
  }

  ghost predicate Ascending<T>(l: seq<T>, before: (T, T) -> bool) {
    forall i, j :: 0 <= i < j < |l| ==> before(l[i], l[j])
  }

  ghost predicate SameElements<T(!new)>(l: seq<T>, s: set<T>) {
    forall x :: x in l <==> x in s
  }

  ghost predicate IsFirst<T>(s: set<T>, before: (T, T) -> bool, m: T) {
    m in s && forall x :: x in s && x != m ==> before(m, x)
  }

  lemma FirstExists<T(!new)>(s: set<T>, before: (T, T) -> bool)
    requires StrictOrder(before) && s != {}
    ensures exists m :: IsFirst(s, before, m)
  {
    var x :| x in s;
    if s == {x} {
      assert IsFirst(s, before, x);
    } else {
      FirstExists(s - {x}, before);
      var m :| IsFirst(s - {x}, before, m);
      var first := if before(x, m) then x else m;
      forall y | y in s && y != first ensures before(first, y) {
        assert y == x || y == m || y in s - {x};
      }
      assert IsFirst(s, before, first);
    }
  }

  /** The elements of `s`, each once, in order. */
  ghost function Listing<T(!new)>(s: set<T>, before: (T, T) -> bool): (l: seq<T>)
    requires StrictOrder(before)
    ensures |l| == |s| && SameElements(l, s) && Ascending(l, before)
    decreases |s|
  {
    if s == {} then [] else
      FirstExists(s, before);
      var m :| IsFirst(s, before, m);
      var rest := Listing(s - {m}, before);
      assert forall x :: x in [m] + rest <==> x == m || x in rest;
      [m] + rest
  }

  /** Whatever sorts a set strictly computes its listing. */
  lemma {:induction false} ListingUnique<T(!new)>(l: seq<T>, s: set<T>, before: (T, T) -> bool)
    requires StrictOrder(before) && Ascending(l, before) && SameElements(l, s)
    ensures l == Listing(s, before)
  {
    var k := Listing(s, before);
    if l == [] {
      assert forall x :: x !in s;
      assert s == {};
    } else {
      assert l[0] in s && k != [];
      assert k[0] in s && k[0] in l;
      assert l[0] in k;
      assert l[0] == k[0];
      var l', k', s' := l[1..], k[1..], s - {l[0]};
      assert forall x :: x in l <==> x == l[0] || x in l' by { assert l == [l[0]] + l'; }
      assert forall x :: x in k <==> x == k[0] || x in k' by { assert k == [k[0]] + k'; }
      assert SameElements(l', s');
      assert SameElements(k', s');
      assert |s'| < |s|;
      ListingUnique(l', s', before);
      ListingUnique(k', s', before);
      assert l == [l[0]] + l' && k == [k[0]] + k';
    }
  }

  function Take<T>(l: seq<T>, n: nat): (p: seq<T>)
    ensures |p| == (if n < |l| then n else |l|)
    ensures forall i :: 0 <= i < |p| ==> p[i] == l[i]
  {
    if n < |l| then l[..n] else l
  }

  function Elements<T(!new)>(l: seq<T>): (s: set<T>)
    ensures SameElements(l, s)
  {
    set x | x in l
  }

  /** The first `n` elements of `s`. */
  ghost function Top<T(!new)>(s: set<T>, before: (T, T) -> bool, n: nat): (t: set<T>)
    requires StrictOrder(before)
    ensures t <= s
  {
    Elements(Take(Listing(s, before), n))
  }

  lemma {:induction false} AscendingSize<T(!new)>(l: seq<T>, before: (T, T) -> bool)
    requires StrictOrder(before) && Ascending(l, before)
    ensures |Elements(l)| == |l|
  {
    ListingUnique(l, Elements(l), before);
  }

  lemma TopSize<T(!new)>(s: set<T>, before: (T, T) -> bool, n: nat)
    requires StrictOrder(before)
    ensures |Top(s, before, n)| == (if n < |s| then n else |s|)
  {
    AscendingSize(Take(Listing(s, before), n), before);
  }

  /** What is left out of the first `n` comes after each of them. */
  lemma TopPrecedes<T(!new)>(s: set<T>, before: (T, T) -> bool, n: nat, x: T, y: T)
    requires StrictOrder(before) && x in s && x !in Top(s, before, n) && y in Top(s, before, n)
    ensures before(y, x)
  {
    var l := Listing(s, before);
    var p := Take(l, n);
    assert x in l && y in p;
    var i :| 0 <= i < |l| && l[i] == x;
    var j :| 0 <= j < |p| && p[j] == y;
    assert p <= l;
    assert before(l[j], l[i]);
  }

  lemma AnElement<T>(s: set<T>) returns (x: T)
    requires s != {}
    ensures x in s
  {
    x :| x in s;
  }

  lemma SubsetSize<T>(a: set<T>, b: set<T>)
    requires a <= b
    ensures |a| <= |b|
  {
    assert b == a + (b - a);
  }

  /** What precedes one of the first `n` is one of them. */
  lemma TopIsInitial<T(!new)>(s: set<T>, before: (T, T) -> bool, n: nat, x: T, y: T)
    requires StrictOrder(before) && y in s && x in Top(s, before, n) && before(y, x)
    ensures y in Top(s, before, n)
  {
    if y !in Top(s, before, n) {
      TopPrecedes(s, before, n, y, x);
    }
  }

  lemma NoRoom<T>(ta: set<T>, a: set<T>, ts: set<T>, n: nat, x: T)
    requires x in a && x in ts && ta <= a && ta <= ts
    requires |ta| == (if n < |a| then n else |a|) && |ts| <= n
    ensures x in ta
  {
    if x !in ta {
      SubsetSize(ta + {x}, a);
      SubsetSize(ta + {x}, ts);
    }
  }

  /** An element among the first `n` of a set is among the first `n` of every subset holding it. */
  lemma TopOfSubset<T(!new)>(a: set<T>, s: set<T>, before: (T, T) -> bool, n: nat, x: T)
    requires StrictOrder(before) && a <= s && x in a && x in Top(s, before, n)
    ensures x in Top(a, before, n)
  {
    var ta, ts := Top(a, before, n), Top(s, before, n);
    TopSize(a, before, n);
    TopSize(s, before, n);
    if x !in ta {
      forall y | y in ta ensures y in ts {
        TopPrecedes(a, before, n, x, y);
        TopIsInitial(s, before, n, x, y);
      }
      NoRoom(ta, a, ts, n, x);
    }
  }

  lemma SameSizeSubset<T>(a: set<T>, b: set<T>)
    requires a <= b && |b| <= |a|
    ensures a == b
  {
    SubsetSize(a, b);
    assert |b - a| == |b| - |a|;
    assert b == a + (b - a);
  }

  /** Cutting both sources at `n` before merging loses nothing among the first `n` of the union. */
  lemma MergeCut<T(!new)>(a: set<T>, b: set<T>, before: (T, T) -> bool, n: nat)
    requires StrictOrder(before)
    ensures var cut := Top(a, before, n) + Top(b, before, n);
            && cut <= a + b
            && Top(cut, before, n) == Top(a + b, before, n)
            && Take(Listing(cut, before), n) == Take(Listing(a + b, before), n)
  {
    var s := a + b;
    var cut := Top(a, before, n) + Top(b, before, n);
    forall x | x in Top(s, before, n) ensures x in Top(cut, before, n) {
      if x in a { TopOfSubset(a, s, before, n, x); } else { TopOfSubset(b, s, before, n, x); }
      TopOfSubset(cut, s, before, n, x);
    }
    SubsetSize(cut, s);
    TopSize(s, before, n);
    TopSize(cut, before, n);
    SameSizeSubset(Top(s, before, n), Top(cut, before, n));
    ListingUnique(Take(Listing(cut, before), n), Top(s, before, n), before);
    ListingUnique(Take(Listing(s, before), n), Top(s, before, n), before);
  }

  /** `l` with every occurrence of `x` taken out. */
  function Without<T(==,!new)>(l: seq<T>, x: T): seq<T> {
    if l == [] then [] else if l[0] == x then Without(l[1..], x) else [l[0]] + Without(l[1..], x)
  }

  lemma {:induction false} WithoutMembers<T(!new)>(l: seq<T>, x: T)
    ensures forall y :: y in Without(l, x) <==> y in l && y != x
    ensures x !in l ==> Without(l, x) == l
  {
    if l != [] {
      WithoutMembers(l[1..], x);
      assert forall y :: y in l <==> y == l[0] || y in l[1..];
    }
  }

  lemma {:induction false} WithoutAscends<T(!new)>(l: seq<T>, x: T, before: (T, T) -> bool)
    requires Ascending(l, before)
    ensures Ascending(Without(l, x), before)
  {
    if l != [] {
      WithoutAscends(l[1..], x, before);
      var rest := Without(l[1..], x);
      WithoutMembers(l[1..], x);
      forall i | 0 <= i < |rest| ensures before(l[0], rest[i]) {
        assert rest[i] in l[1..];
      }
    }
  }

  /** Insertion into a sorted list; whatever library sort the program calls, its result is the listing. */
  method InsertSorted<T(!new)>(l: seq<T>, x: T, before: (T, T) -> bool) returns (r: seq<T>)
    requires StrictOrder(before) && Ascending(l, before) && x !in l
    ensures Ascending(r, before) && forall y :: y in r <==> y in l || y == x
  {
    var p := 0;
    while p < |l| && before(l[p], x)
      invariant 0 <= p <= |l|
      invariant forall i :: 0 <= i < p ==> before(l[i], x)
    {
      p := p + 1;
    }
    r := l[..p] + [x] + l[p..];
    PlacedAscends(l, p, x, before);
    assert l == l[..p] + l[p..];
  }

  lemma PlacedAscends<T(!new)>(l: seq<T>, p: nat, x: T, before: (T, T) -> bool)
    requires StrictOrder(before) && Ascending(l, before) && x !in l && p <= |l|
    requires forall i :: 0 <= i < p ==> before(l[i], x)
    requires p < |l| ==> !before(l[p], x)
    ensures Ascending(l[..p] + [x] + l[p..], before)
  {
    var r := l[..p] + [x] + l[p..];
    forall i | p <= i < |l| ensures before(x, l[i]) {
      assert before(x, l[p]);
      assert i == p || before(l[p], l[i]);
    }
    forall i, j | 0 <= i < j < |r| ensures before(r[i], r[j]) {
      assert r[i] == if i < p then l[i] else if i == p then x else l[i - 1];
      assert r[j] == if j < p then l[j] else if j == p then x else l[j - 1];
    }
  }

  method SortSet<T(!new, ==)>(s: set<T>, before: (T, T) -> bool) returns (l: seq<T>)
    requires StrictOrder(before)
    ensures l == Listing(s, before)
  {
    l := [];
    var left := s;
    while left != {}
      invariant left <= s && Ascending(l, before) && forall y :: y in l <==> y in s - left
      decreases left
    {
      var x :| x in left;
      l := InsertSorted(l, x, before);
      left := left - {x};
    }
    ListingUnique(l, s, before);
  }

  // ----- Revisions, the newest first -----

  method Largest(s: set<int>) returns (m: int)
    requires s != {}
    ensures m in s && forall x :: x in s && x != m ==> m > x
  {
    ghost var some := AnElement(s);
    m :| m in s;
    var rest := s - {m};
    while rest != {}
      invariant rest <= s && m in s && m !in rest
      invariant forall x :: x in s && x !in rest && x != m ==> x < m
      decreases rest
    {
      ghost var next := AnElement(rest);
      var x :| x in rest;
      rest := rest - {x};
      if x > m { m := x; }
    }
  }

  predicate Newer(a: int, b: int) { a > b }

  lemma NewerIsOrder()
    ensures StrictOrder(Newer)
  {
  }

  ghost predicate IsDescending(l: seq<int>) {
    forall i, j :: 0 <= i < j < |l| ==> l[i] > l[j]
  }

  lemma DescendingExists(s: set<int>)
    ensures exists l: seq<int> :: IsDescending(l) && |l| == |s| && SameElements(l, s)
  {
    NewerIsOrder();
    var l := Listing(s, Newer);
    assert forall i, j :: 0 <= i < j < |l| ==> Newer(l[i], l[j]);
    assert IsDescending(l);
  }

  /** A set of revisions, the newest first. */
  ghost function Descending(s: set<int>): (l: seq<int>)
    ensures |l| == |s| && SameElements(l, s) && IsDescending(l)
  {
    DescendingExists(s);
    var l: seq<int> :| IsDescending(l) && |l| == |s| && SameElements(l, s);
    l
  }

  lemma DescendingIsListing(s: set<int>)
    ensures StrictOrder(Newer) && Descending(s) == Listing(s, Newer)
  {
    NewerIsOrder();
    assert Ascending(Descending(s), Newer);
    ListingUnique(Descending(s), s, Newer);
  }

  /** The newest `n` of a set of revisions. */
  ghost function Latest(s: set<int>, n: nat): (t: set<int>)
    ensures t <= s && |t| == (if n < |s| then n else |s|)
    ensures SameElements(Take(Descending(s), n), t)
  {
    DescendingIsListing(s);
    TopSize(s, Newer, n);
    Elements(Take(Descending(s), n))
  }

  lemma DescendingUnique(l: seq<int>, s: set<int>)
    requires IsDescending(l) && SameElements(l, s)
    ensures l == Descending(s)
  {
    DescendingIsListing(s);
    assert Ascending(l, Newer);
    ListingUnique(l, s, Newer);
  }

  lemma LatestPrecede(s: set<int>, n: nat, x: int, y: int)
    requires x in s && x !in Latest(s, n) && y in Latest(s, n)
    ensures y > x
  {
    DescendingIsListing(s);
    TopPrecedes(s, Newer, n, x, y);
  }

  lemma LatestOfSubset(a: set<int>, s: set<int>, n: nat, x: int)
    requires a <= s && x in a && x in Latest(s, n)
    ensures x in Latest(a, n)
  {
    DescendingIsListing(a);
    DescendingIsListing(s);
    TopOfSubset(a, s, Newer, n, x);
  }

  lemma LatestMerge(a: set<int>, b: set<int>, n: nat)
    ensures var cut := Latest(a, n) + Latest(b, n);
            && cut <= a + b
            && Take(Descending(cut), n) == Take(Descending(a + b), n)
  {
    DescendingIsListing(a);
    DescendingIsListing(b);
    DescendingIsListing(a + b);
    DescendingIsListing(Latest(a, n) + Latest(b, n));
    MergeCut(a, b, Newer, n);
  }

  function Below(s: set<int>, bound: int): (low: set<int>)
    ensures forall r :: r in low <==> r in s && r < bound
  {
    set r | r in s && r < bound
  }
}
