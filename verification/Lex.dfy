/** Lexicographic order, the order of etcd keys and of Go strings. */
module Lex {
  import opened Store
  import opened Ordering

  predicate Less(a: seq<int>, b: seq<int>) {
    if b == [] then false
    else if a == [] then true
    else a[0] < b[0] || (a[0] == b[0] && Less(a[1..], b[1..]))
  }

  lemma {:induction false} Irreflexive(a: seq<int>)
    ensures !Less(a, a)
  {
    if a != [] { Irreflexive(a[1..]); }
  }

  lemma {:induction false} Transitive(a: seq<int>, b: seq<int>, c: seq<int>)
    requires Less(a, b) && Less(b, c)
    ensures Less(a, c)
  {
    if a != [] && a[0] == b[0] && b[0] == c[0] { Transitive(a[1..], b[1..], c[1..]); }
  }

  lemma {:induction false} Total(a: seq<int>, b: seq<int>)
    requires a != b
    ensures Less(a, b) || Less(b, a)
  {
    if a != [] && b != [] && a[0] == b[0] {
      assert a == [a[0]] + a[1..] && b == [b[0]] + b[1..];
      Total(a[1..], b[1..]);
    }
  }

  // ----- Keys -----

  predicate KeyLess(a: Bytes, b: Bytes) { Less(a, b) }

  lemma KeyLessIsOrder()
    ensures StrictOrder(KeyLess)
  {
    forall x: Bytes ensures !KeyLess(x, x) { Irreflexive(x); }
    forall x: Bytes, y: Bytes, z: Bytes | KeyLess(x, y) && KeyLess(y, z) ensures KeyLess(x, z) { Transitive(x, y, z); }
    forall x: Bytes, y: Bytes | x != y ensures KeyLess(x, y) || KeyLess(y, x) { Total(x, y); }
  }

  // ----- Strings: byte order of UTF-8 is code point order -----

  function Codes(s: string): (c: seq<int>)
    ensures |c| == |s| && forall i :: 0 <= i < |s| ==> c[i] == s[i] as int
  {
    seq(|s|, i requires 0 <= i < |s| => s[i] as int)
  }

  lemma CodesInjective(a: string, b: string)
    requires Codes(a) == Codes(b)
    ensures a == b
  {
    forall i | 0 <= i < |a| ensures a[i] == b[i] {
      assert Codes(a)[i] == Codes(b)[i];
    }
  }

  predicate TextLess(a: string, b: string) { Less(Codes(a), Codes(b)) }

  lemma TextLessIsOrder()
    ensures StrictOrder(TextLess)
  {
    forall x: string ensures !TextLess(x, x) { Irreflexive(Codes(x)); }
    forall x: string, y: string, z: string | TextLess(x, y) && TextLess(y, z) ensures TextLess(x, z) {
      Transitive(Codes(x), Codes(y), Codes(z));
    }
    forall x: string, y: string | x != y ensures TextLess(x, y) || TextLess(y, x) {
      if Codes(x) == Codes(y) { CodesInjective(x, y); } else { Total(Codes(x), Codes(y)); }
    }
  }

  ghost function SortedText(s: set<string>): (l: seq<string>)
    ensures |l| == |s| && SameElements(l, s) && Ascending(l, TextLess)
  {
    TextLessIsOrder();
    Listing(s, TextLess)
  }

  /** sort.Strings on the elements of a set. */
  method SortText(s: set<string>) returns (l: seq<string>)
    ensures l == SortedText(s)
  {
    TextLessIsOrder();
    l := SortSet(s, TextLess);
  }
}
