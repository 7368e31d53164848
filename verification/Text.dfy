/** The text helpers the program takes from Go's strings package: white space, trimming, lower case and
    case-insensitive comparison. Strings are sequences of Unicode code points. */
module Text {

  /** unicode.IsSpace. */
  predicate IsSpace(c: char) {
    var n := c as int;
    || 9 <= n <= 13 || n == 32 || n == 0x85 || n == 0xA0 || n == 0x1680
    || 0x2000 <= n <= 0x200A || n == 0x2028 || n == 0x2029 || n == 0x202F || n == 0x205F || n == 0x3000
  }

  predicate Blank(s: string) {
    forall i :: 0 <= i < |s| ==> IsSpace(s[i])
  }

  /** The length in bytes, which is what Go's len counts. */
  function Utf8Length(s: string): nat {
    if s == "" then 0
    else
      var n := s[0] as int;
      (if n < 0x80 then 1 else if n < 0x800 then 2 else if n < 0x1_0000 then 3 else 4) + Utf8Length(s[1..])
  }

  function TrimLeft(s: string): string {
    if s != "" && IsSpace(s[0]) then TrimLeft(s[1..]) else s
  }

  function TrimRight(s: string): string {
    if s != "" && IsSpace(s[|s| - 1]) then TrimRight(s[..|s| - 1]) else s
  }

  /** strings.TrimSpace. */
  function Trim(s: string): string {
    TrimRight(TrimLeft(s))
  }

  /** What trimming leaves alone. */
  predicate Trimmed(s: string) {
    s == "" || (!IsSpace(s[0]) && !IsSpace(s[|s| - 1]))
  }

  lemma {:induction false} TrimLeftShape(s: string)
    ensures TrimLeft(s) != "" ==> !IsSpace(TrimLeft(s)[0])
    ensures |TrimLeft(s)| <= |s| && (|TrimLeft(s)| == |s| ==> TrimLeft(s) == s)
  {
    if s != "" && IsSpace(s[0]) { TrimLeftShape(s[1..]); }
  }

  lemma {:induction false} TrimRightShape(s: string)
    ensures TrimRight(s) != "" ==> !IsSpace(TrimRight(s)[|TrimRight(s)| - 1])
    ensures TrimRight(s) <= s
  {
    if s != "" && IsSpace(s[|s| - 1]) { TrimRightShape(s[..|s| - 1]); }
  }

  lemma TrimShape(s: string)
    ensures Trimmed(Trim(s))
    ensures |Trim(s)| <= |s| && (|Trim(s)| == |s| ==> Trim(s) == s)
  {
    TrimLeftShape(s);
    TrimRightShape(TrimLeft(s));
  }

  lemma TrimmedIsFixed(s: string)
    ensures Trimmed(s) <==> Trim(s) == s
  {
    TrimShape(s);
  }

  lemma TrimTwice(s: string)
    ensures Trim(Trim(s)) == Trim(s)
  {
    TrimShape(s);
    TrimmedIsFixed(Trim(s));
  }

  /** strings.ToLower, exact for every character whose lower case is ASCII. */
  function LowerChar(c: char): char {
    if 'A' <= c <= 'Z' then (c as int + 32) as char
    else if c as int == 0x212A then 'k'
    else if c as int == 0x130 then 'i'
    else c
  }

  function Lower(s: string): string {
    if s == "" then "" else [LowerChar(s[0])] + Lower(s[1..])
  }

  lemma {:induction false} LowerIsFixed(s: string)
    requires forall i :: 0 <= i < |s| ==> 'a' <= s[i] <= 'z'
    ensures Lower(s) == s
  {
    if s != "" { LowerIsFixed(s[1..]); }
  }

  /** The representative of a character's folding orbit. The orbits that meet ASCII are exact: the letters,
      the Kelvin sign with k and the long s with s; stored user names are ASCII. */
  function FoldChar(c: char): char {
    if 'A' <= c <= 'Z' then (c as int + 32) as char
    else if c as int == 0x212A then 'k'
    else if c as int == 0x17F then 's'
    else c
  }

  function Fold(s: string): string {
    if s == "" then "" else [FoldChar(s[0])] + Fold(s[1..])
  }

  lemma {:induction false} FoldAt(s: string, i: nat)
    requires i < |s|
    ensures |Fold(s)| == |s| && Fold(s)[i] == FoldChar(s[i])
  {
    FoldLength(s);
    if i > 0 { FoldAt(s[1..], i - 1); }
  }

  /** Case does not turn white space into anything else. */
  lemma FoldKeepsTrimmed(a: string, b: string)
    requires EqualFold(a, b)
    ensures |a| == |b| && (Trimmed(a) <==> Trimmed(b))
  {
    FoldLength(a);
    FoldLength(b);
    if a != "" {
      FoldAt(a, 0);
      FoldAt(b, 0);
      FoldAt(a, |a| - 1);
      FoldAt(b, |b| - 1);
    }
  }

  lemma {:induction false} FoldPrefix(s: string, n: nat)
    requires n <= |s|
    ensures |Fold(s)| == |s| && Fold(s[..n]) == Fold(s)[..n] && Fold(s[n..]) == Fold(s)[n..]
  {
    FoldLength(s);
    FoldLength(s[..n]);
    FoldLength(s[n..]);
    forall i | 0 <= i < n ensures Fold(s[..n])[i] == Fold(s)[i] {
      FoldAt(s, i);
      FoldAt(s[..n], i);
    }
    forall i | 0 <= i < |s| - n ensures Fold(s[n..])[i] == Fold(s)[n + i] {
      FoldAt(s, n + i);
      FoldAt(s[n..], i);
    }
  }

  lemma SameSpace(a: string, b: string, i: nat)
    requires EqualFold(a, b) && i < |a|
    ensures |a| == |b| && (IsSpace(a[i]) <==> IsSpace(b[i]))
  {
    FoldLength(a);
    FoldLength(b);
    FoldAt(a, i);
    FoldAt(b, i);
  }

  lemma SameSlices(a: string, b: string, n: nat)
    requires EqualFold(a, b) && n <= |a|
    ensures |a| == |b| && EqualFold(a[..n], b[..n]) && EqualFold(a[n..], b[n..])
  {
    FoldLength(a);
    FoldLength(b);
    FoldPrefix(a, n);
    FoldPrefix(b, n);
  }

  lemma {:induction false} TrimLeftFolds(a: string, b: string)
    requires EqualFold(a, b)
    ensures EqualFold(TrimLeft(a), TrimLeft(b))
  {
    FoldLength(a);
    FoldLength(b);
    if a != "" {
      SameSpace(a, b, 0);
      if IsSpace(a[0]) {
        SameSlices(a, b, 1);
        TrimLeftFolds(a[1..], b[1..]);
      }
    }
  }

  lemma {:induction false} TrimRightFolds(a: string, b: string)
    requires EqualFold(a, b)
    ensures EqualFold(TrimRight(a), TrimRight(b))
  {
    FoldLength(a);
    FoldLength(b);
    if a != "" {
      SameSpace(a, b, |a| - 1);
      if IsSpace(a[|a| - 1]) {
        SameSlices(a, b, |a| - 1);
        TrimRightFolds(a[..|a| - 1], b[..|b| - 1]);
      }
    }
  }

  /** Strings that differ in case only still do when trimmed. */
  lemma TrimFolds(a: string, b: string)
    requires EqualFold(a, b)
    ensures EqualFold(Trim(a), Trim(b))
  {
    TrimLeftFolds(a, b);
    TrimRightFolds(TrimLeft(a), TrimLeft(b));
  }

  lemma {:induction false} FoldLength(s: string)
    ensures |Fold(s)| == |s|
  {
    if s != "" { FoldLength(s[1..]); }
  }

  /** strings.EqualFold. */
  predicate EqualFold(a: string, b: string) {
    Fold(a) == Fold(b)
  }

  // ----- What the helpers are for -----

  predicate IsLetter(c: char) { 'a' <= c <= 'z' || 'A' <= c <= 'Z' }

  /** Among ASCII characters exactly a letter and its other case fold together. */
  lemma FoldIgnoresCase(c: char, d: char)
    requires c < 128 as char && d < 128 as char
    ensures FoldChar(c) == FoldChar(d) <==>
      c == d || (IsLetter(c) && IsLetter(d) && (c as int - d as int == 32 || d as int - c as int == 32))
  {
  }

  /** Two strings are equal ignoring case exactly when they have one length and fold alike everywhere. */
  lemma EqualFoldIff(a: string, b: string)
    ensures EqualFold(a, b) <==> |a| == |b| && forall i :: 0 <= i < |a| ==> FoldChar(a[i]) == FoldChar(b[i])
  {
    FoldLength(a);
    FoldLength(b);
    forall i | 0 <= i < |a| ensures Fold(a)[i] == FoldChar(a[i]) { FoldAt(a, i); }
    forall i | 0 <= i < |b| ensures Fold(b)[i] == FoldChar(b[i]) { FoldAt(b, i); }
  }

  lemma {:induction false} TrimLeftIs(s: string) returns (left: string)
    ensures Blank(left) && s == left + TrimLeft(s)
  {
    if s != "" && IsSpace(s[0]) {
      var rest := TrimLeftIs(s[1..]);
      left := [s[0]] + rest;
    } else {
      left := "";
    }
  }

  lemma {:induction false} TrimRightIs(s: string) returns (right: string)
    ensures Blank(right) && s == TrimRight(s) + right
  {
    if s != "" && IsSpace(s[|s| - 1]) {
      var n := |s| - 1;
      var rest := TrimRightIs(s[..n]);
      right := rest + [s[n]];
      assert s == s[..n] + [s[n]];
    } else {
      right := "";
    }
  }

  /** Trimming takes white space off both ends, all of it, and nothing else. */
  lemma TrimIs(s: string) returns (left: string, right: string)
    ensures Blank(left) && Blank(right) && s == left + Trim(s) + right && Trimmed(Trim(s))
  {
    left := TrimLeftIs(s);
    right := TrimRightIs(TrimLeft(s));
    TrimShape(s);
  }

  /** The upper case of an ASCII string has the same lower case and folds alike. */
  function Upper(s: string): string {
    if s == "" then "" else [if 'a' <= s[0] <= 'z' then (s[0] as int - 32) as char else s[0]] + Upper(s[1..])
  }

  lemma {:induction false} UpperIsSame(s: string)
    ensures Lower(Upper(s)) == Lower(s) && EqualFold(Upper(s), s)
  {
    if s != "" { UpperIsSame(s[1..]); }
  }
}
