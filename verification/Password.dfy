/** The strong-password rule and the temporary password generator (internal/auth/manager.go). */
module Password {
  import opened Store
  import Text

  datatype PasswordError = TooShort | TooLong | ForbiddenCharacter | ClassMissing | LengthBelowFour | RandomFailed

  datatype Class = Forbidden | Upper | Lower | Digit | Special | Neutral

  const MINIMUM_LENGTH := 10
  const MAXIMUM_BYTES := 72

  const UPPERCASE := "ABCDEFGHJKLMNPQRSTUVWXYZ"
  const LOWERCASE := "abcdefghijkmnopqrstuvwxyz"
  const DIGITS := "23456789"
  const SYMBOLS := "!@#$%&*+-_=.?"
  const ALL := UPPERCASE + LOWERCASE + DIGITS + SYMBOLS

  /** The first matching case of the validator's switch. White space, control characters and ASCII are exact;
      `other` classifies the remaining code points. */
  function Classify(c: char, other: char -> Class): Class {
    var n := c as int;
    if Text.IsSpace(c) || n < 32 || 127 <= n < 160 then Forbidden
    else if 'A' <= c <= 'Z' then Upper
    else if 'a' <= c <= 'z' then Lower
    else if '0' <= c <= '9' then Digit
    else if n < 127 then Special
    else other(c)
  }

  predicate Has(s: string, class_: Class, other: char -> Class) {
    exists i :: 0 <= i < |s| && Classify(s[i], other) == class_
  }

  /** Long enough, not too long, nothing forbidden, and all four classes. */
  predicate Strong(s: string, other: char -> Class) {
    && MINIMUM_LENGTH <= |s| && Text.Utf8Length(s) <= MAXIMUM_BYTES
    && !Has(s, Forbidden, other)
    && Has(s, Upper, other) && Has(s, Lower, other) && Has(s, Digit, other) && Has(s, Special, other)
  }

  /** validateStrongPassword. */
  method ValidateStrongPassword(password: string, other: char -> Class) returns (r: Result<(), PasswordError>)
    ensures r.Ok? <==> Strong(password, other)
    ensures r == Err(TooShort) <==> |password| < MINIMUM_LENGTH
    ensures r == Err(TooLong) <==> |password| >= MINIMUM_LENGTH && Text.Utf8Length(password) > MAXIMUM_BYTES
    ensures r == Err(ForbiddenCharacter) <==>
      |password| >= MINIMUM_LENGTH && Text.Utf8Length(password) <= MAXIMUM_BYTES && Has(password, Forbidden, other)
  {
    if |password| < MINIMUM_LENGTH { return Err(TooShort); }
    if Text.Utf8Length(password) > MAXIMUM_BYTES { return Err(TooLong); }
    var upper, lower, digit, special := false, false, false, false;
    for n := 0 to |password|
      invariant forall i :: 0 <= i < n ==> Classify(password[i], other) != Forbidden
      invariant upper <==> exists i :: 0 <= i < n && Classify(password[i], other) == Upper
      invariant lower <==> exists i :: 0 <= i < n && Classify(password[i], other) == Lower
      invariant digit <==> exists i :: 0 <= i < n && Classify(password[i], other) == Digit
      invariant special <==> exists i :: 0 <= i < n && Classify(password[i], other) == Special
    {
      match Classify(password[n], other) {
        case Forbidden => return Err(ForbiddenCharacter);
        case Upper => upper := true;
        case Lower => lower := true;
        case Digit => digit := true;
        case Special => special := true;
        case Neutral =>
      }
    }
    if !upper || !lower || !digit || !special { return Err(ClassMissing); }
    r := Ok(());
  }

  /** White space and control characters are refused wherever they stand. */
  lemma SpacesAreRefused(s: string, i: nat, other: char -> Class)
    requires i < |s| && (Text.IsSpace(s[i]) || s[i] as int < 32 || s[i] as int == 127)
    ensures !Strong(s, other)
  {
    assert Classify(s[i], other) == Forbidden;
  }

  /** For ASCII passwords the rule in plain terms: 10 to 72 visible characters with a capital and a small letter, a
      digit and something else. */
  lemma AsciiStrongIff(s: string, other: char -> Class)
    requires forall i :: 0 <= i < |s| ==> s[i] as int < 128
    ensures Strong(s, other) <==>
      && 10 <= |s| <= 72 && (forall i :: 0 <= i < |s| ==> Visible(s[i]))
      && (exists i :: 0 <= i < |s| && 'A' <= s[i] <= 'Z') && (exists i :: 0 <= i < |s| && 'a' <= s[i] <= 'z')
      && (exists i :: 0 <= i < |s| && '0' <= s[i] <= '9') && (exists i :: 0 <= i < |s| && SpecialAscii(s[i]))
  {
    AsciiLength(s);
    forall i | 0 <= i < |s|
      ensures (Classify(s[i], other) == Forbidden <==> !Visible(s[i]))
           && (Classify(s[i], other) == Upper <==> 'A' <= s[i] <= 'Z')
           && (Classify(s[i], other) == Lower <==> 'a' <= s[i] <= 'z')
           && (Classify(s[i], other) == Digit <==> '0' <= s[i] <= '9')
           && (Classify(s[i], other) == Special <==> SpecialAscii(s[i]))
    {
      AsciiClass(s[i], other);
    }
  }

  lemma AsciiClass(c: char, other: char -> Class)
    requires c as int < 128
    ensures Classify(c, other) ==
      if !Visible(c) then Forbidden else if 'A' <= c <= 'Z' then Upper else if 'a' <= c <= 'z' then Lower
      else if '0' <= c <= '9' then Digit else Special
  {
  }

  // ----- Generating -----

  /** Random draws, in order: `at(k, bound)` is the k-th one; `fails(k)` says the source of randomness failed. */
  datatype Random = Random(at: (nat, nat) -> nat, fails: nat -> bool)

  ghost predicate IsRandom(random: Random) {
    forall k, bound :: bound > 0 ==> random.at(k, bound) < bound
  }

  predicate Visible(c: char) { 33 <= c as int < 127 }

  predicate SpecialAscii(c: char) { Visible(c) && !('A' <= c <= 'Z') && !('a' <= c <= 'z') && !('0' <= c <= '9') }

  /** One character of each class first, then any visible ASCII. */
  predicate Seeded(s: string) {
    && |s| >= 4
    && 'A' <= s[0] <= 'Z' && 'a' <= s[1] <= 'z' && '0' <= s[2] <= '9' && SpecialAscii(s[3])
    && forall i :: 0 <= i < |s| ==> Visible(s[i])
  }

  function Alphabet(k: nat): string {
    if k == 0 then UPPERCASE else if k == 1 then LOWERCASE else if k == 2 then DIGITS else if k == 3 then SYMBOLS else ALL
  }

  method Fill(password: array<char>, random: Random) returns (ok: bool)
    requires password.Length >= 4 && IsRandom(random)
    modifies password
    ensures ok <==> NoneFails(random, 0, password.Length)
    ensures ok ==> Seeded(password[..])
    ensures ok ==> IsFilled(password[..], password.Length, random)
  {
    for k := 0 to password.Length
      invariant forall j :: 0 <= j < k ==> !random.fails(j)
      invariant forall j :: 0 <= j < k ==> password[j] == Alphabet(j)[random.at(j, |Alphabet(j)|)]
    {
      if random.fails(k) { return false; }
      var alphabet := Alphabet(k);
      password[k] := alphabet[random.at(k, |alphabet|)];
    }
    ok := true;
    forall i | 0 <= i < password.Length ensures Visible(password[i]) {
      assert password[i] in Alphabet(i);
      AlphabetInAll(i, password[i]);
      AllIsAscii(password[i]);
    }
    UppercaseIsUpper(password[0]);
    LowercaseIsLower(password[1]);
    DigitsAreDigits(password[2]);
    SymbolsAreSpecial(password[3]);
  }

  lemma AlphabetInAll(k: nat, c: char)
    requires c in Alphabet(k)
    ensures c in ALL
  {
    InOneOfFour(UPPERCASE, LOWERCASE, DIGITS, SYMBOLS, c);
  }

  lemma InOneOfFour(a: string, b: string, d: string, e: string, c: char)
    ensures c in a + b + d + e <==> c in a || c in b || c in d || c in e
  {
  }

  function Swapped(s: string, i: nat, j: nat): string
    requires i < |s| && j < |s|
  {
    s[i := s[j]][j := s[i]]
  }

  lemma SwapPermutes(s: string, i: nat, j: nat)
    requires i < |s| && j < |s|
    ensures multiset(Swapped(s, i, j)) == multiset(s)
  {
  }

  /** One draw for every position from the last down to the second, each not above its position. */
  ghost predicate AreDraws(draws: seq<nat>) {
    forall k :: 0 <= k < |draws| ==> draws[k] <= |draws| - k
  }

  /** What the shuffle makes of a string, given its draws. */
  function Shuffled(s: string, draws: seq<nat>): string
    requires |draws| < |s| && AreDraws(draws)
    decreases |draws|
  {
    if draws == [] then s
    else
      assert forall k :: 0 <= k < |draws[1..]| ==> draws[1..][k] == draws[k + 1];
      Shuffled(Swapped(s, |draws|, draws[0]), draws[1..])
  }

  function Draws(random: Random, k: nat, n: nat): (draws: seq<nat>)
    ensures |draws| == n && forall i :: 0 <= i < n ==> draws[i] == random.at(k + i, n - i + 1)
    decreases n
  {
    if n == 0 then [] else [random.at(k, n + 1)] + Draws(random, k + 1, n - 1)
  }

  lemma DrawsAreDraws(random: Random, k: nat, n: nat)
    requires IsRandom(random)
    ensures AreDraws(Draws(random, k, n))
  {
  }

  lemma {:induction false} ShuffledPermutes(s: string, draws: seq<nat>)
    requires |draws| < |s| && AreDraws(draws)
    ensures multiset(Shuffled(s, draws)) == multiset(s) && |Shuffled(s, draws)| == |s|
    ensures forall i :: |draws| < i < |s| ==> Shuffled(s, draws)[i] == s[i]
    decreases |draws|
  {
    if draws != [] {
      var next := Swapped(s, |draws|, draws[0]);
      SwapPermutes(s, |draws|, draws[0]);
      TailDraws(draws);
      ShuffledPermutes(next, draws[1..]);
    }
  }

  lemma TailDraws(draws: seq<nat>)
    requires AreDraws(draws) && draws != []
    ensures AreDraws(draws[1..]) && draws[0] <= |draws|
  {
    assert forall k :: 0 <= k < |draws[1..]| ==> draws[1..][k] == draws[k + 1];
  }

  /** The shuffle with the draws that follow turns `s` into `t`. */
  ghost predicate CanBecome(s: string, t: string, random: Random) {
    s != "" && AreDraws(Draws(random, |s|, |s| - 1)) && t == Shuffled(s, Draws(random, |s|, |s| - 1))
  }

  /** What is left of the shuffle turns `now` into the same result as the whole shuffle turns `s`. */
  ghost predicate OnTheWay(now: string, s: string, random: Random, first: nat, index: nat)
    requires IsRandom(random) && index < |s| == |now|
  {
    var n := |s| - 1;
    DrawsAreDraws(random, first, n);
    DrawsAreDraws(random, first + n - index, index);
    && multiset(now) == multiset(s)
    && Shuffled(now, Draws(random, first + n - index, index)) == Shuffled(s, Draws(random, first, n))
  }

  lemma OneStep(now: string, s: string, random: Random, first: nat, index: nat)
    requires IsRandom(random) && 0 < index < |s| == |now| && OnTheWay(now, s, random, first, index)
    ensures OnTheWay(Swapped(now, index, random.at(first + |s| - 1 - index, index + 1)), s, random, first, index - 1)
  {
    var k := first + |s| - 1 - index;
    SwapPermutes(now, index, random.at(k, index + 1));
    OneDraw(now, random, k, index);
  }

  lemma Starts(s: string, random: Random, first: nat)
    requires IsRandom(random) && s != ""
    ensures OnTheWay(s, s, random, first, |s| - 1)
  {
  }

  lemma Arrived(now: string, s: string, random: Random)
    requires IsRandom(random) && 0 < |s| == |now| && OnTheWay(now, s, random, |s|, 0)
    ensures CanBecome(s, now, random)
  {
    DrawsAreDraws(random, |s|, |s| - 1);
  }

  /** One step of the shuffle, unless the draw fails. */
  method SwapStep(password: array<char>, random: Random, first: nat, index: nat, ghost s: string) returns (ok: bool)
    requires IsRandom(random) && 0 < index < |s| == password.Length && OnTheWay(password[..], s, random, first, index)
    modifies password
    ensures ok == !random.fails(first + password.Length - 1 - index)
    ensures OnTheWay(password[..], s, random, first, if ok then index - 1 else index)
  {
    var k := first + password.Length - 1 - index;
    if random.fails(k) { return false; }
    var swap := random.at(k, index + 1);
    ghost var next := Swapped(password[..], index, swap);
    OneStep(password[..], s, random, first, index);
    SwapAt(password, index, swap);
    assert password[..] == next;
    ok := true;
  }

  method SwapAt(password: array<char>, i: nat, j: nat)
    requires i < password.Length && j < password.Length
    modifies password
    ensures password[..] == Swapped(old(password[..]), i, j)
  {
    password[i], password[j] := password[j], password[i];
  }

  predicate NoneFails(random: Random, from: nat, n: nat) {
    forall k :: from <= k < from + n ==> !random.fails(k)
  }

  lemma NextFails(random: Random, from: nat, n: nat)
    ensures NoneFails(random, from, n + 1) <==> NoneFails(random, from, n) && !random.fails(from + n)
  {
  }

  /** The shuffle from the end of the buffer, in place, with the draws that follow those of the buffer: it only
      permutes, and the draws decide how. */
  method Shuffle(password: array<char>, random: Random) returns (ok: bool)
    requires password.Length >= 1 && IsRandom(random)
    modifies password
    ensures multiset(password[..]) == multiset(old(password[..]))
    ensures ok <==> NoneFails(random, password.Length, password.Length - 1)
    ensures ok ==> CanBecome(old(password[..]), password[..], random)
  {
    var index, first := password.Length - 1, password.Length;
    ghost var s := password[..];
    Starts(s, random, first);
    while index > 0
      invariant 0 <= index <= password.Length - 1
      invariant OnTheWay(password[..], s, random, first, index)
      invariant NoneFails(random, first, password.Length - 1 - index)
    {
      ghost var done := password.Length - 1 - index;
      NextFails(random, first, done);
      ok := SwapStep(password, random, first, index, s);
      if !ok {
        FailsLater(random, first, done, password.Length - 1);
        return;
      }
      index := index - 1;
    }
    Arrived(password[..], s, random);
    ok := true;
  }

  lemma BothFail(random: Random, m: nat, n: nat)
    ensures NoneFails(random, 0, m + n) <==> NoneFails(random, 0, m) && NoneFails(random, m, n)
  {
    if NoneFails(random, 0, m) && NoneFails(random, m, n) {
      forall k | 0 <= k < m + n ensures !random.fails(k) {
        assert k < m || m <= k < m + n;
      }
    }
  }

  lemma FailsLater(random: Random, from: nat, n: nat, total: nat)
    requires n < total && random.fails(from + n)
    ensures !NoneFails(random, from, total)
  {
  }

  lemma OneDraw(s: string, random: Random, k: nat, n: nat)
    requires IsRandom(random) && 0 < n < |s|
    ensures AreDraws(Draws(random, k, n)) && AreDraws(Draws(random, k + 1, n - 1))
    ensures Shuffled(s, Draws(random, k, n)) == Shuffled(Swapped(s, n, random.at(k, n + 1)), Draws(random, k + 1, n - 1))
  {
    DrawsAreDraws(random, k, n);
    DrawsAreDraws(random, k + 1, n - 1);
    assert Draws(random, k, n)[1..] == Draws(random, k + 1, n - 1);
  }

  /** Every arrangement of the characters can come out: some draws produce it. */
  lemma {:induction false} AnyArrangement(s: string, t: string, n: nat) returns (draws: seq<nat>)
    requires n < |s| && |t| == |s| && multiset(s[..n + 1]) == multiset(t[..n + 1]) && s[n + 1..] == t[n + 1..]
    ensures |draws| == n && AreDraws(draws) && Shuffled(s, draws) == t
    decreases n
  {
    if n == 0 {
      draws := [];
      OneLeft(s, t);
    } else {
      var j := Position(s[..n + 1], t[..n + 1], n);
      var next := Swapped(s, n, j);
      SwappedPrefix(s, t, n, j);
      var rest := AnyArrangement(next, t, n - 1);
      draws := [j] + rest;
      assert draws[1..] == rest;
    }
  }

  lemma OneLeft(s: string, t: string)
    requires s != "" && |t| == |s| && multiset(s[..1]) == multiset(t[..1]) && s[1..] == t[1..]
    ensures s == t
  {
    assert s[..1] == [s[0]] && t[..1] == [t[0]];
    assert s[0] in multiset(t[..1]);
    assert s == [s[0]] + s[1..] && t == [t[0]] + t[1..];
  }

  lemma Position(a: string, b: string, n: nat) returns (j: nat)
    requires multiset(a) == multiset(b) && n < |b|
    ensures j < |a| && a[j] == b[n]
  {
    assert b[n] in multiset(a);
    j :| 0 <= j < |a| && a[j] == b[n];
  }

  lemma SwappedPrefix(s: string, t: string, n: nat, j: nat)
    requires 0 < n < |s| && |t| == |s| && multiset(s[..n + 1]) == multiset(t[..n + 1]) && s[n + 1..] == t[n + 1..]
    requires j <= n && s[j] == t[n]
    ensures var next := Swapped(s, n, j);
      |next| == |s| && multiset(next[..n]) == multiset(t[..n]) && next[n..] == t[n..]
  {
    SwappedFront(s, n, j);
    WithoutLast(Swapped(s[..n + 1], n, j), t[..n + 1]);
    assert t[..n + 1][..n] == t[..n];
    SwappedBack(s, t, n, j);
  }

  lemma SwappedFront(s: string, n: nat, j: nat)
    requires n < |s| && j <= n
    ensures Swapped(s, n, j)[..n] == Swapped(s[..n + 1], n, j)[..n]
    ensures multiset(Swapped(s[..n + 1], n, j)) == multiset(s[..n + 1]) && Swapped(s[..n + 1], n, j)[n] == s[j]
  {
    SwapPermutes(s[..n + 1], n, j);
  }

  lemma WithoutLast(a: string, b: string)
    requires a != "" && |a| == |b| && multiset(a) == multiset(b) && a[|a| - 1] == b[|b| - 1]
    ensures multiset(a[..|a| - 1]) == multiset(b[..|b| - 1])
  {
    LastTaken(a);
    LastTaken(b);
  }

  lemma LastTaken(a: string)
    requires a != ""
    ensures multiset(a[..|a| - 1]) == multiset(a) - multiset{a[|a| - 1]}
  {
    assert a == a[..|a| - 1] + [a[|a| - 1]];
  }

  lemma SwappedBack(s: string, t: string, n: nat, j: nat)
    requires n < |s| && |t| == |s| && s[n + 1..] == t[n + 1..] && j <= n && s[j] == t[n]
    ensures Swapped(s, n, j)[n..] == t[n..]
  {
    var next := Swapped(s, n, j);
    forall i | n <= i < |s| ensures next[i] == t[i] {
      if i > n { assert s[n + 1..][i - n - 1] == t[n + 1..][i - n - 1]; }
    }
  }

  /** No character that is easily mistaken for another is ever drawn. */
  lemma NoLookAlikes(c: char)
    requires c in ALL
    ensures c !in "IOl01"
  {
    if c in UPPERCASE { CapitalsDiffer(c); }
    else if c in LOWERCASE { SmallLettersDiffer(c); }
    else if c in DIGITS { DigitsDiffer(c); }
    else { SymbolsAreSpecial(c); }
  }

  lemma CapitalsDiffer(c: char)
    requires c in UPPERCASE
    ensures 'A' <= c <= 'Z' && c != 'I' && c != 'O'
  {
  }

  lemma SmallLettersDiffer(c: char)
    requires c in LOWERCASE
    ensures 'a' <= c <= 'z' && c != 'l'
  {
  }

  lemma DigitsDiffer(c: char)
    requires c in DIGITS
    ensures '2' <= c <= '9'
  {
  }

  // ----- Every generated password is strong -----

  lemma UppercaseIsUpper(c: char)
    requires c in UPPERCASE
    ensures 'A' <= c <= 'Z'
  {
  }

  lemma LowercaseIsLower(c: char)
    requires c in LOWERCASE
    ensures 'a' <= c <= 'z'
  {
  }

  lemma DigitsAreDigits(c: char)
    requires c in DIGITS
    ensures '0' <= c <= '9'
  {
  }

  lemma SymbolsAreSpecial(c: char)
    requires c in SYMBOLS
    ensures SpecialAscii(c)
  {
  }

  lemma AllIsAscii(c: char)
    requires c in ALL
    ensures Visible(c)
  {
    if c in UPPERCASE { UppercaseIsUpper(c); }
    else if c in LOWERCASE { LowercaseIsLower(c); }
    else if c in DIGITS { DigitsAreDigits(c); }
    else { SymbolsAreSpecial(c); }
  }

  lemma {:induction false} AsciiLength(s: string)
    requires forall i :: 0 <= i < |s| ==> s[i] as int < 128
    ensures Text.Utf8Length(s) == |s|
  {
    if s != "" { AsciiLength(s[1..]); }
  }

  lemma Permuted(s: string, t: string, c: char)
    requires multiset(s) == multiset(t) && c in s
    ensures c in t
  {
    assert c in multiset(s);
  }

  lemma PermutedHas(s: string, t: string, k: nat, class_: Class, other: char -> Class)
    requires multiset(s) == multiset(t) && k < |s| && Classify(s[k], other) == class_
    ensures Has(t, class_, other)
  {
    Permuted(s, t, s[k]);
    var i :| 0 <= i < |t| && t[i] == s[k];
  }

  /** A permutation of a seeded buffer is strong exactly when its length is within the rule. */
  lemma SeededIsStrong(s: string, t: string, other: char -> Class)
    requires Seeded(s) && multiset(s) == multiset(t)
    ensures Strong(t, other) <==> MINIMUM_LENGTH <= |t| <= MAXIMUM_BYTES
  {
    forall i | 0 <= i < |t| ensures t[i] as int < 127 && Classify(t[i], other) != Forbidden {
      Permuted(t, s, t[i]);
    }
    AsciiLength(t);
    SeedClasses(s, other);
    PermutedHas(s, t, 0, Upper, other);
    PermutedHas(s, t, 1, Lower, other);
    PermutedHas(s, t, 2, Digit, other);
    PermutedHas(s, t, 3, Special, other);
  }

  lemma SeedClasses(s: string, other: char -> Class)
    requires Seeded(s)
    ensures Classify(s[0], other) == Upper && Classify(s[1], other) == Lower
    ensures Classify(s[2], other) == Digit && Classify(s[3], other) == Special
  {
  }

  /** The buffer before the shuffle: position k holds the character its draw picks from its alphabet. */
  ghost predicate IsFilled(s: string, length: int, random: Random) {
    |s| == length >= 4 && forall k :: 0 <= k < length ==>
      random.at(k, |Alphabet(k)|) < |Alphabet(k)| && s[k] == Alphabet(k)[random.at(k, |Alphabet(k)|)]
  }

  lemma IndexIn(a: string, c: char) returns (p: nat)
    requires c in a
    ensures p < |a| && a[p] == c
  {
    p :| 0 <= p < |a| && a[p] == c;
  }

  function Alphabets(n: nat): (l: seq<string>)
    ensures |l| == n && forall k :: 0 <= k < n ==> l[k] == Alphabet(k)
  {
    seq(n, k requires 0 <= k < n => Alphabet(k))
  }

  ghost predicate Pick(alphabets: seq<string>, s: string, at: seq<nat>) {
    |at| <= |s| == |alphabets| && forall k :: 0 <= k < |at| ==> at[k] < |alphabets[k]| && alphabets[k][at[k]] == s[k]
  }

  lemma {:induction false} Picks(alphabets: seq<string>, s: string, n: nat) returns (at: seq<nat>)
    requires n <= |s| == |alphabets| && forall k :: 0 <= k < |s| ==> s[k] in alphabets[k]
    ensures |at| == n && Pick(alphabets, s, at)
    decreases n
  {
    if n == 0 { return []; }
    var before := Picks(alphabets, s, n - 1);
    var p := IndexIn(alphabets[n - 1], s[n - 1]);
    at := before + [p];
  }

  function DrawnFrom(at: seq<nat>): Random {
    Random((k: nat, bound: nat) => if k < |at| && at[k] < bound then at[k] else 0, (k: nat) => false)
  }

  lemma Becomes(s: string, t: string, random: Random, draws: seq<nat>)
    requires s != "" && |draws| == |s| - 1 && AreDraws(draws) && t == Shuffled(s, draws)
    requires draws == Draws(random, |s|, |s| - 1)
    ensures CanBecome(s, t, random)
  {
  }

  lemma DrawnValue(at: seq<nat>, k: nat, bound: nat)
    requires k < |at| && at[k] < bound
    ensures DrawnFrom(at).at(k, bound) == at[k]
  {
  }

  lemma DrawnIsRandom(at: seq<nat>)
    ensures IsRandom(DrawnFrom(at)) && forall k :: !DrawnFrom(at).fails(k)
  {
  }

  lemma DrawnDraws(picks: seq<nat>, draws: seq<nat>)
    requires AreDraws(draws)
    ensures Draws(DrawnFrom(picks + draws), |picks|, |draws|) == draws
  {
    var at := picks + draws;
    forall i | 0 <= i < |draws| ensures DrawnFrom(at).at(|picks| + i, |draws| - i + 1) == draws[i] {
      assert at[|picks| + i] == draws[i];
      DrawnValue(at, |picks| + i, |draws| - i + 1);
    }
  }

  lemma DrawnFills(s: string, picks: seq<nat>, draws: seq<nat>)
    requires |picks| == |s| >= 4 && Pick(Alphabets(|s|), s, picks)
    ensures IsFilled(s, |s|, DrawnFrom(picks + draws))
  {
    var at := picks + draws;
    forall k | 0 <= k < |s| ensures DrawnFrom(at).at(k, |Alphabet(k)|) == picks[k] < |Alphabet(k)| && Alphabet(k)[picks[k]] == s[k] {
      assert at[k] == picks[k] && Alphabets(|s|)[k] == Alphabet(k);
      DrawnValue(at, k, |Alphabet(k)|);
    }
  }

  /** Every arrangement of four characters of the four classes and any further characters is a possible password. */
  lemma AnyPasswordPossible(s: string, t: string) returns (random: Random)
    requires |s| >= 4 && (forall k :: 0 <= k < |s| ==> s[k] in Alphabet(k)) && multiset(t) == multiset(s)
    ensures IsRandom(random) && (forall k :: !random.fails(k)) && IsFilled(s, |s|, random) && CanBecome(s, t, random)
  {
    var draws := Arrangement(s, t);
    var picks := PicksFor(s);
    random := DrawnFrom(picks + draws);
    DrawnIsRandom(picks + draws);
    DrawnFills(s, picks, draws);
    DrawnBecomes(s, t, picks, draws);
  }

  lemma DrawnBecomes(s: string, t: string, picks: seq<nat>, draws: seq<nat>)
    requires s != "" && |picks| == |s| && |draws| == |s| - 1 && AreDraws(draws) && Shuffled(s, draws) == t
    ensures CanBecome(s, t, DrawnFrom(picks + draws))
  {
    DrawnDraws(picks, draws);
    Becomes(s, t, DrawnFrom(picks + draws), draws);
  }

  lemma PicksFor(s: string) returns (at: seq<nat>)
    requires forall k :: 0 <= k < |s| ==> s[k] in Alphabet(k)
    ensures |at| == |s| && Pick(Alphabets(|s|), s, at)
  {
    at := Picks(Alphabets(|s|), s, |s|);
  }

  lemma Arrangement(s: string, t: string) returns (draws: seq<nat>)
    requires s != "" && multiset(t) == multiset(s)
    ensures |draws| == |s| - 1 && AreDraws(draws) && Shuffled(s, draws) == t
  {
    assert |multiset(s)| == |s| && |multiset(t)| == |t|;
    assert s[..|s|] == s && t[..|s|] == t;
    draws := AnyArrangement(s, t, |s| - 1);
  }

  lemma Generated(s: string, t: string, length: int, random: Random, other: char -> Class)
    requires IsFilled(s, length, random) && Seeded(s) && multiset(t) == multiset(s) && CanBecome(s, t, random)
    ensures exists f :: IsFilled(f, length, random) && CanBecome(f, t, random)
    ensures |t| == length && (Strong(t, other) <==> MINIMUM_LENGTH <= length <= MAXIMUM_BYTES)
  {
    assert |multiset(s)| == |s| && |multiset(t)| == |t|;
    SeededIsStrong(s, t, other);
  }

  /** generateTemporaryPassword: whatever is drawn, the result is strong for every length from 10 to 72 and for
      no other length. */
  method GenerateTemporaryPassword(length: int, random: Random, ghost other: char -> Class)
    returns (r: Result<string, PasswordError>)
    requires IsRandom(random)
    ensures r == Err(LengthBelowFour) <==> length < 4
    ensures r == Err(RandomFailed) <==> length >= 4 && !NoneFails(random, 0, 2 * length - 1)
    ensures r.Ok? <==> length >= 4 && NoneFails(random, 0, 2 * length - 1)
    ensures r.Ok? ==> exists s :: IsFilled(s, length, random) && CanBecome(s, r.value, random)
    ensures r.Ok? ==> |r.value| == length && (Strong(r.value, other) <==> MINIMUM_LENGTH <= length <= MAXIMUM_BYTES)
  {
    if length < 4 { return Err(LengthBelowFour); }
    var ok, seeded, password := FillAndShuffle(length, random);
    if !ok { return Err(RandomFailed); }
    Generated(seeded, password, length, random, other);
    r := Ok(password);
  }

  /** The draws: first the characters, then the shuffle. */
  method FillAndShuffle(length: nat, random: Random) returns (ok: bool, ghost seeded: string, password: string)
    requires IsRandom(random) && length >= 4
    ensures ok <==> NoneFails(random, 0, 2 * length - 1)
    ensures ok ==> IsFilled(seeded, length, random) && Seeded(seeded)
    ensures ok ==> multiset(password) == multiset(seeded) && CanBecome(seeded, password, random)
  {
    BothFail(random, length, length - 1);
    var buffer := new char[length];
    seeded, password := "", "";
    ok := Fill(buffer, random);
    if !ok { return; }
    seeded := buffer[..];
    ok := Shuffle(buffer, random);
    if !ok { return; }
    password := buffer[..];
  }
}
