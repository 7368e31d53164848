/** Base 64 (section 4 of RFC 4648), padded as in records and unpadded as in index keys
    (section 3.2), as internal/store/history.go uses it. */
module Base64 {
  import opened Store

  function Symbol(v: nat): (c: char)
    requires v < 64
    ensures '+' <= c <= 'z' && c != '='
  {
    if v < 26 then ('A' as int + v) as char
    else if v < 52 then ('a' as int + v - 26) as char
    else if v < 62 then ('0' as int + v - 52) as char
    else if v == 62 then '+' else '/'
  }

  function Digit(c: char): (d: Option<nat>)
    ensures d.Some? ==> d.value < 64
  {
    if 'A' <= c <= 'Z' then Some(c as int - 'A' as int)
    else if 'a' <= c <= 'z' then Some(c as int - 'a' as int + 26)
    else if '0' <= c <= '9' then Some(c as int - '0' as int + 52)
    else if c == '+' then Some(62)
    else if c == '/' then Some(63)
    else None
  }

  lemma DigitOfSymbol(v: nat)
    requires v < 64
    ensures Digit(Symbol(v)) == Some(v)
  {
  }

  predicate Plain(s: string) {
    forall i :: 0 <= i < |s| ==> '+' <= s[i] <= 'z' && s[i] != '='
  }

  /** One group: one to three bytes become one more symbols. */
  function EncodeGroup(b: Bytes): (s: string)
    requires 1 <= |b| <= 3
    ensures |s| == |b| + 1 && Plain(s)
  {
    if |b| == 1 then [Symbol(b[0] / 4), Symbol(b[0] % 4 * 16)]
    else if |b| == 2 then [Symbol(b[0] / 4), Symbol(b[0] % 4 * 16 + b[1] / 16), Symbol(b[1] % 16 * 4)]
    else [Symbol(b[0] / 4), Symbol(b[0] % 4 * 16 + b[1] / 16), Symbol(b[1] % 16 * 4 + b[2] / 64), Symbol(b[2] % 64)]
  }

  function EncodeRaw(b: Bytes): (s: string)
    ensures Plain(s) && (|s| == 0 <==> |b| == 0)
  {
    if |b| == 0 then "" else if |b| <= 3 then EncodeGroup(b) else EncodeGroup(b[..3]) + EncodeRaw(b[3..])
  }

  /** The bytes of one group of two to four symbols; unused trailing bits are ignored. */
  function DecodeGroup(g: string): (b: Option<Bytes>)
    requires 2 <= |g| <= 4
  {
    var d0, d1 := Digit(g[0]), Digit(g[1]);
    if d0.None? || d1.None? then None
    else
      var first: Byte := d0.value * 4 + d1.value / 16;
      if |g| == 2 then Some([first])
      else
        var d2 := Digit(g[2]);
        if d2.None? then None
        else
          var second: Byte := d1.value % 16 * 16 + d2.value / 4;
          if |g| == 3 then Some([first, second])
          else
            var d3 := Digit(g[3]);
            if d3.None? then None
            else
              var third: Byte := d2.value % 4 * 64 + d3.value;
              Some([first, second, third])
  }

  function DecodeRaw(s: string): Option<Bytes> {
    if |s| == 0 then Some([])
    else if |s| == 1 then None
    else if |s| <= 4 then DecodeGroup(s)
    else
      match (DecodeGroup(s[..4]), DecodeRaw(s[4..]))
      case (Some(b), Some(rest)) => Some(b + rest)
      case _ => None
  }

  lemma Regroup(x: Byte, y: Byte, z: Byte)
    ensures x / 4 * 4 + (x % 4 * 16 + y / 16) / 16 == x
    ensures (x % 4 * 16 + y / 16) % 16 * 16 + (y % 16 * 4 + z / 64) / 4 == y
    ensures (y % 16 * 4 + z / 64) % 4 * 64 + z % 64 == z
  {
  }

  lemma OneByte(x: Byte)
    ensures DecodeGroup(EncodeGroup([x])) == Some([x])
  {
    Regroup(x, 0, 0);
    DigitOfSymbol(x / 4);
    DigitOfSymbol(x % 4 * 16);
  }

  lemma TwoBytes(x: Byte, y: Byte)
    ensures DecodeGroup(EncodeGroup([x, y])) == Some([x, y])
  {
    TwoSymbols(x, y);
    Regroup(x, y, 0);
    ThreeDigits(x / 4, x % 4 * 16 + y / 16, y % 16 * 4);
  }

  lemma TwoSymbols(x: Byte, y: Byte)
    ensures EncodeGroup([x, y]) == [Symbol(x / 4), Symbol(x % 4 * 16 + y / 16), Symbol(y % 16 * 4)]
  {
  }

  lemma ThreeDigits(a: nat, b: nat, c: nat)
    requires a < 64 && b < 64 && c < 64
    ensures DecodeGroup([Symbol(a), Symbol(b), Symbol(c)]) == Some([a * 4 + b / 16, b % 16 * 16 + c / 4])
  {
    DigitOfSymbol(a);
    DigitOfSymbol(b);
    DigitOfSymbol(c);
  }

  lemma ThreeSymbols(x: Byte, y: Byte, z: Byte)
    ensures EncodeGroup([x, y, z]) ==
      [Symbol(x / 4), Symbol(x % 4 * 16 + y / 16), Symbol(y % 16 * 4 + z / 64), Symbol(z % 64)]
  {
  }

  lemma ThreeBytes(x: Byte, y: Byte, z: Byte)
    ensures DecodeGroup(EncodeGroup([x, y, z])) == Some([x, y, z])
  {
    ThreeSymbols(x, y, z);
    Regroup(x, y, z);
    FourDigits(x / 4, x % 4 * 16 + y / 16, y % 16 * 4 + z / 64, z % 64);
  }

  lemma FourDigits(a: nat, b: nat, c: nat, d: nat)
    requires a < 64 && b < 64 && c < 64 && d < 64
    ensures DecodeGroup([Symbol(a), Symbol(b), Symbol(c), Symbol(d)]) ==
              Some([a * 4 + b / 16, b % 16 * 16 + c / 4, c % 4 * 64 + d])
  {
    DigitOfSymbol(a);
    DigitOfSymbol(b);
    DigitOfSymbol(c);
    DigitOfSymbol(d);
  }

  lemma GroupRoundTrip(b: Bytes)
    requires 1 <= |b| <= 3
    ensures DecodeGroup(EncodeGroup(b)) == Some(b)
  {
    if |b| == 1 { OneByte(b[0]); assert b == [b[0]]; }
    else if |b| == 2 { TwoBytes(b[0], b[1]); assert b == [b[0], b[1]]; }
    else { ThreeBytes(b[0], b[1], b[2]); assert b == [b[0], b[1], b[2]]; }
  }

  lemma {:induction false} RawRoundTrip(b: Bytes)
    ensures DecodeRaw(EncodeRaw(b)) == Some(b)
  {
    if |b| > 3 {
      var s := EncodeRaw(b);
      GroupRoundTrip(b[..3]);
      RawRoundTrip(b[3..]);
      assert s[..4] == EncodeGroup(b[..3]) && s[4..] == EncodeRaw(b[3..]);
      assert b == b[..3] + b[3..];
    } else if |b| > 0 {
      GroupRoundTrip(b);
    }
  }

  lemma RawInjective(a: Bytes, b: Bytes)
    requires EncodeRaw(a) == EncodeRaw(b)
    ensures a == b
  {
    RawRoundTrip(a);
    RawRoundTrip(b);
  }

  // ----- Padded form -----

  function Encode(b: Bytes): string {
    EncodeRaw(b) + Padding(|b|)
  }

  function Padding(length: nat): (pad: string)
    ensures pad == "" || pad == "=" || pad == "=="
    ensures length == 0 ==> pad == ""
  {
    if length % 3 == 0 then "" else if length % 3 == 1 then "==" else "="
  }

  /** The decoder skips line breaks, as Go's does. */
  function WithoutBreaks(s: string): string {
    if s == "" then "" else (if s[0] == '\n' || s[0] == '\r' then "" else [s[0]]) + WithoutBreaks(s[1..])
  }

  function Decode(s: string): Option<Bytes> {
    var t := WithoutBreaks(s);
    if |t| % 4 != 0 then None else DecodeRaw(WithoutPadding(t))
  }

  function WithoutPadding(t: string): string {
    var n := |t|;
    if n < 2 || t[n - 1] != '=' then t else if t[n - 2] == '=' then t[..n - 2] else t[..n - 1]
  }

  lemma {:induction false} NoBreaks(s: string)
    requires forall i :: 0 <= i < |s| ==> s[i] >= '+'
    ensures WithoutBreaks(s) == s
  {
    if s != "" {
      NoBreaks(s[1..]);
    }
  }

  lemma LongerByAGroup(b: Bytes)
    requires |b| > 3
    ensures |EncodeRaw(b)| == 4 + |EncodeRaw(b[3..])|
  {
  }

  lemma ShortLength(b: Bytes)
    requires |b| <= 3
    ensures |EncodeRaw(b)| + |Padding(|b|)| == 4 * Groups(|b|)
  {
  }

  /** Three bytes to a group, the last one padded. */
  function Groups(length: nat): nat {
    if length == 0 then 0 else if length <= 3 then 1 else 1 + Groups(length - 3)
  }

  lemma {:induction false} RawLength(b: Bytes)
    ensures |EncodeRaw(b)| + |Padding(|b|)| == 4 * Groups(|b|)
  {
    if |b| > 3 {
      RawLength(b[3..]);
      LongerByAGroup(b);
      PaddingRepeats(|b|);
    } else {
      ShortLength(b);
    }
  }

  lemma PaddingRepeats(length: nat)
    requires length >= 3
    ensures Padding(length) == Padding(length - 3)
  {
  }

  lemma ShortVectors()
    ensures EncodeGroup([102]) == "Zg" && EncodeGroup([102, 111]) == "Zm8" && EncodeGroup([102, 111, 111]) == "Zm9v"
  {
    OneSymbolPair(102);
    TwoSymbols(102, 111);
    ThreeSymbols(102, 111, 111);
  }

  lemma OneSymbolPair(x: Byte)
    ensures EncodeGroup([x]) == [Symbol(x / 4), Symbol(x % 4 * 16)]
  {
  }

  lemma LongVectors()
    ensures EncodeGroup([98]) == "Yg" && EncodeGroup([98, 97]) == "YmE" && EncodeGroup([98, 97, 114]) == "YmFy"
  {
    OneSymbolPair(98);
    TwoSymbols(98, 97);
    ThreeSymbols(98, 97, 114);
  }

  lemma OneGroup(b: Bytes)
    requires 1 <= |b| <= 3
    ensures Encode(b) == EncodeGroup(b) + Padding(|b|)
  {
  }

  lemma TwoGroups(a: Bytes, b: Bytes)
    requires |a| == 3 && 1 <= |b| <= 3
    ensures Encode(a + b) == EncodeGroup(a) + EncodeGroup(b) + Padding(|b|)
  {
    assert (a + b)[..3] == a && (a + b)[3..] == b;
    assert EncodeRaw(b) == EncodeGroup(b) && EncodeRaw(a + b) == EncodeGroup(a) + EncodeRaw(b);
    assert |a + b| - 3 == |b|;
    PaddingRepeats(|a + b|);
  }

  /** The test vectors of section 10 of RFC 4648. */
  lemma TestVectors()
    ensures Encode([]) == ""
    ensures Encode([102]) == "Zg==" && Encode([102, 111]) == "Zm8=" && Encode([102, 111, 111]) == "Zm9v"
  {
    ShortVectors();
    OneGroup([102]);
    OneGroup([102, 111]);
    OneGroup([102, 111, 111]);
  }

  lemma MoreTestVectors()
    ensures Encode([102, 111, 111] + [98]) == "Zm9vYg==" && Encode([102, 111, 111] + [98, 97]) == "Zm9vYmE="
    ensures Encode([102, 111, 111] + [98, 97, 114]) == "Zm9vYmFy"
  {
    ShortVectors();
    LongVectors();
    TwoGroups([102, 111, 111], [98]);
    TwoGroups([102, 111, 111], [98, 97]);
    TwoGroups([102, 111, 111], [98, 97, 114]);
  }

  lemma Quarters(n: nat, k: nat)
    requires n == 4 * k
    ensures n % 4 == 0
  {
  }

  lemma PaddingEnds(raw: string, pad: string)
    requires Plain(raw) && (pad == "" || (raw != "" && (pad == "=" || pad == "==")))
    ensures WithoutPadding(raw + pad) == raw
  {
    assert (raw + pad)[..|raw|] == raw;
  }

  lemma RoundTrip(b: Bytes)
    ensures Decode(Encode(b)) == Some(b)
  {
    var raw, pad := EncodeRaw(b), Padding(|b|);
    RawLength(b);
    Quarters(|Encode(b)|, Groups(|b|));
    NoBreaks(Encode(b));
    PaddingEnds(raw, pad);
    RawRoundTrip(b);
  }
}
