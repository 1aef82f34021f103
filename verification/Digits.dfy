/** Numbers as text: what the C library's conversions read, and what a writer of hexadecimal
    or decimal digits produces. */
module Digits {
  import opened Options

  const ULL_LIMIT: nat := 0x1_0000_0000_0000_0000

  // ---------- digits ----------

  predicate IsDecimal(c: char) {
    '0' <= c <= '9'
  }

  predicate IsHex(c: char) {
    '0' <= c <= '9' || 'a' <= c <= 'f' || 'A' <= c <= 'F'
  }

  function DigitValue(c: char): (v: nat)
    requires IsHex(c)
    ensures v < 16 && (IsDecimal(c) ==> v < 10)
  {
    if c <= '9' then c as int - '0' as int
    else if c <= 'F' then c as int - 'A' as int + 10
    else c as int - 'a' as int + 10
  }

  function Digit(v: nat): (c: char)
    requires v < 16
    ensures IsHex(c) && DigitValue(c) == v && (v < 10 ==> IsDecimal(c))
  {
    "0123456789ABCDEF"[v]
  }

  predicate AllHex(s: string) {
    forall i :: 0 <= i < |s| ==> IsHex(s[i])
  }

  predicate AllDecimal(s: string) {
    forall i :: 0 <= i < |s| ==> IsDecimal(s[i])
  }

  datatype Base = Ten | Sixteen

  function Shift(n: nat, base: Base): nat {
    match base case Ten => 10 * n case Sixteen => 16 * n
  }

  /** The number a string of digits denotes in a base. */
  function Value(s: string, base: Base): nat
    requires AllHex(s)
  {
    if s == "" then 0 else Shift(Value(s[..|s| - 1], base), base) + DigitValue(s[|s| - 1])
  }

  /** One more digit: what each digit is worth. */
  lemma PlaceValue(s: string, c: char)
    requires AllHex(s)
    ensures '0' <= c <= '9' ==>
      && IsDecimal(c) && AllHex(s + [c])
      && Value(s + [c], Ten) == 10 * Value(s, Ten) + (c as int - '0' as int)
      && Value(s + [c], Sixteen) == 16 * Value(s, Sixteen) + (c as int - '0' as int)
    ensures 'a' <= c <= 'f' ==>
      AllHex(s + [c]) && Value(s + [c], Sixteen) == 16 * Value(s, Sixteen) + 10 + (c as int - 'a' as int)
    ensures 'A' <= c <= 'F' ==>
      AllHex(s + [c]) && Value(s + [c], Sixteen) == 16 * Value(s, Sixteen) + 10 + (c as int - 'A' as int)
    ensures Value("", Ten) == 0 && Value("", Sixteen) == 0
  {
    assert (s + [c])[..|s|] == s;
  }

  /** The longest prefix that consists of hexadecimal digits. */
  function HexPrefix(s: string): (p: string)
    ensures AllHex(p) && |p| <= |s| && p == s[..|p|] && (|p| < |s| ==> !IsHex(s[|p|]))
  {
    if s == "" || !IsHex(s[0]) then "" else [s[0]] + HexPrefix(s[1..])
  }

  // ---------- strtoull and stoull in base 16 ----------

  predicate IsSpace(c: char) {
    c == ' ' || '\t' <= c <= '\r'
  }

  function SkipSpaces(s: string): string {
    if s != "" && IsSpace(s[0]) then SkipSpaces(s[1..]) else s
  }

  function SkipPrefix(s: string): string {
    if |s| > 2 && s[0] == '0' && (s[1] == 'x' || s[1] == 'X') && IsHex(s[2]) then s[2..] else s
  }

  /** The digits that are converted, and whether a minus sign stands before them. */
  function Scanned(s: string): (r: (string, bool))
    ensures AllHex(r.0)
  {
    var t := SkipSpaces(s);
    var negative := t != "" && t[0] == '-';
    var u := if t != "" && (t[0] == '-' || t[0] == '+') then t[1..] else t;
    (HexPrefix(SkipPrefix(u)), negative)
  }

  /** strtoull: nothing to convert reads as 0, too large as the largest. */
  function Strtoull(s: string): nat {
    var (digits, negative) := Scanned(s);
    var v := Value(digits, Sixteen);
    if v >= ULL_LIMIT then ULL_LIMIT - 1
    else if negative then (ULL_LIMIT - v) % ULL_LIMIT
    else v
  }

  /** stoull: throws where strtoull reports an error. */
  function Stoull(s: string): Option<nat> {
    var (digits, negative) := Scanned(s);
    if digits == "" || Value(digits, Sixteen) >= ULL_LIMIT then None else Some(Strtoull(s))
  }

  // ---------- writers and their round trips ----------

  /** n in exactly k hexadecimal digits. */
  function HexDigits(n: nat, k: nat): (s: string)
    ensures |s| == k && AllHex(s)
  {
    if k == 0 then "" else HexDigits(n / 16, k - 1) + [Digit(n % 16)]
  }

  function Power16(k: nat): nat {
    if k == 0 then 1 else 16 * Power16(k - 1)
  }

  lemma {:induction false} HexRoundTrip(n: nat, k: nat)
    requires n < Power16(k)
    ensures Value(HexDigits(n, k), Sixteen) == n
  {
    if k > 0 {
      var s := HexDigits(n, k);
      assert s[..|s| - 1] == HexDigits(n / 16, k - 1);
      HexRoundTrip(n / 16, k - 1);
    }
  }

  lemma {:induction false} AllHexIsPrefix(s: string)
    requires AllHex(s)
    ensures HexPrefix(s) == s
  {
    if s != "" {
      AllHexIsPrefix(s[1..]);
    }
  }

  /** A plain string of digits is converted whole. */
  lemma PlainDigits(s: string)
    requires AllHex(s)
    ensures Scanned(s) == (s, false)
  {
    AllHexIsPrefix(s);
    assert SkipSpaces(s) == s;
    assert SkipPrefix(s) == s by { if |s| > 2 { assert IsHex(s[1]); } }
  }

  /** What may stand before the digits: white space, a sign, or "0x". Too large a number reads as
      the largest, and throws in stoull. */
  lemma ConversionLaws(s: string, space: char)
    requires AllHex(s) && space in {' ', '\t', '\n', '\U{B}', '\U{C}', '\r'}
    ensures Value(s, Sixteen) < 0x1_0000_0000_0000_0000 ==>
      var v := Value(s, Sixteen);
      && Strtoull(s) == Strtoull(['+'] + s) == Strtoull([space] + s) == v
      && Strtoull(['-'] + s) == (0x1_0000_0000_0000_0000 - v) % 0x1_0000_0000_0000_0000
      && (s != "" ==> Strtoull("0x" + s) == v && Stoull(s) == Some(v))
    ensures Value(s, Sixteen) >= 0x1_0000_0000_0000_0000 ==>
      Strtoull(s) == Strtoull(['-'] + s) == 0xffff_ffff_ffff_ffff && Stoull(s) == None
    ensures Stoull("") == None
  {
    hide Value, Scanned;
    PlainDigits(s);
    SignBefore(s, '+');
    SignBefore(s, '-');
    SpaceBefore(s, space);
    if s != "" { PrefixBefore(s); }
    PlainDigits("");
  }

  lemma DigitsAlone(s: string)
    requires AllHex(s)
    ensures SkipSpaces(s) == s && SkipPrefix(s) == s && HexPrefix(s) == s
    ensures s != "" ==> s[0] != '-' && s[0] != '+'
  {
    AllHexIsPrefix(s);
    if |s| > 2 { assert IsHex(s[1]); }
  }

  lemma SignBefore(s: string, sign: char)
    requires AllHex(s) && sign in {'+', '-'}
    ensures Scanned([sign] + s) == (s, sign == '-')
  {
    hide HexPrefix, SkipPrefix;
    DigitsAlone(s);
    assert ([sign] + s)[0] == sign && ([sign] + s)[1..] == s;
    assert SkipSpaces([sign] + s) == [sign] + s;
  }

  lemma SpaceBefore(s: string, space: char)
    requires AllHex(s) && space in {' ', '\t', '\n', '\U{B}', '\U{C}', '\r'}
    ensures Scanned([space] + s) == (s, false)
  {
    hide HexPrefix, SkipPrefix;
    DigitsAlone(s);
    assert ([space] + s)[0] == space && ([space] + s)[1..] == s;
    assert SkipSpaces([space] + s) == SkipSpaces(s);
  }

  lemma PrefixBefore(s: string)
    requires AllHex(s) && s != ""
    ensures Scanned("0x" + s) == (s, false)
  {
    hide HexPrefix;
    DigitsAlone(s);
    var t := "0x" + s;
    assert t[0] == '0' && t[1] == 'x' && t[2] == s[0] && t[2..] == s;
    assert SkipSpaces(t) == t && SkipPrefix(t) == s;
  }

  /** Eight hexadecimal digits, as in a newc archive header, are read back. */
  lemma Hex8RoundTrip(n: nat)
    requires n < 0x1_0000_0000
    ensures Strtoull(HexDigits(n, 8)) == n
  {
    assert Power16(8) == 0x1_0000_0000;
    HexRoundTrip(n, 8);
    PlainDigits(HexDigits(n, 8));
  }

  /** std::to_string */
  function Decimal(n: nat): (s: string)
    ensures |s| > 0 && AllDecimal(s)
  {
    if n < 10 then [Digit(n)] else Decimal(n / 10) + [Digit(n % 10)]
  }

  lemma {:induction false} DecimalRoundTrip(n: nat)
    ensures AllHex(Decimal(n)) && Value(Decimal(n), Ten) == n
  {
    var s := Decimal(n);
    if n < 10 {
      assert s[..0] == "";
    } else {
      assert s[..|s| - 1] == Decimal(n / 10);
      DecimalRoundTrip(n / 10);
    }
  }
}
