/** Positional notation over bytes, as `std::stringstream` prints unsigned integers in base 10
    or 16, and `std::stoi` as the downloader uses it to read them back. */
module Digits {
  import opened Basics

  const MAX_INT32: int := 0x7fff_ffff

  predicate IsDigit(c: byte) { 48 <= c <= 57 }

  /** The glyph of one digit: '0'..'9' then 'a'..'f'. */
  function Glyph(d: nat): (c: byte)
    requires d < 16
    ensures d < 10 <==> IsDigit(c)
    ensures HexValue(c) == Some(d)
  {
    if d < 10 then 48 + d else 87 + d
  }

  /** HEXDIG of RFC 5234, either case. */
  function HexValue(c: byte): (v: Option<nat>)
    ensures v.Some? ==> v.value < 16
  {
    if 48 <= c <= 57 then Some(c - 48)
    else if 97 <= c <= 102 then Some(c - 87)
    else if 65 <= c <= 70 then Some(c - 55)
    else None
  }

  /** The two bases in use: `std::dec` for keys, `std::hex` for HTTP chunk sizes. */
  datatype Base = Decimal | Hexadecimal {
    function Size(): nat { if Decimal? then 10 else 16 }

    function High(n: nat): nat { if Decimal? then n / 10 else n / 16 }

    function Low(n: nat): nat { if Decimal? then n % 10 else n % 16 }

    function Join(high: nat, low: nat): nat { if Decimal? then high * 10 + low else high * 16 + low }
  }

  function Print(n: nat, base: Base): (s: Bytes)
    ensures s != []
    ensures base.Decimal? ==> forall c :: c in s ==> IsDigit(c)
    ensures forall c :: c in s ==> HexValue(c).Some?
    decreases n
  {
    if n < base.Size() then [Glyph(n)] else Print(base.High(n), base) + [Glyph(base.Low(n))]
  }

  function Dec(n: nat): Bytes { Print(n, Decimal) }

  function Hex(n: nat): Bytes { Print(n, Hexadecimal) }

  /** Reads digits, most significant first. */
  function Value(s: Bytes, base: Base): nat {
    if s == [] then 0 else base.Join(Value(s[..|s| - 1], base), DigitOf(s[|s| - 1]))
  }

  function DigitOf(c: byte): nat {
    if HexValue(c).Some? then HexValue(c).value else 0
  }

  lemma {:induction false} ValueOfPrint(n: nat, base: Base)
    ensures Value(Print(n, base), base) == n
    decreases n
  {
    var s := Print(n, base);
    if n < base.Size() {
      assert s[..0] == [];
    } else {
      ValueOfPrint(base.High(n), base);
      assert s[..|s| - 1] == Print(base.High(n), base);
    }
  }

  lemma PrintInjective(a: nat, b: nat, base: Base)
    requires Print(a, base) == Print(b, base)
    ensures a == b
  {
    ValueOfPrint(a, base);
    ValueOfPrint(b, base);
  }

  predicate IsSpace(c: byte) { c == 32 || 9 <= c <= 13 }

  function SkipSpaces(s: Bytes): Bytes {
    if s != [] && IsSpace(s[0]) then SkipSpaces(s[1..]) else s
  }

  /** The longest prefix of decimal digits. */
  function DigitPrefix(s: Bytes): Bytes {
    if s != [] && IsDigit(s[0]) then [s[0]] + DigitPrefix(s[1..]) else []
  }

  /** `std::stoi` in base 10: leading blanks, an optional sign, the longest run of digits, the
      rest ignored. `None` is an exception: no digit at all, or a value outside `int`. */
  function Stoi(s: Bytes): (r: Option<int>)
    ensures r.Some? ==> -MAX_INT32 - 1 <= r.value <= MAX_INT32
  {
    var t := SkipSpaces(s);
    var negative := t != [] && t[0] == 45;
    var signed := t != [] && (t[0] == 45 || t[0] == 43);
    var digits := DigitPrefix(if signed then t[1..] else t);
    var magnitude: int := Value(digits, Decimal);
    var v := if negative then -magnitude else magnitude;
    if digits == [] || v > MAX_INT32 || v < -MAX_INT32 - 1 then None else Some(v)
  }

  lemma {:induction false} DigitPrefixOfDigits(s: Bytes)
    requires forall c :: c in s ==> IsDigit(c)
    ensures DigitPrefix(s) == s
  {
    if s != [] {
      assert s[0] in s;
      DigitPrefixOfDigits(s[1..]);
    }
  }

  /** Printing then reading back gives the number exactly when it fits an `int`; beyond that
      the reader throws. */
  lemma StoiOfDec(n: nat)
    ensures Stoi(Dec(n)) == if n <= MAX_INT32 then Some(n) else None
  {
    var s := Dec(n);
    assert s[0] in s;
    assert SkipSpaces(s) == s;
    DigitPrefixOfDigits(s);
    ValueOfPrint(n, Decimal);
  }

  /** Decimal notation: the last digit behind the others, none in front of the first. */
  lemma DecimalText(n: nat, d: nat)
    requires d < 10
    ensures Dec(10 * n + d) == (if n == 0 then [] else Dec(n)) + [48 + d]
  {
    assert (10 * n + d) / 10 == n && (10 * n + d) % 10 == d;
  }

  /** Hexadecimal notation, in lower case. */
  lemma HexText(n: nat, d: nat)
    requires d < 16
    ensures Hex(16 * n + d) == (if n == 0 then [] else Hex(n)) + [if d < 10 then 48 + d else 87 + d]
  {
    assert (16 * n + d) / 16 == n && (16 * n + d) % 16 == d;
  }

  lemma {:induction false} DigitPrefixStops(digits: Bytes, rest: Bytes)
    requires forall c :: c in digits ==> IsDigit(c)
    requires rest == [] || !IsDigit(rest[0])
    ensures DigitPrefix(digits + rest) == digits
  {
    if digits != [] {
      assert digits[0] in digits && (digits + rest)[1..] == digits[1..] + rest;
      DigitPrefixStops(digits[1..], rest);
    } else {
      assert digits + rest == rest;
    }
  }

  lemma DigitsThen(n: nat, rest: Bytes)
    requires rest == [] || !IsDigit(rest[0])
    ensures var t := Dec(n) + rest;
            && t != [] && IsDigit(t[0]) && DigitPrefix(t) == Dec(n) && Value(DigitPrefix(t), Decimal) == n
  {
    assert Dec(n)[0] in Dec(n) && (Dec(n) + rest)[0] == Dec(n)[0];
    DigitPrefixStops(Dec(n), rest);
    ValueOfPrint(n, Decimal);
  }

  /** `std::stoi` on a number with something behind it, and with a sign in front. */
  lemma StoiOfPrefix(n: nat, rest: Bytes)
    requires rest == [] || !IsDigit(rest[0])
    ensures Stoi(Dec(n) + rest) == if n <= MAX_INT32 then Some(n) else None
  {
    DigitsThen(n, rest);
  }

  lemma StoiOfPositive(n: nat, rest: Bytes)
    requires rest == [] || !IsDigit(rest[0])
    ensures Stoi([43] + (Dec(n) + rest)) == if n <= MAX_INT32 then Some(n) else None
  {
    DigitsThen(n, rest);
    assert ([43] + (Dec(n) + rest))[1..] == Dec(n) + rest;
  }

  lemma StoiOfNegative(n: nat, rest: Bytes)
    requires rest == [] || !IsDigit(rest[0])
    ensures var v: int := n; Stoi([45] + (Dec(n) + rest)) == if v <= MAX_INT32 + 1 then Some(-v) else None
  {
    DigitsThen(n, rest);
    assert ([45] + (Dec(n) + rest))[1..] == Dec(n) + rest;
  }

  /** Blanks in front do not matter: spaces, and the controls from tab to carriage return. */
  lemma StoiOfBlank(c: byte, s: Bytes)
    ensures c == 32 || 9 <= c <= 13 ==> Stoi([c] + s) == Stoi(s)
  {
    assert ([c] + s)[1..] == s;
  }

  /** It throws on whatever does not start with a digit, a blank or a sign. */
  lemma StoiThrows(s: Bytes)
    requires s == [] || (!IsDigit(s[0]) && !IsSpace(s[0]) && s[0] != 45 && s[0] != 43)
    ensures Stoi(s) == None
  {
  }
}
