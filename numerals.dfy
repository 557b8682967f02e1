/** The JavaScript built-ins the call-data code leans on: `BigInt(string)`
    (the StringToBigInt conversion of ECMAScript) and `BigInt.prototype.toString()`
    in base 10, over digit strings in bases 2, 8, 10 and 16. */
module Numerals {
  import opened Wrappers

  /** The characters of JavaScript's `\s` class; they are also exactly the
      characters `BigInt(string)` trims (WhiteSpace and LineTerminator). */
  predicate IsJsSpace(c: char) {
    var n := c as int;
    n == 0x09 || n == 0x0A || n == 0x0B || n == 0x0C || n == 0x0D || n == 0x20
    || n == 0xA0 || n == 0x1680 || 0x2000 <= n <= 0x200A || n == 0x2028 || n == 0x2029
    || n == 0x202F || n == 0x205F || n == 0x3000 || n == 0xFEFF
  }

  predicate IsDecDigit(c: char) { '0' <= c <= '9' }

  predicate IsHexDigit(c: char) { IsDecDigit(c) || 'a' <= c <= 'f' || 'A' <= c <= 'F' }

  /** The value of one digit; letters count the same in either case. */
  function DigitValue(c: char): (d: nat)
    requires IsHexDigit(c)
    ensures d < 16
    ensures d < 10 <==> IsDecDigit(c)
  {
    if IsDecDigit(c) then c as int - '0' as int
    else if 'a' <= c <= 'f' then c as int - 'a' as int + 10
    else c as int - 'A' as int + 10
  }

  predicate IsDigitIn(c: char, base: nat) { IsHexDigit(c) && DigitValue(c) < base }

  predicate AllDigits(s: string, base: nat) {
    forall i :: 0 <= i < |s| ==> IsDigitIn(s[i], base)
  }

  /** The number a digit string denotes in `base`, most significant digit first.
      This is the reference meaning of a numeral. */
  function Value(s: string, base: nat): nat
    requires AllDigits(s, base)
  {
    if s == [] then 0 else Value(s[..|s| - 1], base) * base + DigitValue(s[|s| - 1])
  }

  /** The lower-case digit for `d`. */
  function DigitChar(d: nat): (c: char)
    requires d < 16
    ensures IsHexDigit(c) && DigitValue(c) == d
    ensures !('A' <= c <= 'F')
  {
    if d < 10 then ('0' as int + d) as char else ('a' as int + d - 10) as char
  }

  /** Appending a digit multiplies the value by the base and adds the digit. */
  lemma ValueSnoc(p: string, c: char, base: nat)
    requires AllDigits(p, base) && IsDigitIn(c, base)
    ensures AllDigits(p + [c], base)
    ensures Value(p + [c], base) == Value(p, base) * base + DigitValue(c)
  {
    assert (p + [c])[..|p|] == p;
  }

  lemma DivideByBase(n: nat, base: nat)
    requires 2 <= base <= n
    ensures (n / base) * base + n % base == n
    ensures 1 <= n / base < n && n % base < base
  {
  }

  /** The shortest numeral of `n` in `base`, with lower-case letters. */
  function Numeral(n: nat, base: nat): (s: string)
    requires 2 <= base <= 16
    ensures AllDigits(s, base) && Value(s, base) == n
    ensures |s| >= 1 && (s[0] == '0' ==> s == "0")
    decreases n
  {
    if n < base then [DigitChar(n)]
    else
      var q, r := n / base, n % base;
      DivideByBase(n, base);
      var p := Numeral(q, base);
      var c := DigitChar(r);
      ValueSnoc(p, c, base);
      assert (p + [c])[0] == p[0];
      p + [c]
  }

  /** A decimal numeral without redundant leading zeros. */
  predicate IsCanonicalNat(s: string) {
    |s| >= 1 && AllDigits(s, 10) && (s[0] == '0' ==> |s| == 1)
  }

  /** What `BigInt.prototype.toString()` can produce: a canonical numeral,
      optionally preceded by `-` when the value is not zero. */
  predicate IsCanonicalInt(s: string) {
    IsCanonicalNat(s) || (|s| >= 2 && s[0] == '-' && IsCanonicalNat(s[1..]) && s[1] != '0')
  }

  /** `BigInt.prototype.toString()` in base 10. */
  function BigIntToString(n: int): (s: string)
    ensures IsCanonicalInt(s)
    ensures |s| >= 1 && (s[0] == '-' <==> n < 0)
  {
    if n < 0 then
      var d := Numeral(-n, 10);
      assert ("-" + d)[1..] == d;
      "-" + d
    else Numeral(n, 10)
  }

  /** `s` with its leading whitespace removed. */
  function TrimStart(s: string): (r: string)
    ensures |r| <= |s| && r == s[|s| - |r|..]
    ensures forall i :: 0 <= i < |s| - |r| ==> IsJsSpace(s[i])
    ensures r == [] || !IsJsSpace(r[0])
  {
    if s != [] && IsJsSpace(s[0]) then TrimStart(s[1..]) else s
  }

  /** `s` with its trailing whitespace removed. */
  function TrimEnd(s: string): (r: string)
    ensures |r| <= |s| && r == s[..|r|]
    ensures forall i :: |r| <= i < |s| ==> IsJsSpace(s[i])
    ensures r == [] || !IsJsSpace(r[|r| - 1])
  {
    if s != [] && IsJsSpace(s[|s| - 1]) then TrimEnd(s[..|s| - 1]) else s
  }

  /** `r` is the slice of `s` starting at `i`, and `p` holds of every element
      of `s` before and after that slice. */
  ghost predicate SliceAmid<T>(s: seq<T>, r: seq<T>, i: int, p: T -> bool) {
    && 0 <= i <= |s| - |r| && r == s[i..i + |r|]
    && (forall j :: 0 <= j < i ==> p(s[j]))
    && (forall j :: i + |r| <= j < |s| ==> p(s[j]))
  }

  /** A prefix `r` of a suffix `t` of `s` is a slice of `s`; whatever `p` holds
      of outside `t` and of `t` after `r`, it holds of outside the slice. */
  lemma SliceBetween<T>(s: seq<T>, t: seq<T>, r: seq<T>, p: T -> bool)
    requires |t| <= |s| && t == s[|s| - |t|..] && forall j :: 0 <= j < |s| - |t| ==> p(s[j])
    requires |r| <= |t| && r == t[..|r|] && forall j :: |r| <= j < |t| ==> p(t[j])
    ensures SliceAmid(s, r, |s| - |t|, p)
  {
    var i := |s| - |t|;
    forall j | i + |r| <= j < |s|
      ensures p(s[j])
    {
      assert s[j] == t[j - i];
    }
  }

  /** `s` with leading and trailing whitespace removed, as StringToBigInt does. */
  function Trim(s: string): (r: string)
    ensures r == [] || (!IsJsSpace(r[0]) && !IsJsSpace(r[|r| - 1]))
    ensures (s == [] || (!IsJsSpace(s[0]) && !IsJsSpace(s[|s| - 1]))) ==> r == s
  {
    TrimEnd(TrimStart(s))
  }

  /** Trimming removes only leading and trailing whitespace: the result is one
      slice of the input, with nothing but whitespace before and after it. */
  lemma TrimRemovesOnlyEdges(s: string)
    ensures exists i :: SliceAmid(s, Trim(s), i, IsJsSpace)
  {
    SliceBetween(s, TrimStart(s), Trim(s), IsJsSpace);
    assert SliceAmid(s, Trim(s), |s| - |TrimStart(s)|, IsJsSpace);
  }

  /** The radix a `0x`/`0o`/`0b` prefix letter selects, either case; 0 for any other letter. */
  function RadixOf(c: char): nat {
    if c == 'x' || c == 'X' then 16
    else if c == 'o' || c == 'O' then 8
    else if c == 'b' || c == 'B' then 2
    else 0
  }

  /** The value of a non-empty digit string in `base`; `None` when it is empty
      or holds a character that is not a digit of `base`. */
  function ParseDigits(d: string, base: nat): Option<int> {
    if |d| >= 1 && AllDigits(d, base) then Some(Value(d, base)) else None
  }

  /** A trimmed StrIntegerLiteral: the empty string is 0; a radix prefix takes
      digits of that radix and no sign; otherwise an optional sign and decimal digits. */
  function ParseIntegerLiteral(t: string): Option<int> {
    if t == [] then Some(0)
    else if |t| >= 2 && t[0] == '0' && RadixOf(t[1]) != 0 then ParseDigits(t[2..], RadixOf(t[1]))
    else if t[0] == '+' then ParseDigits(t[1..], 10)
    else if t[0] == '-' then
      match ParseDigits(t[1..], 10)
      case Some(v) => Some(-v)
      case None => None
    else ParseDigits(t, 10)
  }

  /** `BigInt(s)` for a string `s`: `None` is the SyntaxError it throws. */
  function StringToBigInt(s: string): Option<int> {
    ParseIntegerLiteral(Trim(s))
  }

  /** `s` without redundant leading zeros (the last digit is always kept). */
  function StripLeadingZeros(s: string): string {
    if |s| > 1 && s[0] == '0' then StripLeadingZeros(s[1..]) else s
  }

  /** A leading zero does not change the value of a numeral. */
  lemma {:induction false} LeadingZeroValue(s: string, base: nat)
    requires 1 <= base && AllDigits(s, base)
    ensures AllDigits("0" + s, base) && Value("0" + s, base) == Value(s, base)
  {
    var z := "0" + s;
    if s != [] {
      assert z[..|z| - 1] == "0" + s[..|s| - 1];
      LeadingZeroValue(s[..|s| - 1], base);
    } else {
      assert z[..|z| - 1] == [];
    }
  }

  /** Stripping leading zeros leaves a canonical numeral of the same value. */
  lemma {:induction false} StripLeadingZerosValue(s: string)
    requires |s| >= 1 && AllDigits(s, 10)
    ensures IsCanonicalNat(StripLeadingZeros(s))
    ensures Value(StripLeadingZeros(s), 10) == Value(s, 10)
  {
    if |s| > 1 && s[0] == '0' {
      StripLeadingZerosValue(s[1..]);
      assert s == "0" + s[1..];
      LeadingZeroValue(s[1..], 10);
    }
  }

  /** A canonical decimal numeral is the numeral of its own value. */
  lemma {:induction false} NumeralOfValue(s: string)
    requires IsCanonicalNat(s)
    ensures Numeral(Value(s, 10), 10) == s
  {
    var p := s[..|s| - 1];
    var d := DigitValue(s[|s| - 1]);
    if |s| == 1 {
      assert p == [];
    } else {
      NumeralOfValue(p);
      assert Value(p, 10) != 0;
      var n := Value(s, 10);
      assert n / 10 == Value(p, 10) && n % 10 == d;
      assert s == p + [s[|s| - 1]];
    }
  }

  /** Every decimal digit string denotes the number whose shortest numeral is
      the string without its leading zeros. */
  lemma DecimalValueNumeral(s: string)
    requires |s| >= 1 && AllDigits(s, 10)
    ensures Numeral(Value(s, 10), 10) == StripLeadingZeros(s)
  {
    StripLeadingZerosValue(s);
    NumeralOfValue(StripLeadingZeros(s));
  }

  /** A decimal digit string, bare or after `-`, is left as it is by trimming. */
  lemma TrimDigits(t: string, d: string)
    requires |d| >= 1 && AllDigits(d, 10) && (t == d || t == "-" + d)
    ensures Trim(t) == t
  {
    assert IsDigitIn(d[|d| - 1], 10) && t[|t| - 1] == d[|d| - 1];
    assert IsDigitIn(d[0], 10);
  }

  /** A string that neither starts nor ends with whitespace is parsed as it stands. */
  lemma StringToBigIntUntrimmed(x: string)
    requires x == [] || (!IsJsSpace(x[0]) && !IsJsSpace(x[|x| - 1]))
    ensures StringToBigInt(x) == ParseIntegerLiteral(x)
  {
  }

  lemma DecimalLiteral(d: string)
    requires |d| >= 1 && AllDigits(d, 10)
    ensures ParseIntegerLiteral(d) == Some(Value(d, 10) as int)
  {
    assert IsDigitIn(d[0], 10);
    if |d| >= 2 {
      assert IsDigitIn(d[1], 10);
    }
  }

  lemma NegativeLiteral(d: string)
    requires |d| >= 1 && AllDigits(d, 10)
    ensures ParseIntegerLiteral("-" + d) == Some(-(Value(d, 10) as int))
  {
    assert ("-" + d)[1..] == d;
  }

  /** `BigInt` reads a plain decimal digit string as its value. */
  lemma StringToBigIntDecimal(d: string)
    requires |d| >= 1 && AllDigits(d, 10)
    ensures StringToBigInt(d) == Some(Value(d, 10) as int)
  {
    TrimDigits(d, d);
    DecimalLiteral(d);
  }

  /** `BigInt` reads `-` followed by decimal digits as the negated value. */
  lemma StringToBigIntNegative(d: string)
    requires |d| >= 1 && AllDigits(d, 10)
    ensures StringToBigInt("-" + d) == Some(-(Value(d, 10) as int))
  {
    TrimDigits("-" + d, d);
    NegativeLiteral(d);
  }

  lemma RadixLiteral(x: char, h: string)
    requires RadixOf(x) != 0 && |h| >= 1 && AllDigits(h, RadixOf(x))
    ensures ParseIntegerLiteral(['0', x] + h) == Some(Value(h, RadixOf(x)) as int)
  {
    assert (['0', x] + h)[2..] == h;
  }

  lemma TrimRadix(x: char, h: string)
    requires RadixOf(x) != 0 && |h| >= 1 && AllDigits(h, RadixOf(x))
    ensures Trim(['0', x] + h) == ['0', x] + h
  {
    var t := ['0', x] + h;
    assert t[|t| - 1] == h[|h| - 1];
    DigitIsNotSpace(h[|h| - 1], RadixOf(x));
  }

  lemma DigitIsNotSpace(c: char, base: nat)
    requires IsDigitIn(c, base)
    ensures !IsJsSpace(c)
  {
  }

  /** A non-empty string of digits of `base`. */
  predicate IsDigitString(d: string, base: nat) {
    |d| >= 1 && AllDigits(d, base)
  }

  /** The trimmed strings `BigInt` accepts (StrIntegerLiteral of ECMAScript):
      the empty string; decimal digits with an optional `+` or `-`; or `0`,
      a radix letter and digits of that radix, without a sign. */
  ghost predicate IsStrIntegerLiteral(t: string) {
    || t == []
    || (exists d :: IsDigitString(d, 10) && (t == d || t == "+" + d || t == "-" + d))
    || (exists x, h :: RadixOf(x) != 0 && IsDigitString(h, RadixOf(x)) && t == ['0', x] + h)
  }

  /** A radix letter is not a decimal digit. */
  lemma RadixLetterIsNotDecimal(c: char)
    requires RadixOf(c) != 0
    ensures !IsDigitIn(c, 10)
  {
  }

  /** The parser accepts exactly the StrIntegerLiteral strings. */
  lemma ParseIntegerLiteralAccepts(t: string)
    ensures ParseIntegerLiteral(t).Some? <==> IsStrIntegerLiteral(t)
  {
    if t == [] {
    } else if |t| >= 2 && t[0] == '0' && RadixOf(t[1]) != 0 {
      var h := t[2..];
      assert t == ['0', t[1]] + h;
      RadixLetterIsNotDecimal(t[1]);
      forall d | IsDigitString(d, 10)
        ensures t != d && t != "+" + d && t != "-" + d
      {
        assert |d| >= 2 ==> IsDigitIn(d[1], 10);
      }
      forall x, h' | RadixOf(x) != 0 && IsDigitString(h', RadixOf(x)) && t == ['0', x] + h'
        ensures IsDigitString(h, RadixOf(t[1]))
      {
        assert x == t[1] && h' == h;
      }
    } else if t[0] == '+' || t[0] == '-' {
      var d := t[1..];
      assert t == [t[0]] + d;
      forall d' | IsDigitString(d', 10) && (t == d' || t == "+" + d' || t == "-" + d')
        ensures IsDigitString(d, 10)
      {
        assert t != d' by { assert IsDigitIn(d'[0], 10); }
        assert d' == d;
      }
    } else {
      if ParseDigits(t, 10).Some? {
        assert IsDigitString(t, 10);
      }
      forall d | IsDigitString(d, 10) && (t == d || t == "+" + d || t == "-" + d)
        ensures t == d
      {
        assert ("+" + d)[0] == '+' && ("-" + d)[0] == '-';
      }
      forall x, h | RadixOf(x) != 0 && IsDigitString(h, RadixOf(x))
        ensures t != ['0', x] + h
      {
      }
    }
  }

  /** `BigInt` of a string is defined exactly when its trimmed form is a StrIntegerLiteral. */
  lemma StringToBigIntAccepts(s: string)
    ensures StringToBigInt(s).Some? <==> IsStrIntegerLiteral(Trim(s))
  {
    ParseIntegerLiteralAccepts(Trim(s));
  }

  lemma PlusLiteral(d: string)
    requires IsDigitString(d, 10)
    ensures ParseIntegerLiteral("+" + d) == Some(Value(d, 10) as int)
  {
    assert ("+" + d)[1..] == d;
  }

  /** `BigInt` reads `+` followed by decimal digits as their value. */
  lemma StringToBigIntPlus(d: string)
    requires IsDigitString(d, 10)
    ensures StringToBigInt("+" + d) == Some(Value(d, 10) as int)
  {
    var t := "+" + d;
    assert t[|t| - 1] == d[|d| - 1] && IsDigitIn(d[|d| - 1], 10);
    DigitIsNotSpace(d[|d| - 1], 10);
    PlusLiteral(d);
  }

  /** `BigInt` reads `0x`, `0o` or `0b` (either case) and digits of that radix as their value. */
  lemma StringToBigIntRadix(x: char, h: string)
    requires RadixOf(x) != 0 && |h| >= 1 && AllDigits(h, RadixOf(x))
    ensures StringToBigInt(['0', x] + h) == Some(Value(h, RadixOf(x)) as int)
  {
    TrimRadix(x, h);
    RadixLiteral(x, h);
  }

  /** `BigInt(n.toString()) == n` for every integer `n`. */
  lemma BigIntToStringRoundTrip(n: int)
    ensures StringToBigInt(BigIntToString(n)) == Some(n)
  {
    if n < 0 {
      StringToBigIntNegative(Numeral(-n, 10));
    } else {
      StringToBigIntDecimal(Numeral(n, 10));
    }
  }

  /** `BigInt(s).toString() == s` for every canonical integer string `s`. */
  lemma CanonicalRoundTrip(s: string)
    requires IsCanonicalInt(s)
    ensures StringToBigInt(s).Some? && BigIntToString(StringToBigInt(s).value) == s
  {
    if IsCanonicalNat(s) {
      CanonicalNatRoundTrip(s);
    } else {
      var d := s[1..];
      assert s == "-" + d;
      CanonicalNegativeRoundTrip(d);
    }
  }

  lemma CanonicalNatRoundTrip(d: string)
    requires IsCanonicalNat(d)
    ensures StringToBigInt(d) == Some(Value(d, 10) as int)
    ensures BigIntToString(Value(d, 10)) == d
  {
    StringToBigIntDecimal(d);
    NumeralOfValue(d);
  }

  lemma CanonicalNegativeRoundTrip(d: string)
    requires IsCanonicalNat(d) && d[0] != '0'
    ensures StringToBigInt("-" + d) == Some(-(Value(d, 10) as int))
    ensures BigIntToString(-(Value(d, 10) as int)) == "-" + d
  {
    StringToBigIntNegative(d);
    NegativeRendering(d);
  }

  lemma NegativeRendering(d: string)
    requires IsCanonicalNat(d) && d[0] != '0'
    ensures BigIntToString(-(Value(d, 10) as int)) == "-" + d
  {
    NumeralOfValue(d);
  }

  /** The upper-case form of a hexadecimal digit. */
  function UpperDigit(c: char): (u: char)
    requires IsHexDigit(c)
    ensures IsHexDigit(u) && DigitValue(u) == DigitValue(c)
    ensures !('a' <= u <= 'f')
  {
    if 'a' <= c <= 'f' then (c as int - 'a' as int + 'A' as int) as char else c
  }

  /** `s` with every letter digit in upper case. */
  function UpperHex(s: string): (r: string)
    requires AllDigits(s, 16)
  {
    seq(|s|, i requires 0 <= i < |s| => UpperDigit(s[i]))
  }

  /** Two digit strings whose digits have the same values, place by place, have the same value. */
  lemma {:induction false} ValueDigitwise(s: string, u: string, base: nat)
    requires AllDigits(s, base) && AllDigits(u, base) && |s| == |u|
    requires forall i :: 0 <= i < |s| ==> DigitValue(s[i]) == DigitValue(u[i])
    ensures Value(s, base) == Value(u, base)
  {
    if s != [] {
      ValueDigitwise(s[..|s| - 1], u[..|u| - 1], base);
    }
  }

  /** Hexadecimal digits mean the same in either case. */
  lemma UpperHexValue(s: string)
    requires AllDigits(s, 16)
    ensures AllDigits(UpperHex(s), 16) && Value(UpperHex(s), 16) == Value(s, 16)
  {
    ValueDigitwise(s, UpperHex(s), 16);
  }
}
