/**
 * The string operations the application relies on: Python's `str(int)`,
 * `str.strip()`, `str.replace`, the substring test `sub in s`, and the
 * POSIX forms of `os.path.basename` and `os.path.splitext`, and the two
 * ways text becomes a number: pandas' `to_numeric` and Python's `float`.
 */
module Text {
  import opened Wrappers

  /** Python's `str.isspace()` for one character: the characters `str.strip()` removes. */
  predicate IsSpace(ch: char) {
    var n := ch as int;
    n == 32 || 9 <= n <= 13 || 28 <= n <= 31 || n == 0x85 || n == 0xA0 || n == 0x1680
    || 0x2000 <= n <= 0x200A || n == 0x2028 || n == 0x2029 || n == 0x202F || n == 0x205F
    || n == 0x3000
  }

  predicate AllSpace(s: string) {
    forall i :: 0 <= i < |s| ==> IsSpace(s[i])
  }

  /** The number of whitespace characters at the start of `s`. */
  function LeadingSpaces(s: string): (n: nat)
    ensures n <= |s|
    ensures forall i :: 0 <= i < n ==> IsSpace(s[i])
    ensures n < |s| ==> !IsSpace(s[n])
  {
    if |s| > 0 && IsSpace(s[0]) then 1 + LeadingSpaces(s[1..]) else 0
  }

  /** The number of whitespace characters at the end of `s`. */
  function TrailingSpaces(s: string): (n: nat)
    ensures n <= |s|
    ensures forall i :: |s| - n <= i < |s| ==> IsSpace(s[i])
    ensures n < |s| ==> !IsSpace(s[|s| - n - 1])
  {
    if |s| > 0 && IsSpace(s[|s| - 1]) then 1 + TrailingSpaces(s[..|s| - 1]) else 0
  }

  /** Python's `s.strip()`. */
  function Strip(s: string): (r: string)
    ensures LeadingSpaces(s) + |r| <= |s|
    ensures r == s[LeadingSpaces(s)..LeadingSpaces(s) + |r|]
    ensures forall i :: LeadingSpaces(s) + |r| <= i < |s| ==> IsSpace(s[i])
    ensures |r| > 0 ==> !IsSpace(r[0]) && !IsSpace(r[|r| - 1])
  {
    var a := LeadingSpaces(s);
    var t := s[a..];
    var n := TrailingSpaces(t);
    StripBounds(s, a, t, n);
    t[..|t| - n]
  }

  /** Cutting n trailing spaces off the part of `s` after its a leading spaces. */
  lemma StripBounds(s: string, a: nat, t: string, n: nat)
    requires a <= |s| && t == s[a..] && n <= |t|
    requires a < |s| ==> !IsSpace(s[a])
    requires forall i :: |t| - n <= i < |t| ==> IsSpace(t[i])
    requires n < |t| ==> !IsSpace(t[|t| - n - 1])
    ensures a + (|t| - n) <= |s| && t[..|t| - n] == s[a..a + (|t| - n)]
    ensures forall i :: a + (|t| - n) <= i < |s| ==> IsSpace(s[i])
    ensures |t| - n > 0 ==> !IsSpace(t[..|t| - n][0]) && !IsSpace(t[..|t| - n][|t| - n - 1])
  {
    forall i | a + (|t| - n) <= i < |s| ensures IsSpace(s[i]) {
      assert s[i] == t[i - a];
    }
  }

  lemma StripIdempotent(s: string)
    ensures Strip(Strip(s)) == Strip(s)
  {
    var r := Strip(s);
    if |r| > 0 {
      assert LeadingSpaces(r) == 0;
      assert TrailingSpaces(r) == 0;
    }
  }

  /** Stripping only removes characters: a character absent from `s` is absent from the result. */
  lemma StripKeepsCharacters(s: string, ch: char)
    requires ch !in s
    ensures ch !in Strip(s)
  {
    var a := LeadingSpaces(s);
    var r := Strip(s);
    forall i | 0 <= i < |r| ensures r[i] != ch {
      assert r[i] == s[a + i];
    }
  }

  /** Python's `s.replace(from, to)` for single characters. */
  function ReplaceChar(s: string, from: char, to: char): (r: string)
    ensures |r| == |s|
    ensures forall i :: 0 <= i < |s| ==> r[i] == (if s[i] == from then to else s[i])
    ensures from != to ==> from !in r
  {
    seq(|s|, i requires 0 <= i < |s| => if s[i] == from then to else s[i])
  }

  /** Python's substring test `sub in s`. */
  predicate HasInfix(s: string, sub: string)
  {
    exists i :: 0 <= i <= |s| && OccursAt(s, sub, i)
  }

  /** `sub` occurs in `s` starting at position i. */
  predicate OccursAt(s: string, sub: string, i: int)
  {
    0 <= i && i + |sub| <= |s| && s[i..i + |sub|] == sub
  }

  /** The position of the last occurrence of `ch` in `s`, or -1 (Python's `s.rfind(ch)`). */
  function LastIndexOf(s: string, ch: char): (p: int)
    ensures -1 <= p < |s|
    ensures p >= 0 ==> s[p] == ch
    ensures forall i :: p < i < |s| ==> s[i] != ch
  {
    if |s| == 0 then -1
    else if s[|s| - 1] == ch then |s| - 1
    else LastIndexOf(s[..|s| - 1], ch)
  }

  /** POSIX `os.path.basename(p)`: everything after the last `/`. */
  function Basename(p: string): (r: string)
    ensures '/' !in r
    ensures |r| <= |p| && r == p[|p| - |r|..]
    ensures |r| < |p| ==> p[|p| - |r| - 1] == '/'
  {
    p[LastIndexOf(p, '/') + 1..]
  }

  predicate AllDots(s: string) {
    forall i :: 0 <= i < |s| ==> s[i] == '.'
  }

  /**
   * The root that POSIX `os.path.splitext` returns for a name without `/`:
   * the name cut before its last `.`, unless only dots precede that `.`.
   */
  function SplitExtRoot(name: string): (root: string)
    requires '/' !in name
    ensures |root| <= |name| && name[..|root|] == root
    ensures var d := LastIndexOf(name, '.');
      (|root| < |name| <==> d >= 0 && !AllDots(name[..d]))
      && (|root| < |name| ==> |root| == d)
  {
    var d := LastIndexOf(name, '.');
    if d >= 0 && !AllDots(name[..d]) then name[..d] else name
  }

  /** A decimal digit for `0 <= d < 10`. */
  function Digit(d: nat): char
    requires d < 10
  {
    "0123456789"[d]
  }

  /** Python's `str(n)` for a natural number. */
  function NatToString(n: nat): (s: string)
    ensures |s| >= 1
    ensures forall i :: 0 <= i < |s| ==> '0' <= s[i] <= '9'
    decreases n
  {
    if n < 10 then [Digit(n)] else NatToString(n / 10) + [Digit(n % 10)]
  }

  lemma {:induction false} NatToStringLong(n: nat)
    requires n >= 10
    ensures |NatToString(n)| >= 2
  {
    assert NatToString(n) == NatToString(n / 10) + [Digit(n % 10)];
  }

  lemma DigitInjective(a: nat, b: nat)
    requires a < 10 && b < 10 && Digit(a) == Digit(b)
    ensures a == b
  {
  }

  /** Distinct numbers have distinct decimal forms. */
  lemma {:induction false} NatToStringInjective(a: nat, b: nat)
    requires NatToString(a) == NatToString(b)
    ensures a == b
    decreases a
  {
    if a < 10 && b < 10 {
      DigitInjective(a, b);
    } else if a < 10 {
      NatToStringLong(b);
    } else if b < 10 {
      NatToStringLong(a);
    } else {
      var sa, sb := NatToString(a), NatToString(b);
      assert sa == NatToString(a / 10) + [Digit(a % 10)];
      assert sb == NatToString(b / 10) + [Digit(b % 10)];
      assert sa[|sa| - 1] == Digit(a % 10) && sb[|sb| - 1] == Digit(b % 10);
      DigitInjective(a % 10, b % 10);
      assert sa[..|sa| - 1] == NatToString(a / 10);
      assert sb[..|sb| - 1] == NatToString(b / 10);
      NatToStringInjective(a / 10, b / 10);
    }
  }

  predicate IsDigit(ch: char) {
    '0' <= ch <= '9'
  }

  predicate AllDigits(s: string) {
    forall i :: 0 <= i < |s| ==> IsDigit(s[i])
  }

  /** The text after one leading `+` or `-`, if there is one. */
  function Unsigned(s: string): (u: string)
    ensures |u| <= |s| && u == s[|s| - |u|..]
    ensures |u| < |s| <==> |s| > 0 && (s[0] == '+' || s[0] == '-')
  {
    if |s| > 0 && (s[0] == '+' || s[0] == '-') then s[1..] else s
  }

  /** Digits, at least one of them, with at most one `.` among them (`12`, `1.5`, `.5`, `5.`). */
  predicate IsMantissa(m: string) {
    var p := DotAt(m);
    && AllDigits(m[..p])
    && (p < |m| ==> AllDigits(m[p + 1..]))
    && |m| >= (if p < |m| then 2 else 1)
  }

  /** The position of the first `.` in `m`, or `|m|`. */
  function DotAt(m: string): (p: nat)
    ensures p <= |m|
    ensures forall i :: 0 <= i < p ==> m[i] != '.'
    ensures p < |m| ==> m[p] == '.'
  {
    if |m| == 0 || m[0] == '.' then 0 else 1 + DotAt(m[1..])
  }

  /** A mantissa starts with a digit or its `.`. */
  lemma MantissaStart(m: string)
    requires IsMantissa(m)
    ensures |m| > 0 && (IsDigit(m[0]) || m[0] == '.')
  {
    if DotAt(m) > 0 {
      assert m[0] == m[..DotAt(m)][0];
    }
  }

  /** An optional sign, then at least one digit. */
  predicate IsExponentText(x: string) {
    |Unsigned(x)| > 0 && AllDigits(Unsigned(x))
  }

  /** The position of the first `e` or `E` in `s`, or `|s|`. */
  function ExponentAt(s: string): (e: nat)
    ensures e <= |s|
    ensures forall i :: 0 <= i < e ==> s[i] != 'e' && s[i] != 'E'
    ensures e < |s| ==> s[e] == 'e' || s[e] == 'E'
  {
    if |s| == 0 || s[0] == 'e' || s[0] == 'E' then 0 else 1 + ExponentAt(s[1..])
  }

  /**
   * A decimal floating-point literal: an optional sign, a mantissa and an
   * optional exponent `e` or `E` with its own optional sign (`-1.5e-3`).
   */
  predicate IsFloatLiteral(t: string) {
    IsUnsignedLiteral(Unsigned(t))
  }

  /** A float literal without its sign: a mantissa and an optional exponent. */
  predicate IsUnsignedLiteral(b: string) {
    var e := ExponentAt(b);
    IsMantissa(b[..e]) && (e < |b| ==> IsExponentText(b[e + 1..]))
  }

  /** ASCII lower case; other characters are kept. */
  function LowerAscii(s: string): (r: string)
    ensures |r| == |s|
    ensures forall i :: 0 <= i < |s| ==> r[i] == if 'A' <= s[i] <= 'Z' then (s[i] as int + 32) as char else s[i]
  {
    seq(|s|, i requires 0 <= i < |s| => if 'A' <= s[i] <= 'Z' then (s[i] as int + 32) as char else s[i])
  }

  /** `inf` or `infinity` in any case, optionally signed. */
  predicate IsInfSpelling(s: string) {
    LowerAscii(Unsigned(s)) == "inf" || LowerAscii(Unsigned(s)) == "infinity"
  }

  /** `nan` in any case, optionally signed. */
  predicate IsNanSpelling(s: string) {
    LowerAscii(Unsigned(s)) == "nan"
  }

  /** The blanks pandas' number parser skips around a number: space, tab, newline, vertical tab, form feed, carriage return. */
  predicate IsAsciiSpace(ch: char) {
    ch == ' ' || '\t' <= ch <= '\r'
  }

  /** `s` without the ASCII blanks at its start. */
  function TrimAsciiStart(s: string): (r: string)
    ensures |r| <= |s| && r == s[|s| - |r|..]
    ensures forall i :: 0 <= i < |s| - |r| ==> IsAsciiSpace(s[i])
    ensures |r| > 0 ==> !IsAsciiSpace(r[0])
  {
    if |s| > 0 && IsAsciiSpace(s[0]) then TrimAsciiStart(s[1..]) else s
  }

  /** `s` without the ASCII blanks at its end. */
  function TrimAsciiEnd(s: string): (r: string)
    ensures |r| <= |s| && r == s[..|r|]
    ensures forall i :: |r| <= i < |s| ==> IsAsciiSpace(s[i])
    ensures |r| > 0 ==> !IsAsciiSpace(r[|r| - 1])
  {
    if |s| > 0 && IsAsciiSpace(s[|s| - 1]) then TrimAsciiEnd(s[..|s| - 1]) else s
  }

  /**
   * A text that pandas' `to_numeric(..., errors='coerce')` turns into a number
   * rather than NaN: a float literal with ASCII blanks around it, or an
   * infinity spelt `inf` or `infinity` in any case with an optional sign and
   * no blanks. `nan` and the other missing-value spellings give NaN.
   */
  predicate IsPandasNumber(s: string) {
    IsInfSpelling(s) || IsFloatLiteral(TrimAsciiEnd(TrimAsciiStart(s)))
  }

  /** 10 to the power k. */
  function Pow10(k: nat): (p: nat)
    ensures p >= 1
  {
    if k == 0 then 1 else 10 * Pow10(k - 1)
  }

  /** The number a string of decimal digits spells. */
  function DigitsValue(d: string): nat
    requires AllDigits(d)
  {
    if d == [] then 0 else 10 * DigitsValue(d[..|d| - 1]) + (d[|d| - 1] as int - '0' as int)
  }

  /** The digits of a mantissa before and after its `.`. */
  function MantissaDigits(m: string): (r: (string, string))
    requires IsMantissa(m)
    ensures AllDigits(r.0) && AllDigits(r.1)
    ensures m == if DotAt(m) < |m| then r.0 + "." + r.1 else r.0
  {
    var p := DotAt(m);
    if p < |m| then
      assert m == m[..p] + "." + m[p + 1..];
      (m[..p], m[p + 1..])
    else
      assert m[..p] == m;
      (m, "")
  }

  /**
   * A mantissa times 10 to the power e: its digits read as one whole number,
   * shifted left by e and right by the number of digits after the `.`.
   */
  function MantissaScaled(m: string, e: int): real
    requires IsMantissa(m)
  {
    var r := MantissaDigits(m);
    Scaled(DigitsValue(r.0 + r.1) as real, e - |r.1|)
  }

  /** The value of an exponent text: its digits, negated after a `-`. */
  function ExponentValue(x: string): int
    requires IsExponentText(x)
  {
    if x[0] == '-' then -(DigitsValue(Unsigned(x)) as int) else DigitsValue(Unsigned(x))
  }

  /** v times 10 to the power e, one factor of 10 at a time. */
  function Scaled(v: real, e: int): real
    decreases if e >= 0 then e else -e
  {
    if e == 0 then v else if e > 0 then 10.0 * Scaled(v, e - 1) else Scaled(v, e + 1) / 10.0
  }

  /** The exact value a float literal spells (rounding to a double is not modelled). */
  function LiteralValue(t: string): real
    requires IsFloatLiteral(t)
  {
    if |t| > 0 && t[0] == '-' then -UnsignedValue(Unsigned(t)) else UnsignedValue(Unsigned(t))
  }

  /** The value of a float literal without its sign: the mantissa scaled by the exponent. */
  function UnsignedValue(b: string): real
    requires IsUnsignedLiteral(b)
  {
    var e := ExponentAt(b);
    MantissaScaled(b[..e], if e < |b| then ExponentValue(b[e + 1..]) else 0)
  }

  /** What Python's `float(s)` gives for a string. */
  datatype FloatValue = Finite(value: real) | NaN | Infinity(negative: bool)

  /**
   * Python's `float(s)`: surrounding whitespace is ignored; the result is a
   * NaN, a signed infinity or the value of a float literal, and None stands
   * for the ValueError any other text raises.
   */
  function PyFloat(s: string): (r: Option<FloatValue>)
    ensures r.None? <==> !IsNanSpelling(Strip(s)) && !IsInfSpelling(Strip(s)) && !IsFloatLiteral(Strip(s))
    ensures r.Some? && r.value.Finite? ==> IsFloatLiteral(Strip(s)) && r.value.value == LiteralValue(Strip(s))
    ensures r.Some? && r.value.Infinity? ==> IsInfSpelling(Strip(s)) && (r.value.negative <==> Strip(s)[0] == '-')
  {
    var t := Strip(s);
    if IsNanSpelling(t) then Some(NaN)
    else if IsInfSpelling(t) then Some(Infinity(t[0] == '-'))
    else if IsFloatLiteral(t) then Some(Finite(LiteralValue(t)))
    else None
  }

  lemma DigitValue(d: nat)
    requires d < 10
    ensures IsDigit(Digit(d)) && Digit(d) as int - '0' as int == d
  {
    var ds := "0123456789";
    assert ds[0] == '0' && ds[1] == '1' && ds[2] == '2' && ds[3] == '3' && ds[4] == '4';
    assert ds[5] == '5' && ds[6] == '6' && ds[7] == '7' && ds[8] == '8' && ds[9] == '9';
  }

  /** Reading back the digits `str(n)` writes gives n. */
  lemma {:induction false} DigitsValueOfNat(n: nat)
    ensures AllDigits(NatToString(n)) && DigitsValue(NatToString(n)) == n
    decreases n
  {
    var s := NatToString(n);
    if n < 10 {
      DigitValue(n);
      assert s[..0] == [];
    } else {
      DigitsValueOfNat(n / 10);
      DigitValue(n % 10);
      assert s[..|s| - 1] == NatToString(n / 10) && s[|s| - 1] == Digit(n % 10);
    }
  }

  lemma {:induction false} ExponentAtNone(s: string)
    requires forall i :: 0 <= i < |s| ==> s[i] != 'e' && s[i] != 'E'
    ensures ExponentAt(s) == |s|
  {
    if |s| > 0 {
      ExponentAtNone(s[1..]);
    }
  }

  lemma {:induction false} DotAtNone(s: string)
    requires forall i :: 0 <= i < |s| ==> s[i] != '.'
    ensures DotAt(s) == |s|
  {
    if |s| > 0 {
      DotAtNone(s[1..]);
    }
  }

  /** A mantissa without a `.` is worth the number its digits spell, scaled. */
  lemma MantissaWithoutDot(m: string, e: int)
    requires IsMantissa(m) && DotAt(m) == |m|
    ensures MantissaScaled(m, e) == Scaled(DigitsValue(m) as real, e)
  {
    var r := MantissaDigits(m);
    assert r == (m, "") && r.0 + r.1 == m;
  }

  /** A text of digits only is a float literal with no `.` and no exponent. */
  lemma DigitsLiteral(d: string)
    requires |d| > 0 && AllDigits(d)
    ensures IsFloatLiteral(d) && LiteralValue(d) == DigitsValue(d) as real
  {
    assert IsDigit(d[0]);
    assert Unsigned(d) == d;
    ExponentAtNone(d);
    DotAtNone(d);
    assert d[..|d|] == d;
    assert IsMantissa(d);
    MantissaWithoutDot(d, 0);
  }

  /** `float(str(n))` is n: the decimal text of a natural number reads back as that number. */
  lemma PyFloatOfNat(n: nat)
    ensures IsFloatLiteral(NatToString(n)) && LiteralValue(NatToString(n)) == n as real
    ensures IsPandasNumber(NatToString(n))
    ensures PyFloat(NatToString(n)) == Some(Finite(n as real))
  {
    var s := NatToString(n);
    DigitsValueOfNat(n);
    DigitsLiteral(s);
    UnpaddedLiteral(s);
  }

  /** A float literal on its own is a number to both pandas and `float`. */
  lemma UnpaddedLiteral(t: string)
    requires IsFloatLiteral(t)
    ensures IsPandasNumber(t) && PyFloat(t) == Some(Finite(LiteralValue(t)))
  {
    assert "" + t + "" == t;
    PandasReadsPaddedLiteral("", t, "");
    PyFloatReadsPaddedLiteral("", t, "");
  }

  /** `ne<k>` spells n times 10 to the power k. */
  lemma ExponentLiteral(n: nat, k: nat)
    ensures IsFloatLiteral(NatToString(n) + "e" + NatToString(k))
    ensures LiteralValue(NatToString(n) + "e" + NatToString(k)) == (n * Pow10(k)) as real
  {
    MantissaOfNat(n, k);
    ExponentOfNat(k);
    LiteralWithExponent(NatToString(n), NatToString(k));
    ScaledUp(n, k);
  }

  /** A mantissa, an `e` and an exponent make a literal worth the mantissa scaled by the exponent. */
  lemma LiteralWithExponent(m: string, x: string)
    requires IsMantissa(m) && IsExponentText(x)
    requires forall i :: 0 <= i < |m| ==> m[i] != 'e' && m[i] != 'E'
    ensures IsFloatLiteral(m + "e" + x)
    ensures LiteralValue(m + "e" + x) == MantissaScaled(m, ExponentValue(x))
  {
    var t := m + "e" + x;
    assert t[..|m|] == m && t[|m| + 1..] == x;
    assert |t| > 0 && t[0] != '+' && t[0] != '-' by {
      MantissaStart(m);
      assert t[0] == m[0];
    }
    ExponentAtPrefix(t, |m|);
    UnsignedLiteral(t, |m|);
  }

  /** An unsigned text cut at its first `e` into a mantissa and an exponent is a literal worth the one scaled by the other. */
  lemma UnsignedLiteral(t: string, p: nat)
    requires |t| > 0 && t[0] != '+' && t[0] != '-'
    requires ExponentAt(t) == p < |t|
    requires IsMantissa(t[..p]) && IsExponentText(t[p + 1..])
    ensures IsFloatLiteral(t) && LiteralValue(t) == MantissaScaled(t[..p], ExponentValue(t[p + 1..]))
  {
    assert IsUnsignedLiteral(t);
    UnsignedIsItsOwnValue(t);
    UnsignedValueParts(t, p);
  }

  lemma UnsignedIsItsOwnValue(t: string)
    requires |t| > 0 && t[0] != '+' && t[0] != '-' && IsUnsignedLiteral(t)
    ensures IsFloatLiteral(t) && LiteralValue(t) == UnsignedValue(t)
  {
    assert Unsigned(t) == t;
  }

  lemma UnsignedValueParts(b: string, p: nat)
    requires ExponentAt(b) == p < |b| && IsUnsignedLiteral(b)
    ensures IsMantissa(b[..p]) && IsExponentText(b[p + 1..])
    ensures UnsignedValue(b) == MantissaScaled(b[..p], ExponentValue(b[p + 1..]))
  {
  }

  /** The digits of k, read as an exponent, are worth k; with a `-` in front, -k. */
  lemma ExponentOfNat(k: nat)
    ensures IsExponentText(NatToString(k)) && ExponentValue(NatToString(k)) == k
    ensures IsExponentText("-" + NatToString(k)) && ExponentValue("-" + NatToString(k)) == -(k as int)
  {
    var x := NatToString(k);
    DigitsValueOfNat(k);
    assert IsDigit(x[0]) && Unsigned(x) == x;
    assert Unsigned("-" + x) == x;
  }

  /** The digits of n, read as a mantissa, are worth n. */
  lemma MantissaOfNat(n: nat, e: int)
    ensures IsMantissa(NatToString(n)) && MantissaScaled(NatToString(n), e) == Scaled(n as real, e)
    ensures forall i :: 0 <= i < |NatToString(n)| ==> NatToString(n)[i] != 'e' && NatToString(n)[i] != 'E'
  {
    var m := NatToString(n);
    DigitsValueOfNat(n);
    DotAtNone(m);
    assert m[..|m|] == m && IsMantissa(m);
    MantissaWithoutDot(m, e);
  }

  lemma {:induction false} ScaledUp(n: nat, k: nat)
    ensures Scaled(n as real, k) == (n * Pow10(k)) as real
  {
    if k > 0 {
      ScaledUp(n, k - 1);
      assert n * Pow10(k) == 10 * (n * Pow10(k - 1));
    }
  }

  lemma {:induction false} ScaledDown(n: nat, k: nat)
    ensures Scaled(n as real, -(k as int)) == (n as real) / (Pow10(k) as real)
  {
    if k > 0 {
      ScaledDown(n, k - 1);
      DivideOnceMore(n as real, Pow10(k - 1) as real);
    }
  }

  lemma DivideOnceMore(a: real, b: real)
    requires b > 0.0
    ensures (a / b) / 10.0 == a / (10.0 * b)
  {
  }

  lemma ExponentAtPrefix(t: string, p: nat)
    requires p < |t| && t[p] == 'e'
    requires forall i :: 0 <= i < p ==> t[i] != 'e' && t[i] != 'E'
    ensures ExponentAt(t) == p
    decreases p
  {
    if p > 0 {
      ExponentAtPrefix(t[1..], p - 1);
    }
  }

  /** A `-` in front negates a literal, and leaves it a literal. */
  lemma NegatedLiteral(t: string)
    requires IsFloatLiteral(t) && |t| > 0 && t[0] != '+' && t[0] != '-'
    ensures IsFloatLiteral("-" + t) && LiteralValue("-" + t) == -LiteralValue(t)
  {
    assert Unsigned("-" + t) == t == Unsigned(t);
  }

  /** `ne-<k>` spells n divided by 10 to the power k. */
  lemma NegativeExponentLiteral(n: nat, k: nat)
    ensures IsFloatLiteral(NatToString(n) + "e-" + NatToString(k))
    ensures LiteralValue(NatToString(n) + "e-" + NatToString(k)) == (n as real) / (Pow10(k) as real)
  {
    var m, x := NatToString(n), "-" + NatToString(k);
    assert m + "e" + x == NatToString(n) + "e-" + NatToString(k) by {
      NegativeExponentSpelling(m, NatToString(k));
    }
    MantissaOfNat(n, -(k as int));
    ExponentOfNat(k);
    LiteralWithExponent(m, x);
    ScaledDown(n, k);
  }

  lemma NegativeExponentSpelling(m: string, x: string)
    ensures m + "e" + ("-" + x) == m + "e-" + x
  {
    assert "e-" == "e" + "-";
  }

  /** The characters a float literal is made of. */
  predicate IsLiteralChar(ch: char) {
    IsDigit(ch) || ch == '.' || ch == 'e' || ch == 'E' || ch == '+' || ch == '-'
  }

  predicate LiteralChars(s: string) {
    forall i :: 0 <= i < |s| ==> IsLiteralChar(s[i])
  }

  /** A sign, if any, followed by characters of a literal. */
  lemma SignedChars(s: string)
    requires LiteralChars(Unsigned(s))
    ensures LiteralChars(s)
  {
    if |Unsigned(s)| < |s| {
      forall i | 1 <= i < |s| ensures IsLiteralChar(s[i]) {
        assert s[i] == Unsigned(s)[i - 1];
      }
    }
  }

  /** Every character of a float literal is a digit, `.`, `e`, `E`, `+` or `-`. */
  lemma LiteralIsLiteralChars(t: string)
    requires IsFloatLiteral(t)
    ensures |t| > 0 && LiteralChars(t)
  {
    UnsignedChars(Unsigned(t));
    SignedChars(t);
  }

  lemma UnsignedChars(b: string)
    requires IsUnsignedLiteral(b)
    ensures |b| > 0 && LiteralChars(b)
  {
    var e := ExponentAt(b);
    MantissaChars(b[..e]);
    MantissaStart(b[..e]);
    if e < |b| {
      SignedChars(b[e + 1..]);
      CutChars(b, e);
    } else {
      assert b[..e] == b;
    }
  }

  lemma MantissaChars(m: string)
    requires IsMantissa(m)
    ensures LiteralChars(m)
  {
    var p := DotAt(m);
    assert LiteralChars(m[..p]);
    if p < |m| {
      assert LiteralChars(m[p + 1..]);
      CutChars(m, p);
    } else {
      assert m[..p] == m;
    }
  }

  /** Literal characters on both sides of one more literal character. */
  lemma CutChars(s: string, p: nat)
    requires p < |s| && IsLiteralChar(s[p])
    requires LiteralChars(s[..p]) && LiteralChars(s[p + 1..])
    ensures LiteralChars(s)
  {
    forall i | 0 <= i < |s| ensures IsLiteralChar(s[i]) {
      if i < p {
        assert s[i] == s[..p][i];
      } else if i > p {
        assert s[i] == s[p + 1..][i - p - 1];
      }
    }
  }

  /** No character of a float literal is blank. */
  lemma LiteralHasNoBlank(t: string)
    requires IsFloatLiteral(t)
    ensures |t| > 0
    ensures forall i :: 0 <= i < |t| ==> !IsAsciiSpace(t[i]) && !IsSpace(t[i])
  {
    LiteralIsLiteralChars(t);
    forall i | 0 <= i < |t| ensures !IsAsciiSpace(t[i]) && !IsSpace(t[i]) {
      LiteralCharNotBlank(t[i]);
    }
  }

  lemma LiteralCharNotBlank(ch: char)
    requires IsLiteralChar(ch)
    ensures !IsAsciiSpace(ch) && !IsSpace(ch)
  {
  }

  /** A float literal is not a spelling of NaN or of an infinity. */
  lemma LiteralIsNoSpelling(t: string)
    requires IsFloatLiteral(t)
    ensures !IsNanSpelling(t) && !IsInfSpelling(t)
  {
    var b := Unsigned(t);
    var e := ExponentAt(b);
    MantissaStart(b[..e]);
    assert b[0] == b[..e][0];
    assert LowerAscii(b)[0] == b[0];
    assert "nan"[0] == 'n' && "inf"[0] == 'i' && "infinity"[0] == 'i';
  }

  lemma {:induction false} TrimAsciiStartPadded(pre: string, u: string)
    requires forall i :: 0 <= i < |pre| ==> IsAsciiSpace(pre[i])
    requires |u| > 0 && !IsAsciiSpace(u[0])
    ensures TrimAsciiStart(pre + u) == u
  {
    if |pre| > 0 {
      assert (pre + u)[1..] == pre[1..] + u;
      TrimAsciiStartPadded(pre[1..], u);
    }
  }

  lemma {:induction false} TrimAsciiEndPadded(u: string, post: string)
    requires forall i :: 0 <= i < |post| ==> IsAsciiSpace(post[i])
    requires |u| > 0 && !IsAsciiSpace(u[|u| - 1])
    ensures TrimAsciiEnd(u + post) == u
  {
    if |post| > 0 {
      var m := |post| - 1;
      assert (u + post)[..|u + post| - 1] == u + post[..m];
      TrimAsciiEndPadded(u, post[..m]);
    } else {
      assert u + post == u;
    }
  }

  lemma {:induction false} LeadingSpacesPadded(pre: string, u: string)
    requires forall i :: 0 <= i < |pre| ==> IsSpace(pre[i])
    requires |u| > 0 && !IsSpace(u[0])
    ensures LeadingSpaces(pre + u) == |pre|
  {
    if |pre| > 0 {
      assert (pre + u)[1..] == pre[1..] + u;
      LeadingSpacesPadded(pre[1..], u);
    }
  }

  lemma {:induction false} TrailingSpacesPadded(u: string, post: string)
    requires forall i :: 0 <= i < |post| ==> IsSpace(post[i])
    requires |u| > 0 && !IsSpace(u[|u| - 1])
    ensures TrailingSpaces(u + post) == |post|
  {
    if |post| > 0 {
      var m := |post| - 1;
      assert (u + post)[..|u + post| - 1] == u + post[..m];
      TrailingSpacesPadded(u, post[..m]);
    } else {
      assert u + post == u;
    }
  }

  /** pandas reads a float literal with any ASCII blanks around it as a number. */
  lemma PandasReadsPaddedLiteral(pre: string, t: string, post: string)
    requires IsFloatLiteral(t)
    requires forall i :: 0 <= i < |pre| ==> IsAsciiSpace(pre[i])
    requires forall i :: 0 <= i < |post| ==> IsAsciiSpace(post[i])
    ensures IsPandasNumber(pre + t + post)
  {
    LiteralHasNoBlank(t);
    assert pre + t + post == pre + (t + post);
    TrimAsciiStartPadded(pre, t + post);
    TrimAsciiEndPadded(t, post);
  }

  /** `float(s)` of a float literal with whitespace around it is the literal's value. */
  lemma PyFloatReadsPaddedLiteral(pre: string, t: string, post: string)
    requires IsFloatLiteral(t)
    requires forall i :: 0 <= i < |pre| ==> IsSpace(pre[i])
    requires forall i :: 0 <= i < |post| ==> IsSpace(post[i])
    ensures PyFloat(pre + t + post) == Some(Finite(LiteralValue(t)))
  {
    var s := pre + t + post;
    LiteralHasNoBlank(t);
    LiteralIsNoSpelling(t);
    assert s == pre + (t + post);
    LeadingSpacesPadded(pre, t + post);
    assert s[|pre|..] == t + post;
    TrailingSpacesPadded(t, post);
    assert (t + post)[..|t|] == t;
    assert Strip(s) == t;
  }
}
