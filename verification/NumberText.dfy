/** Integers written in a radix and read back. */
module NumberText {
  import opened WordArithmetic

  const LEAST: int := -(M / 2)

  // ---- writing ---------------------------------------------------------------------------------

  function DigitChar(c: nat): char
    requires c < 37
  {
    if c > 9 then (c + 55) as char else (c + 48) as char
  }

  /** The digits of `n`, none if it is zero. */
  function Digits(n: nat, radix: nat): string
    requires 2 <= radix <= 37
  {
    if n == 0 then "" else
      Shorter(n, radix);
      Digits(n / radix, radix) + [DigitChar(n % radix)]
  }

  lemma Shorter(n: nat, radix: nat)
    requires 2 <= radix && n > 0
    ensures 0 <= n / radix < n && 2 * (n / radix) <= n
  {
    var q := n / radix;
    assert n == q * radix + n % radix;
    QuotientOfLess(n, radix);
    MulOrder(2, radix, q);
    assert q * radix == radix * q;
  }

  /** How a number is written; the least number, which has no negation, comes out wrong. */
  function Text(v: int, radix: int): string
    requires LEAST <= v < M / 2
  {
    if v == 0 then "0"
    else if radix < 2 || radix > 37 then "(invalid radix)"
    else if v == LEAST then "-0"
    else if v < 0 then "-" + Digits(-v, radix)
    else Digits(v, radix)
  }

  // ---- reading ------------------------------------------------------------------------------------

  datatype MaybeDigit = NoDigit | Digit(value: nat)

  function DigitOf(c: char, radix: nat): MaybeDigit {
    if '0' <= c <= '9' && c as int < 48 + radix then Digit(c as int - 48)
    else if 'a' <= c && c as int <= 97 + radix - 10 then Digit(c as int - 97 + 10)
    else if 'A' <= c && c as int <= 65 + radix - 10 then Digit(c as int - 65 + 10)
    else NoDigit
  }

  /** Reads digits up to the first character that is none. */
  function ParseDigits(acc: int, s: string, radix: nat): int
    decreases |s|
  {
    if s == "" then acc
    else match DigitOf(s[0], radix)
      case NoDigit => acc
      case Digit(n) => ParseDigits(Wrap(Wrap(acc * radix) + n), s[1..], radix)
  }

  /** Character `i` of a string with a zero behind it. */
  function At(s: string, i: nat): char { if i < |s| then s[i] else '\0' }

  function Unsigned(s: string): int {
    if At(s, 0) == '0' then
      if At(s, 1) == 'x' then ParseDigits(0, s[2..], 16) else ParseDigits(0, s[1..], 8)
    else ParseDigits(0, s, 10)
  }

  /** The number a string stands for: decimal, octal after a zero, hexadecimal after 0x. */
  function Parsed(s: string): int {
    if At(s, 0) == '-' then Wrap(0 - Unsigned(s[1..])) else Unsigned(s)
  }

  // ---- one undoes the other ----------------------------------------------------------------------

  predicate AllDigits(s: string, radix: nat) { forall i :: 0 <= i < |s| ==> DigitOf(s[i], radix).Digit? }

  lemma {:induction false} ParseAppend(acc: int, s: string, t: string, radix: nat)
    requires AllDigits(s, radix)
    ensures ParseDigits(acc, s + t, radix) == ParseDigits(ParseDigits(acc, s, radix), t, radix)
    decreases |s|
  {
    if s == "" {
      assert s + t == t;
    } else {
      assert (s + t)[0] == s[0] && (s + t)[1..] == s[1..] + t;
      ParseAppend(Wrap(Wrap(acc * radix) + DigitOf(s[0], radix).value), s[1..], t, radix);
    }
  }

  lemma CharRoundTrip(c: nat, radix: nat)
    requires c < radix <= 37
    ensures DigitOf(DigitChar(c), radix) == Digit(c)
    ensures c != 0 ==> DigitChar(c) != '0'
    ensures DigitChar(c) != '-' && DigitChar(c) != 'x'
  {
  }

  /** Digits are read back in every radix they can be written in. */
  lemma {:induction false} DigitsRoundTrip(n: nat, radix: nat)
    requires 2 <= radix <= 37
    ensures AllDigits(Digits(n, radix), radix) && ParseDigits(0, Digits(n, radix), radix) == Wrap(n)
  {
    if n > 0 {
      hide Wrap, ParseDigits, AllDigits, DigitOf, DigitChar;
      Shorter(n, radix);
      DigitsRoundTrip(n / radix, radix);
      CharRoundTrip(n % radix, radix);
      LastDigit(Digits(n / radix, radix), n / radix, radix, n % radix);
      DivMod(n, radix);
    }
  }

  lemma DivMod(n: nat, d: nat)
    requires d > 0
    ensures n == n / d * d + n % d && n % d < d
  {
  }

  /** One more digit read. */
  lemma LastDigit(s: string, q: nat, radix: nat, c: nat)
    requires 2 <= radix <= 37 && c < radix && AllDigits(s, radix) && ParseDigits(0, s, radix) == Wrap(q)
    requires DigitOf(DigitChar(c), radix) == Digit(c)
    ensures AllDigits(s + [DigitChar(c)], radix) && ParseDigits(0, s + [DigitChar(c)], radix) == Wrap(q * radix + c)
  {
    var d := [DigitChar(c)];
    ParseAppend(0, s, d, radix);
    assert ParseDigits(Wrap(q), d, radix) == Wrap(Wrap(Wrap(q) * radix) + c) by { assert d[1..] == ""; }
    DigitStep(q, radix, c);
  }

  lemma DigitStep(q: int, radix: int, c: int)
    ensures Wrap(Wrap(Wrap(q) * radix) + c) == Wrap(q * radix + c)
  {
    WrapProduct(q, radix);
    WrapSum(q * radix, c);
  }

  /** The first digit is not zero. */
  lemma {:induction false} FirstDigit(n: nat, radix: nat)
    requires n > 0 && 2 <= radix <= 37
    ensures Digits(n, radix) != "" && Digits(n, radix)[0] != '0'
    ensures Digits(n, radix)[0] != '-' && Digits(n, radix)[0] != 'x'
  {
    Shorter(n, radix);
    CharRoundTrip(n % radix, radix);
    if n / radix > 0 {
      FirstDigit(n / radix, radix);
    } else {
      assert n == n / radix * radix + n % radix;
    }
  }

  /** Decimal text is read back as the number it was written from, unless that is the least one. */
  lemma DecimalRoundTrip(v: int)
    requires LEAST <= v < M / 2
    ensures Parsed(Text(v, 10)) == v <==> v != LEAST
  {
    hide Parsed, Unsigned, Digits, At;
    ZeroText();
    if v == LEAST {
      ParsedNegative("0");
      assert Text(v, 10) == "-" + "0" && Wrap(0) == 0;
    } else if v != 0 {
      UnsignedDecimal(Abs(v));
      WrapSame(v);
      if v < 0 { ParsedNegative(Digits(-v, 10)); } else { ParsedPositive(Digits(v, 10)); }
    }
  }

  lemma ZeroText()
    ensures Unsigned("0") == 0 && Parsed("0") == 0
  {
    assert "0"[1..] == "";
  }

  lemma ParsedNegative(s: string)
    ensures Parsed("-" + s) == Wrap(0 - Unsigned(s))
  {
    hide Unsigned, Wrap;
    assert ("-" + s)[1..] == s;
  }

  lemma ParsedPositive(s: string)
    requires At(s, 0) != '-'
    ensures Parsed(s) == Unsigned(s)
  {
    hide Unsigned;
  }

  lemma UnsignedDecimal(n: nat)
    requires 0 < n < M / 2
    ensures Unsigned(Digits(n, 10)) == n && At(Digits(n, 10), 0) != '-'
  {
    DigitsRoundTrip(n, 10);
    FirstDigit(n, 10);
    WrapSame(n);
  }

  /** Hexadecimal text, prefixed, is read back exactly if it is of no negative number. */
  lemma HexadecimalRoundTrip(v: int)
    requires LEAST <= v < M / 2
    ensures Parsed("0x" + Text(v, 16)) == v <==> v >= 0
  {
    var t := Text(v, 16);
    assert ("0x" + t)[2..] == t;
    Prefixed(v, 16);
  }

  /** So is octal text. */
  lemma OctalRoundTrip(v: int)
    requires LEAST <= v < M / 2
    ensures Parsed("0" + Text(v, 8)) == v <==> v >= 0
  {
    var t := Text(v, 8);
    assert ("0" + t)[1..] == t;
    Prefixed(v, 8);
    if v > 0 { FirstDigit(v, 8); }
  }

  /** Without its sign a number is read back unless it is negative: then nothing is read. */
  lemma Prefixed(v: int, radix: nat)
    requires LEAST <= v < M / 2 && 2 <= radix <= 37
    ensures ParseDigits(0, Text(v, radix), radix) == if v >= 0 then v else 0
    ensures Text(v, radix) != "" && Text(v, radix)[0] != 'x'
  {
    if v > 0 {
      DigitsRoundTrip(v, radix);
      FirstDigit(v, radix);
      WrapSame(v);
    }
  }

  // ---- writing backwards -----------------------------------------------------------------------------

  /** Of the digits of `n` those in `s` have been written; `left` stands for the others. Each digit
      has at least halved what was left. */
  ghost predicate Writing(n: nat, radix: nat, left: int, s: string)
    requires 2 <= radix <= 37
  {
    0 <= left && Digits(n, radix) == Digits(left, radix) + s && left * Pow2(|s|) < M / 2
  }

  lemma WriteDigit(n: nat, radix: nat, left: int, s: string)
    requires 2 <= radix <= 37 && Writing(n, radix, left, s) && left != 0
    ensures 0 <= left / radix < left && Writing(n, radix, left / radix, [DigitChar(left % radix)] + s) && |s| < 127
  {
    Shorter(left, radix);
    var q := left / radix;
    assert Digits(left, radix) + s == Digits(q, radix) + ([DigitChar(left % radix)] + s);
    HalvesFit(left, q, |s|);
  }

  lemma HalvesFit(left: nat, q: nat, k: nat)
    requires 2 * q <= left && left >= 1 && left * Pow2(k) < M / 2
    ensures q * Pow2(k + 1) < M / 2 && k < 127
  {
    MulOrder(2 * q, left, Pow2(k));
    Associate(q, 2, Pow2(k));
    MulOrder(1, left, Pow2(k));
    Pow2Words();
    if k >= 127 { Pow2Grows(127, k); }
  }

  lemma WriteStart(n: nat, radix: nat)
    requires 2 <= radix <= 37 && n < M / 2
    ensures Writing(n, radix, n, "")
  {
    assert Digits(n, radix) + "" == Digits(n, radix);
    assert n * Pow2(0) == n;
  }

  lemma TruncatedIsDivision(x: nat, d: nat, q: int, r: int)
    requires d > 0 && Truncated(x, d, q, r)
    ensures q == x / d && r == x % d
  {
    DivUnique(x, d, q, r);
  }

  /** What has been written of `v`, `left` standing for what has not. */
  ghost predicate Progress(v: int, radix: nat, left: int, s: string)
    requires 2 <= radix <= 37
  {
    if v == LEAST then (left == LEAST && s == "") || (left == 0 && s == "0")
    else Writing(Abs(v), radix, left, s)
  }

  lemma ProgressStart(v: int, radix: nat, left: int)
    requires 2 <= radix <= 37 && LEAST <= v < M / 2 && left == if v == LEAST then v else Abs(v)
    ensures Progress(v, radix, left, "")
  {
    if v != LEAST { WriteStart(Abs(v), radix); }
  }

  lemma ProgressStep(v: int, radix: nat, left: int, s: string, q: int, r: int)
    requires 2 <= radix <= 37 && Progress(v, radix, left, s) && left != 0
    requires if left == LEAST then q == 0 && r == LEAST else Truncated(left, radix, q, r)
    ensures ToWord(r) < radix && |s| < 127 && Abs(q) < Abs(left)
    ensures Progress(v, radix, q, [DigitChar(ToWord(r))] + s)
  {
    if v != LEAST {
      WriteDigit(Abs(v), radix, left, s);
      TruncatedIsDivision(left, radix, q, r);
      SmallWord(left % radix);
    }
  }

  lemma SmallWord(x: int)
    requires 0 <= x < W
    ensures ToWord(x) == x
  {
  }

  lemma ProgressDone(v: int, radix: nat, s: string)
    requires 2 <= radix <= 37 && LEAST <= v < M / 2 && v != 0 && Progress(v, radix, 0, s)
    ensures Text(v, radix) == if v < 0 then ['-'] + s else s
  {
    assert "" + s == s;
  }

  lemma LowWord(lo: Word, hi: SignedWord)
    ensures ToWord(hi * W + lo) == lo
  {
  }

  lemma ParseStep(acc: int, s: string, i: nat, radix: nat, n: nat)
    requires i < |s| && DigitOf(s[i], radix) == Digit(n)
    ensures ParseDigits(acc, s[i..], radix) == ParseDigits(Wrap(Wrap(acc * radix) + n), s[i + 1..], radix)
  {
    assert s[i..][0] == s[i] && s[i..][1..] == s[i + 1..];
  }
}
