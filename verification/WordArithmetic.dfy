/** Two's-complement words of 64 and 128 bits as bounded integers, and the bit operations on them. */
module WordArithmetic {
  /** 2^64 and 2^128. */
  const W: int := 0x1_0000_0000_0000_0000
  const M: int := 0x1_0000_0000_0000_0000_0000_0000_0000_0000

  type Word = x: int | 0 <= x < W
  type SignedWord = x: int | -0x8000_0000_0000_0000 <= x < 0x8000_0000_0000_0000

  /** Conversions that keep the low 64 bits. */
  function ToWord(x: int): Word { x % W }

  function ToSigned(x: int): SignedWord { x - W * ((x + W / 2) / W) }

  /** The 128-bit signed integer congruent to `x`. */
  function Wrap(x: int): (v: int)
    ensures -(M / 2) <= v < M / 2
  {
    x - M * ((x + M / 2) / M)
  }

  function Pow2(n: nat): (p: nat)
    ensures p >= 1
  {
    if n == 0 then 1 else 2 * Pow2(n - 1)
  }

  // ---- integer facts ----------------------------------------------------------------------------

  /** Quotient and remainder are the only ones. */
  lemma DivUnique(x: int, d: int, q: int, r: int)
    requires d > 0 && x == q * d + r && 0 <= r < d
    ensures x / d == q && x % d == r
  {
    var e := x / d - q;
    assert x == (x / d) * d + x % d;
    assert e * d == r - x % d by { assert e * d == (x / d) * d - q * d; }
    Multiples(e, d);
  }

  lemma Multiples(e: int, d: int)
    requires d > 0
    ensures (e >= 1 ==> e * d >= d) && (e <= -1 ==> e * d <= -d)
  {
  }

  lemma MulOrder(a: int, b: int, c: int)
    requires a <= b && c >= 0
    ensures a * c <= b * c
  {
  }

  /** Dividing twice is dividing by the product. */
  lemma DivDiv(x: int, a: int, b: int)
    requires a > 0 && b > 0
    ensures a * b > 0 && x / a / b == x / (a * b)
  {
    var q, r := x / a, x % a;
    var s, t := q / b, q % b;
    calc {
      x;
      q * a + r;
      (s * b + t) * a + r;
      { Distribute(s * b, t, a); }
      s * b * a + t * a + r;
      { Associate(s, b, a); }
      s * (a * b) + (t * a + r);
    }
    MulOrder(t, b - 1, a);
    MulOrder(0, t, a);
    Distribute(b, -1, a);
    DivUnique(x, a * b, s, t * a + r);
  }

  lemma Distribute(a: int, b: int, c: int)
    ensures (a + b) * c == a * c + b * c
  {
  }

  lemma Associate(a: int, b: int, c: int)
    ensures a * b * c == a * (c * b)
  {
  }

  lemma {:induction false} Pow2Add(m: nat, n: nat)
    ensures Pow2(m + n) == Pow2(m) * Pow2(n)
  {
    if m > 0 {
      Pow2Add(m - 1, n);
      calc {
        Pow2(m + n);
        2 * Pow2(m - 1 + n);
        2 * (Pow2(m - 1) * Pow2(n));
        Pow2(m) * Pow2(n);
      }
    }
  }

  lemma Pow2Words()
    ensures Pow2(63) == W / 2 && Pow2(64) == W && Pow2(127) == M / 2 && Pow2(128) == M
  {
    assert Pow2(8) == 0x100;
    Pow2Twice(8, 0x100);
    Pow2Twice(16, 0x1_0000);
    Pow2Twice(32, 0x1_0000_0000);
    Pow2Twice(64, 0x1_0000_0000_0000_0000);
    Pow2Doubles(63);
    Pow2Doubles(127);
  }

  lemma Pow2Twice(n: nat, p: int)
    requires Pow2(n) == p
    ensures Pow2(2 * n) == p * p
  {
    Pow2Add(n, n);
  }

  lemma Pow2Doubles(n: nat)
    ensures Pow2(n + 1) == 2 * Pow2(n)
  {
  }

  lemma {:induction false} Pow2Grows(m: nat, n: nat)
    requires m <= n
    ensures Pow2(m) <= Pow2(n)
  {
    Pow2Add(m, n - m);
    MulOrder(1, Pow2(n - m), Pow2(m));
  }

  // ---- congruence ----------------------------------------------------------------------------------

  /** A value in range that differs by a multiple of 2^128 is the wrapped value. */
  lemma WrapUnique(v: int, x: int, k: int)
    requires -(M / 2) <= v < M / 2 && v == x + k * M
    ensures v == Wrap(x)
  {
  }

  lemma WrapDiffers(x: int) returns (k: int)
    ensures Wrap(x) == x + k * M
  {
    k := -((x + M / 2) / M);
  }

  lemma WrapShift(x: int, k: int)
    ensures Wrap(x + k * M) == Wrap(x)
  {
  }

  lemma WrapSum(x: int, y: int)
    ensures Wrap(Wrap(x) + Wrap(y)) == Wrap(x + y)
    ensures Wrap(Wrap(x) + y) == Wrap(x + y)
  {
    hide Wrap;
    var j := WrapDiffers(x);
    var k := WrapDiffers(y);
    WrapShift(x + y, j);
    WrapShift(x + y, j + k);
    assert Wrap(x) + y == x + y + j * M && Wrap(x) + Wrap(y) == x + y + (j + k) * M;
  }

  lemma WrapProduct(x: int, y: int)
    ensures Wrap(Wrap(x) * y) == Wrap(x * y)
  {
    var k := WrapDiffers(x);
    calc {
      Wrap(x) * y;
      (x + k * M) * y;
      { Distribute(x, k * M, y); }
      x * y + k * M * y;
      { Associate(k, M, y); }
      x * y + k * (y * M);
      x * y + (k * y) * M;
    }
    WrapShift(x * y, k * y);
  }

  // ---- bit operations ------------------------------------------------------------------------------

  function And(a: nat, b: nat): nat
    decreases a
  {
    if a == 0 then 0 else 2 * And(a / 2, b / 2) + (if a % 2 == 1 && b % 2 == 1 then 1 else 0)
  }

  function Or(a: nat, b: nat): nat
    decreases a + b
  {
    if a == 0 && b == 0 then 0 else 2 * Or(a / 2, b / 2) + (if a % 2 == 1 || b % 2 == 1 then 1 else 0)
  }

  /** A mask of the low `k` bits takes the remainder. */
  lemma {:induction false} AndLow(x: nat, k: nat)
    ensures And(x, Pow2(k) - 1) == x % Pow2(k)
    decreases k
  {
    if k == 0 {
      AndZero(x);
    } else if x == 0 {
      DivUnique(0, Pow2(k), 0, 0);
    } else {
      hide And;
      AndLow(x / 2, k - 1);
      RemainderHalf(x, Pow2(k - 1));
      AndOdd(x, Pow2(k - 1) - 1);
    }
  }

  lemma AndStep(a: nat, b: nat)
    ensures And(a, b) == 2 * And(a / 2, b / 2) + (if a % 2 == 1 && b % 2 == 1 then 1 else 0)
  {
    if a == 0 { assert a / 2 == 0; }
  }

  lemma AndEven(x: nat, c: nat)
    ensures And(x, 2 * c) == 2 * And(x / 2, c)
  {
    hide And;
    AndStep(x, 2 * c);
    assert 2 * c / 2 == c && 2 * c % 2 == 0;
  }

  lemma AndOdd(x: nat, c: nat)
    ensures And(x, 2 * c + 1) == 2 * And(x / 2, c) + x % 2
  {
    hide And;
    AndStep(x, 2 * c + 1);
    assert (2 * c + 1) / 2 == c && (2 * c + 1) % 2 == 1;
  }

  lemma RemainderHalf(x: nat, p: nat)
    requires p > 0
    ensures x % (2 * p) == 2 * (x / 2 % p) + x % 2
  {
    var q, r := x / 2 / p, x / 2 % p;
    assert x == 2 * (q * p + r) + x % 2;
    assert q * (2 * p) == 2 * (q * p);
    DivUnique(x, 2 * p, q, 2 * r + x % 2);
  }

  lemma {:induction false} AndZero(x: nat)
    ensures And(x, 0) == 0
  {
    if x > 0 { AndZero(x / 2); }
  }

  /** A mask of all but the low `k` of `n` bits takes the remainder away. */
  lemma {:induction false} AndHigh(x: nat, n: nat, k: nat)
    requires k <= n && x < Pow2(n)
    ensures Pow2(k) <= Pow2(n) && And(x, Pow2(n) - Pow2(k)) == x - x % Pow2(k)
    decreases k
  {
    hide And, Pow2;
    Pow2Grows(k, n);
    if k == 0 {
      LowestBit(x);
      AndAll(x, n);
    } else {
      Pow2Doubles(n - 1);
      AndHigh(x / 2, n - 1, k - 1);
      AndHighStep(x, n, k, Pow2(n - 1), Pow2(k - 1));
    }
  }

  lemma AndHighStep(x: nat, n: nat, k: nat, q: nat, p: nat)
    requires 0 < k <= n && q == Pow2(n - 1) && p == Pow2(k - 1) <= q && And(x / 2, q - p) == x / 2 - x / 2 % p
    ensures Pow2(k) <= Pow2(n) && And(x, Pow2(n) - Pow2(k)) == x - x % Pow2(k)
  {
    hide And, Pow2;
    Pow2Doubles(k - 1);
    Pow2Doubles(n - 1);
    calc {
      And(x, Pow2(n) - Pow2(k));
      { assert Pow2(n) - Pow2(k) == 2 * (q - p); }
      And(x, 2 * (q - p));
      { AndEven(x, q - p); }
      2 * And(x / 2, q - p);
      { DoubledMultiple(x, p); }
      x - x % (2 * p);
    }
  }

  lemma DoubledMultiple(x: nat, p: nat)
    requires p > 0
    ensures 2 * (x / 2 - x / 2 % p) == x - x % (2 * p)
  {
    RemainderHalf(x, p);
  }

  lemma {:induction false} AndAll(x: nat, n: nat)
    requires x < Pow2(n)
    ensures And(x, Pow2(n) - 1) == x
  {
    if x > 0 {
      hide And;
      AndAll(x / 2, n - 1);
      AndOdd(x, Pow2(n - 1) - 1);
    }
  }

  /** Joining bits that do not overlap adds. */
  lemma {:induction false} OrDisjoint(a: nat, b: nat, k: nat)
    requires a < Pow2(k)
    ensures Or(a, b * Pow2(k)) == a + b * Pow2(k)
    ensures Or(b * Pow2(k), a) == a + b * Pow2(k)
    decreases k
  {
    hide Or;
    if k == 0 {
      OrZero(b);
    } else {
      OrDisjoint(a / 2, b, k - 1);
      TimesPow(b, k);
      OrHalves(a, b * Pow2(k - 1));
    }
  }

  lemma TimesPow(b: nat, k: nat)
    requires k > 0
    ensures b * Pow2(k) == 2 * (b * Pow2(k - 1))
  {
    Associate(b, 2, Pow2(k - 1));
  }

  lemma OrHalves(a: nat, c: nat)
    ensures Or(a, 2 * c) == 2 * Or(a / 2, c) + a % 2 && Or(2 * c, a) == 2 * Or(c, a / 2) + a % 2
  {
    OrStep(a, 2 * c);
    OrStep(2 * c, a);
  }

  lemma OrStep(a: nat, b: nat)
    ensures Or(a, b) == 2 * Or(a / 2, b / 2) + (if a % 2 == 1 || b % 2 == 1 then 1 else 0)
  {
    if a == 0 && b == 0 { assert a / 2 == 0 && b / 2 == 0; }
  }

  lemma {:induction false} OrZero(b: nat)
    ensures Or(0, b) == b && Or(b, 0) == b
    decreases b
  {
    if b > 0 { OrZero(b / 2); }
  }

  /** Setting bit `k` adds 2^k unless the bit is set already. */
  lemma {:induction false} OrBit(x: nat, k: nat)
    ensures Or(x, Pow2(k)) == if x / Pow2(k) % 2 == 0 then x + Pow2(k) else x
    decreases k
  {
    if k == 0 {
      OrZero(x / 2);
      OrZero(0);
    } else {
      OrBit(x / 2, k - 1);
      DivDiv(x, 2, Pow2(k - 1));
    }
  }

  // ---- shifted words --------------------------------------------------------------------------------
  // In what follows p is 2^n and s is 2^(64-n), so that their product is 2^64.

  /** 2^n and 2^(64-n) make up a word. */
  lemma WordSplit(n: nat)
    requires n <= 64
    ensures Pow2(n) * Pow2(64 - n) == W && 1 <= Pow2(n) <= W && 1 <= Pow2(64 - n) <= W
  {
    Pow2Add(n, 64 - n);
    Pow2Words();
    Pow2Grows(n, 64);
    Pow2Grows(64 - n, 64);
  }

  /** Times p, taken apart at the word boundary. */
  lemma TimesWord(x: int, p: nat, s: nat)
    requires p >= 1 && s >= 1 && p * s == W
    ensures x * p == x / s * W + x % s * p && 0 <= x % s * p < W
    ensures ToWord(x * p) == x % s * p && x * p / W == x / s
  {
    var q, r := x / s, x % s;
    Distribute(q * s, r, p);
    Associate(q, s, p);
    MulOrder(r, s - 1, p);
    MulOrder(0, r, p);
    Distribute(s, -1, p);
    DivUnique(x * p, W, q, r * p);
  }

  lemma SameWord(x: int)
    ensures ToWord(ToSigned(x)) == ToWord(x)
  {
  }

  lemma SmallQuotient(x: nat, p: nat, s: nat)
    requires p >= 1 && s >= 1 && p * s == W && x < W
    ensures x / s < p
  {
    if x / s >= p { MulOrder(p, x / s, s); }
  }

  /** Both words shifted left by less than a word, the bits that leave the low one joined to the high one. */
  lemma LeftValue(lo: Word, hi: SignedWord, p: nat, s: nat, h: SignedWord)
    requires p >= 1 && s >= 1 && p * s == W && h == ToSigned(hi % s * p + lo / s)
    ensures h * W + ToWord(lo * p) == Wrap((hi * W + lo) * p)
  {
    TimesWord(lo, p, s);
    TimesWord(hi, p, s);
    var x, y := hi * p, lo * p;
    Distribute(hi * W, lo, p);
    assert hi * W * p == x * W;
    var j := (hi % s * p + lo / s + W / 2) / W;
    WrapUnique(h * W + ToWord(y), x * W + y, -(hi / s) - j);
  }

  /** The low word shifted into the high one. */
  lemma LeftWordValue(lo: Word, hi: SignedWord, p: nat)
    ensures ToSigned(ToWord(lo * p)) * W == Wrap((hi * W + lo) * (W * p))
  {
    var x, y := lo * p, hi * p;
    Distribute(hi * W, lo, W * p);
    assert hi * W * (W * p) == y * M;
    assert lo * (W * p) == x * W;
    var j := (ToWord(x) + W / 2) / W;
    WrapUnique(ToSigned(ToWord(x)) * W, y * M + x * W, -y - x / W - j);
  }

  lemma LeftAway(v: int, p: nat)
    ensures Wrap(v * (M * p)) == 0
  {
    assert v * (M * p) == (v * p) * M;
    WrapUnique(0, (v * p) * M, -(v * p));
  }

  /** Both words shifted right by less than a word, the bits that leave the high one joined to the low one. */
  lemma RightValue(lo: Word, hi: SignedWord, p: nat, s: nat)
    requires p >= 1 && s >= 1 && p * s == W
    ensures hi / p * W + (lo / p + hi % p * s) == (hi * W + lo) / p
    ensures 0 <= lo / p + hi % p * s < W
  {
    var x, a, b := hi * s, lo / p, lo % p;
    TimesWord(hi, s, p);
    Associate(hi, s, p);
    Distribute(x, a, p);
    DivUnique(hi * W + lo, p, x + a, b);
    RightInWord(lo, hi % p, p, s);
  }

  lemma RightInWord(lo: Word, m: nat, p: nat, s: nat)
    requires p >= 1 && s >= 1 && p * s == W && m < p
    ensures 0 <= lo / p + m * s < W
  {
    SmallQuotient(lo, s, p);
    MulOrder(m, p - 1, s);
    MulOrder(0, m, s);
    Distribute(p, -1, s);
  }

  /** The high word shifted into the low one. */
  lemma RightWordValue(lo: Word, hi: SignedWord, p: nat)
    requires p >= 1
    ensures -(W / 2) <= hi / p < W / 2
    ensures (if hi < 0 then -1 else 0) * W + ToWord(hi / p) == (hi * W + lo) / (W * p)
  {
    DivUnique(hi * W + lo, W, hi, lo);
    DivDiv(hi * W + lo, W, p);
    QuotientSmaller(hi, p);
  }

  lemma QuotientSmaller(x: int, p: nat)
    requires p >= 1
    ensures x >= 0 ==> 0 <= x / p <= x
    ensures x < 0 ==> x <= x / p < 0
  {
    QuotientBounds(x, p, x / p, x % p);
  }

  lemma QuotientBounds(x: int, p: nat, q: int, r: int)
    requires p >= 1 && x == q * p + r && 0 <= r < p
    ensures x >= 0 ==> 0 <= q <= x
    ensures x < 0 ==> x <= q < 0
  {
    TimesBounds(q, p);
    BoundsOfSum(x, p, q, q * p, r);
  }

  lemma TimesBounds(q: int, p: nat)
    requires p >= 1
    ensures q >= 1 ==> q * p >= q
    ensures q == 0 ==> q * p == 0
    ensures q <= -1 ==> q * p <= q - (p - 1)
  {
    if q >= 1 {
      MulOrder(1, p, q);
    } else if q <= -1 {
      MulOrder(q + 1, 0, p - 1);
      Distribute(q, 1, p - 1);
      assert q * (p - 1) == q * p - q;
    }
  }

  lemma BoundsOfSum(x: int, p: nat, q: int, y: int, r: int)
    requires p >= 1 && x == y + r && 0 <= r < p
    requires (q >= 1 ==> y >= q) && (q == 0 ==> y == 0) && (q <= -1 ==> y <= q - (p - 1))
    ensures x >= 0 ==> 0 <= q <= x
    ensures x < 0 ==> x <= q < 0
  {
  }

  lemma RightAway(v: int, p: nat)
    requires -(M / 2) <= v < M / 2 && p >= M / 2
    ensures v / p == if v < 0 then -1 else 0
  {
    if v < 0 { DivUnique(v, p, -1, v + p); } else { DivUnique(v, p, 0, v); }
  }

  /** The low `k` bits. */
  function Mask(k: nat): Word
    requires k < 64
  {
    MaskInWord(k);
    Pow2(k) - 1
  }

  lemma MaskInWord(k: nat)
    requires k < 64
    ensures Pow2(k) <= W
  {
    WordSplit(k);
  }

  function Not(x: Word): Word { W - 1 - x }

  lemma AndHighWord(x: Word, k: nat)
    requires k < 64
    ensures And(x, Not(Mask(k))) == x - x % Pow2(k)
  {
    Pow2Words();
    AndHigh(x, 64, k);
  }

  lemma QuotientOfMultiple(x: int, s: nat)
    requires s >= 1
    ensures (x - x % s) / s == x / s
  {
    DivUnique(x - x % s, s, x / s, 0);
  }

  /** The high word of a left shift. */
  function LeftHigh(lo: Word, hi: SignedWord, n: nat): SignedWord
    requires 0 < n < 64
  {
    var upper := And(lo, Not(Mask(64 - n)));
    QuotientSmaller(upper, Pow2(64 - n));
    ToSigned(Or(ToWord(ToSigned(hi * Pow2(n))), upper / Pow2(64 - n)))
  }

  lemma LeftHighSum(lo: Word, hi: SignedWord, n: nat)
    requires 0 < n < 64
    ensures LeftHigh(lo, hi, n) == ToSigned(hi % Pow2(64 - n) * Pow2(n) + lo / Pow2(64 - n))
  {
    WordSplit(n);
    AndHighWord(lo, 64 - n);
    QuotientOfMultiple(lo, Pow2(64 - n));
    LeftHighParts(lo, hi, n, Pow2(n), Pow2(64 - n));
  }

  lemma LeftHighParts(lo: Word, hi: SignedWord, n: nat, p: nat, s: nat)
    requires p == Pow2(n) && s >= 1 && p * s == W
    ensures Or(ToWord(ToSigned(hi * p)), lo / s) == hi % s * p + lo / s
  {
    SameWord(hi * p);
    TimesWord(hi, p, s);
    SmallQuotient(lo, p, s);
    OrDisjoint(lo / s, hi % s, n);
  }

  lemma LeftSmall(lo: Word, hi: SignedWord, n: nat)
    requires 0 < n < 64
    ensures LeftHigh(lo, hi, n) * W + ToWord(lo * Pow2(n)) == Wrap((hi * W + lo) * Pow2(n))
  {
    WordSplit(n);
    LeftHighSum(lo, hi, n);
    LeftValue(lo, hi, Pow2(n), Pow2(64 - n), LeftHigh(lo, hi, n));
  }

  lemma LeftMedium(lo: Word, hi: SignedWord, n: nat)
    requires 64 <= n
    ensures ToSigned(ToWord(lo * Pow2(n - 64))) * W == Wrap((hi * W + lo) * Pow2(n))
  {
    PowFrom64(n);
    LeftWordValue(lo, hi, Pow2(n - 64));
  }

  lemma PowFrom64(n: nat)
    requires 64 <= n
    ensures Pow2(n) == W * Pow2(n - 64)
  {
    Pow2Words();
    Pow2Add(64, n - 64);
  }

  lemma LeftLarge(v: int, n: nat)
    requires 128 <= n
    ensures Wrap(v * Pow2(n)) == 0
  {
    Pow2Words();
    Pow2Add(128, n - 128);
    LeftAway(v, Pow2(n - 128));
  }

  /** The low word of a right shift. */
  function RightLow(lo: Word, hi: SignedWord, n: nat): (r: nat)
    requires 0 < n < 64
  {
    QuotientSmaller(lo, Pow2(n));
    Or(lo / Pow2(n), ToWord(And(ToWord(hi), Mask(n)) * Pow2(64 - n)))
  }

  lemma RightLowSum(lo: Word, hi: SignedWord, n: nat)
    requires 0 < n < 64
    ensures RightLow(lo, hi, n) == lo / Pow2(n) + hi % Pow2(n) * Pow2(64 - n)
  {
    WordSplit(n);
    AndLow(ToWord(hi), n);
    RightLowParts(lo, hi, n, Pow2(n), Pow2(64 - n));
  }

  lemma RightLowParts(lo: Word, hi: SignedWord, n: nat, p: nat, s: nat)
    requires n < 64 && p >= 1 && s == Pow2(64 - n) && p * s == W
    ensures lo / p >= 0 && Or(lo / p, ToWord(ToWord(hi) % p * s)) == lo / p + hi % p * s
  {
    QuotientSmaller(lo, p);
    RemainderOfWord(hi, p, s);
    TimesWord(hi, s, p);
    var m := hi % p;
    assert ToWord(m * s) == m * s by { TimesWord(m, s, p); }
    SmallQuotient(lo, s, p);
    OrDisjoint(lo / p, m, 64 - n);
  }

  lemma RemainderOfWord(x: int, p: nat, s: nat)
    requires p >= 1 && s >= 1 && p * s == W
    ensures ToWord(x) % p == x % p
  {
    var q, r := x / W, x % W;
    Associate(q, s, p);
    Distribute(q * s, r / p, p);
    DivUnique(x, p, q * s + r / p, r % p);
  }

  lemma RightSmall(lo: Word, hi: SignedWord, n: nat)
    requires 0 < n < 64
    ensures RightLow(lo, hi, n) < W && -(W / 2) <= hi / Pow2(n) < W / 2
    ensures hi / Pow2(n) * W + RightLow(lo, hi, n) == (hi * W + lo) / Pow2(n)
  {
    WordSplit(n);
    RightLowSum(lo, hi, n);
    RightValue(lo, hi, Pow2(n), Pow2(64 - n));
    QuotientSmaller(hi, Pow2(n));
  }

  lemma RightMedium(lo: Word, hi: SignedWord, n: nat)
    requires 64 <= n
    ensures -(W / 2) <= hi / Pow2(n - 64) < W / 2
    ensures (if hi < 0 then -1 else 0) * W + ToWord(hi / Pow2(n - 64)) == (hi * W + lo) / Pow2(n)
  {
    PowFrom64(n);
    RightWordValue(lo, hi, Pow2(n - 64));
  }

  lemma RightLarge(v: int, n: nat)
    requires 128 <= n && -(M / 2) <= v < M / 2
    ensures v / Pow2(n) == if v < 0 then -1 else 0
  {
    Pow2Words();
    Pow2Grows(127, n);
    RightAway(v, Pow2(n));
  }

  // ---- sums of words ----------------------------------------------------------------------------------

  lemma SumOfWords(lo: Word, hi: SignedWord, lo2: Word, hi2: SignedWord)
    ensures var l, h := ToWord(lo + lo2), ToSigned(hi + hi2);
            (if l < lo then ToSigned(h + 1) else h) * W + l == Wrap((hi * W + lo) + (hi2 * W + lo2))
  {
    var l, h := ToWord(lo + lo2), ToSigned(hi + hi2);
    assert l == if lo + lo2 >= W then lo + lo2 - W else lo + lo2;
    var j := (hi + hi2 + W / 2) / W;
    var g := if l < lo then ToSigned(h + 1) else h;
    var i := if l < lo then (h + 1 + W / 2) / W else 0;
    WrapUnique(g * W + l, (hi * W + lo) + (hi2 * W + lo2), -i - j);
  }

  lemma NegatedWords(lo: Word, hi: SignedWord)
    ensures lo == 0 ==> ToSigned(0 - hi) * W == Wrap(-(hi * W + lo))
    ensures lo != 0 ==> (-1 - hi) * W + ToWord(0 - lo) == Wrap(-(hi * W + lo))
  {
    if lo == 0 {
      WrapUnique(ToSigned(0 - hi) * W, -(hi * W), -((0 - hi + W / 2) / W));
    } else {
      assert ToWord(0 - lo) == W - lo;
      WrapSame(-(hi * W + lo));
    }
  }

  // ---- single bits ------------------------------------------------------------------------------------

  /** Bit `n` of the two's-complement pattern of `x`, which goes on to the left with the sign. */
  predicate BitOf(x: int, n: nat) { x / Pow2(n) % 2 == 1 }

  lemma {:induction false} AndBit(x: nat, k: nat)
    ensures And(x, Pow2(k)) == if BitOf(x, k) then Pow2(k) else 0
    decreases k
  {
    AndStep(x, Pow2(k));
    if k == 0 {
      AndZero(x / 2);
    } else {
      AndBit(x / 2, k - 1);
      DivDiv(x, 2, Pow2(k - 1));
    }
  }

  /** The bits of the low word are the number's. */
  lemma LowBits(lo: Word, hi: SignedWord, n: nat)
    requires n < 64
    ensures BitOf(hi * W + lo, n) == BitOf(lo, n)
  {
    WordSplit(n);
    LowBitsParts(lo, hi, Pow2(n), Pow2(64 - n));
    EvenTimes(hi, Pow2(64 - n), Pow2(63 - n), lo / Pow2(n));
  }

  lemma LowBitsParts(lo: Word, hi: SignedWord, p: nat, s: nat)
    requires p >= 1 && s >= 1 && p * s == W
    ensures (hi * W + lo) / p == hi * s + lo / p
  {
    TimesWord(hi, s, p);
    Associate(hi, s, p);
    Distribute(hi * s, lo / p, p);
    DivUnique(hi * W + lo, p, hi * s + lo / p, lo % p);
  }

  lemma EvenTimes(x: int, s: int, half: int, y: int)
    requires s == 2 * half
    ensures (x * s + y) % 2 == y % 2
  {
    var z := x * half;
    assert x * s == 2 * z;
  }

  /** The bits of the high word follow. */
  lemma HighBits(lo: Word, hi: SignedWord, n: nat)
    requires 64 <= n
    ensures BitOf(hi * W + lo, n) == BitOf(hi, n - 64)
  {
    PowFrom64(n);
    DivUnique(hi * W + lo, W, hi, lo);
    DivDiv(hi * W + lo, W, Pow2(n - 64));
  }

  lemma SignBits(hi: SignedWord, k: nat)
    requires 64 <= k
    ensures BitOf(hi, k) == (hi < 0)
  {
    Pow2Words();
    Pow2Grows(64, k);
    if hi < 0 { DivUnique(hi, Pow2(k), -1, hi + Pow2(k)); } else { DivUnique(hi, Pow2(k), 0, hi); }
  }

  lemma WordBits(hi: SignedWord, k: nat)
    requires k < 64
    ensures BitOf(ToWord(hi), k) == BitOf(hi, k)
  {
    hide Pow2;
    if hi < 0 {
      assert ToWord(hi) == hi + W;
      WordSplit(k);
      WordBitsParts(hi, Pow2(k), Pow2(64 - k));
      Pow2Doubles(63 - k);
      EvenTimes(1, Pow2(64 - k), Pow2(63 - k), hi / Pow2(k));
    }
  }

  lemma WordBitsParts(x: int, p: nat, s: nat)
    requires p >= 1 && s >= 1 && p * s == W
    ensures (x + W) / p == 1 * s + x / p
  {
    Distribute(s, x / p, p);
    DivUnique(x + W, p, s + x / p, x % p);
  }

  lemma AndOne(x: nat)
    ensures And(x, 1) == x % 2
  {
    AndStep(x, 1);
    AndZero(x / 2);
  }

  // ---- products ---------------------------------------------------------------------------------------

  /** One more bit of a remainder. */
  lemma RemainderStep(b: int, i: nat)
    ensures b % Pow2(i + 1) == b % Pow2(i) + (if BitOf(b, i) then Pow2(i) else 0)
    ensures b / Pow2(i + 1) == b / Pow2(i) / 2
  {
    var p := Pow2(i);
    var q, r := b / p, b % p;
    DivDiv(b, p, 2);
    RemainderParts(b, p, q, r, q / 2, q % 2);
  }

  lemma RemainderParts(b: int, p: nat, q: int, r: int, h: int, t: int)
    requires p >= 1 && b == q * p + r && 0 <= r < p && q == 2 * h + t && 0 <= t < 2
    ensures b % (2 * p) == r + if t == 1 then p else 0
  {
    Distribute(2 * h, t, p);
    assert 2 * h * p == h * (2 * p);
    assert t * p == if t == 1 then p else 0;
    DivUnique(b, 2 * p, h, t * p + r);
  }

  /** One step of the shift-and-add multiplication. */
  lemma ProductStep(a: int, b: int, i: nat)
    ensures Wrap(a * (b % Pow2(i + 1))) ==
            if BitOf(b, i) then Wrap(Wrap(a * (b % Pow2(i))) + Wrap(a * Pow2(i))) else Wrap(a * (b % Pow2(i)))
  {
    hide Wrap, Pow2, BitOf;
    RemainderStep(b, i);
    ProductParts(a, b % Pow2(i), Pow2(i));
  }

  lemma ProductParts(a: int, r: int, p: int)
    ensures Wrap(a * (r + p)) == Wrap(Wrap(a * r) + Wrap(a * p))
  {
    hide Wrap;
    DistributeLeft(a, r, p);
    WrapSum(a * r, a * p);
    WrapSum(a * p, Wrap(a * r));
  }

  /** The product with the low `i` bits of `b`. */
  function PartialProduct(a: int, b: int, i: nat): int { Wrap(a * (b % Pow2(i))) }

  /** What is left of `b` without its low `i` bits. */
  function Shifted(b: int, i: nat): int { b / Pow2(i) }

  lemma PartialStep(a: int, b: int, i: nat)
    ensures Shifted(b, i + 1) == Shifted(b, i) / Pow2(1)
    ensures PartialProduct(a, b, i + 1) ==
            if Shifted(b, i) % 2 == 1 then Wrap(PartialProduct(a, b, i) + Wrap(a * Pow2(i))) else PartialProduct(a, b, i)
  {
    hide Wrap;
    ProductStep(a, b, i);
    RemainderStep(b, i);
    assert Pow2(1) == 2;
  }

  lemma ProductStart(a: int, b: int)
    ensures PartialProduct(a, b, 0) == 0 && Shifted(b, 0) == b
  {
    assert b % Pow2(0) == 0;
  }

  lemma TimesZeroOne(a: int)
    requires -(M / 2) <= a < M / 2
    ensures Wrap(a * 0) == 0 && Wrap(a * 1) == a
  {
  }

  lemma DistributeLeft(a: int, b: int, c: int)
    ensures a * (b + c) == a * b + a * c
  {
  }

  lemma ProductDone(a: int, b: int)
    ensures PartialProduct(a, b, 128) == Wrap(a * b)
  {
    Pow2Words();
    var q, r := b / M, b % M;
    DistributeLeft(a, q * M, r);
    assert a * (q * M) == (a * q) * M;
    WrapShift(a * r, a * q);
  }

  lemma OrInWord(x: Word, k: nat)
    requires k < 64
    ensures Or(x, Pow2(k)) < W
  {
    OrBit(x, k);
    if !BitOf(x, k) { BitRoom(x, k); }
  }

  lemma BitRoom(x: Word, k: nat)
    requires k < 64 && !BitOf(x, k)
    ensures x + Pow2(k) < W
  {
    WordSplit(k);
    BitRoomParts(x, Pow2(k), Pow2(64 - k), Pow2(63 - k), x / Pow2(k));
  }

  lemma BitRoomParts(x: Word, p: nat, s: nat, half: nat, q: int)
    requires p >= 1 && s >= 1 && p * s == W && s == 2 * half && q == x / p && q % 2 != 1
    ensures x + p < W
  {
    SmallQuotient(x, s, p);
    MulOrder(q + 2, s, p);
    Distribute(q, 2, p);
  }

  lemma HighChanged(lo: Word, hi: SignedWord, p: int)
    ensures ToSigned(ToWord(hi) + p) * W + lo == Wrap(hi * W + lo + W * p)
  {
    var c := if hi < 0 then 1 else 0;
    assert ToWord(hi) == hi + c * W;
    var j := (ToWord(hi) + p + W / 2) / W;
    WrapUnique(ToSigned(ToWord(hi) + p) * W + lo, hi * W + lo + W * p, c - j);
  }

  lemma SignedAgain(hi: SignedWord)
    ensures ToSigned(ToWord(hi)) == hi
  {
  }

  lemma LowBitSet(lo: Word, hi: SignedWord, n: nat)
    requires n < 64
    ensures Or(lo, Pow2(n)) < W
    ensures hi * W + Or(lo, Pow2(n)) == if BitOf(hi * W + lo, n) then hi * W + lo else Wrap(hi * W + lo + Pow2(n))
  {
    LowBits(lo, hi, n);
    OrBit(lo, n);
    OrInWord(lo, n);
    OfWords(Or(lo, Pow2(n)), hi);
  }

  lemma OfWords(lo: Word, hi: SignedWord)
    ensures Wrap(hi * W + lo) == hi * W + lo
  {
  }

  lemma HighBitSet(lo: Word, hi: SignedWord, n: nat)
    requires 64 <= n < 128
    ensures ToSigned(Or(ToWord(hi), Pow2(n - 64))) * W + lo ==
            if BitOf(hi * W + lo, n) then hi * W + lo else Wrap(hi * W + lo + Pow2(n))
  {
    hide Or, Wrap, ToSigned, Pow2;
    HighBits(lo, hi, n);
    WordBits(hi, n - 64);
    OrBit(ToWord(hi), n - 64);
    PowFrom64(n);
    HighChanged(lo, hi, Pow2(n - 64));
    SignedAgain(hi);
  }

  /** A mask of all bits but bit `k` takes that bit's value away. */
  lemma {:induction false} AndNotBit(x: nat, m: nat, k: nat)
    requires k < m && x < Pow2(m)
    ensures Pow2(k) < Pow2(m) && And(x, Pow2(m) - 1 - Pow2(k)) == if BitOf(x, k) then x - Pow2(k) else x
    decreases k
  {
    hide And, Pow2, BitOf;
    Pow2Grows(k, m - 1);
    Pow2Doubles(m - 1);
    if k == 0 {
      LowestBit(x);
      AndEven(x, Pow2(m - 1) - 1);
      AndAll(x / 2, m - 1);
    } else {
      Pow2Doubles(k - 1);
      var c := Pow2(m - 1) - 1 - Pow2(k - 1);
      AndNotBit(x / 2, m - 1, k - 1);
      AndOdd(x, c);
      HigherBit(x, k);
      assert Pow2(m) - 1 - Pow2(k) == 2 * c + 1;
    }
  }

  lemma HigherBit(x: int, k: nat)
    requires k > 0
    ensures BitOf(x, k) == BitOf(x / 2, k - 1)
  {
    DivDiv(x, 2, Pow2(k - 1));
  }

  lemma LowestBit(x: int)
    ensures Pow2(0) == 1 && BitOf(x, 0) == (x % 2 == 1)
  {
    assert x / Pow2(0) == x;
  }

  lemma AndNotBitInWord(x: Word, k: nat)
    requires k < 64
    ensures 0 <= Not(0) - Pow2(k) && And(x, Not(0) - Pow2(k)) == if BitOf(x, k) then x - Pow2(k) else x
    ensures And(x, Not(0) - Pow2(k)) < W
  {
    Pow2Words();
    AndNotBit(x, 64, k);
  }

  lemma LowBitCleared(lo: Word, hi: SignedWord, n: nat)
    requires n < 64
    ensures 0 <= Not(0) - Pow2(n) && 0 <= And(lo, Not(0) - Pow2(n)) < W
    ensures hi * W + And(lo, Not(0) - Pow2(n)) == if BitOf(hi * W + lo, n) then Wrap(hi * W + lo - Pow2(n)) else hi * W + lo
  {
    LowBits(lo, hi, n);
    AndNotBitInWord(lo, n);
    OfWords(And(lo, Not(0) - Pow2(n)), hi);
  }

  lemma HighBitCleared(lo: Word, hi: SignedWord, n: nat)
    requires 64 <= n < 128
    ensures 0 <= Not(0) - Pow2(n - 64)
    ensures ToSigned(And(ToWord(hi), Not(0) - Pow2(n - 64))) * W + lo ==
            if BitOf(hi * W + lo, n) then Wrap(hi * W + lo - Pow2(n)) else hi * W + lo
  {
    hide And, BitOf, Wrap, ToSigned, Pow2;
    HighBits(lo, hi, n);
    WordBits(hi, n - 64);
    AndNotBitInWord(ToWord(hi), n - 64);
    PowFrom64(n);
    HighChanged(lo, hi, 0 - Pow2(n - 64));
    assert W * (0 - Pow2(n - 64)) == -(W * Pow2(n - 64));
    SignedAgain(hi);
  }

  // ---- quotients ------------------------------------------------------------------------------------

  function Abs(x: int): nat { if x < 0 then -x else x }

  /** Division that rounds toward zero: the remainder is smaller than the divisor and, unless it is
      zero, has the sign of the dividend. */
  predicate Truncated(x: int, d: int, q: int, r: int) {
    x == q * d + r && Abs(r) < Abs(d) && (r == 0 || (r < 0 <==> x < 0))
  }

  /** There is only one such quotient and remainder. */
  lemma TruncatedUnique(x: int, d: int, q: int, r: int, q2: int, r2: int)
    requires d != 0 && Truncated(x, d, q, r) && Truncated(x, d, q2, r2)
    ensures q == q2 && r == r2
  {
    Distribute(q, 0 - q2, d);
    Multiples(q - q2, Abs(d));
    TimesAbs(q - q2, d);
    assert (0 - q2) * d == 0 - q2 * d;
  }

  lemma TimesAbs(e: int, d: int)
    ensures e * Abs(d) == if d < 0 then 0 - e * d else e * d
  {
  }

  lemma SignsTruncated(x: int, d: int, q: nat, r: nat)
    requires d != 0 && Abs(x) == q * Abs(d) + r && r < Abs(d)
    ensures Truncated(x, d, if (d < 0) != (x < 0) then 0 - q else q, if x < 0 then 0 - r else r)
  {
    assert (0 - q) * d == 0 - q * d && q * (0 - d) == 0 - q * d;
  }

  lemma SmallTruncated(x: int, d: int)
    requires Abs(x) < Abs(d)
    ensures Truncated(x, d, 0, x)
  {
  }

  /** The next bit of the dividend. */
  lemma NextBit(x: int, b: nat)
    ensures x / Pow2(b) == 2 * (x / Pow2(b + 1)) + (if BitOf(x, b) then 1 else 0)
  {
    RemainderStep(x, b);
  }

  lemma ShiftedQuotient(q: nat, b: nat)
    ensures q * Pow2(b) / Pow2(b) == q && q * Pow2(b + 1) == 2 * q * Pow2(b)
  {
    DivUnique(q * Pow2(b), Pow2(b), q, 0);
    Associate(q, 2, Pow2(b));
  }

  /** The quotient found so far, with one more at bit `b`, stays below the dividend. */
  lemma QuotientBelow(x: nat, d: nat, q: nat, r: nat, b: nat)
    requires d >= 1 && x / Pow2(b) == q * d + r && r >= d
    ensures q * Pow2(b) + Pow2(b) == (q + 1) * Pow2(b) <= x
    ensures x / Pow2(b) == (q + 1) * d + (r - d)
  {
    var p := Pow2(b);
    Distribute(q, 1, p);
    Distribute(q, 1, d);
    MulOrder(1, d, q);
    assert q * d == d * q;
    MulOrder(q + 1, x / p, p);
  }

  lemma QuotientOfLess(x: nat, p: nat)
    requires p >= 1
    ensures 0 <= x / p <= x
  {
    QuotientSmaller(x, p);
  }

  lemma NothingLeft(x: nat)
    requires x < M / 2
    ensures x / Pow2(128) == 0
  {
    Pow2Words();
  }

  lemma WrapSame(v: int)
    requires -(M / 2) <= v < M / 2
    ensures Wrap(v) == v
  {
  }

  lemma LowEven(lo: Word, hi: SignedWord)
    ensures (hi * W + lo) % 2 == lo % 2
  {
    EvenTimes(hi, W, W / 2, lo);
  }

  /** Restoring division before the quotient's first bit: of the bits of `x` all but `left` have been
      taken, and only the last of them can have brought `r` up to `d`. The counter is an unsigned
      one, one less than `left`. */
  ghost predicate Taking(x: int, d: int, r: int, left: nat, counter: int) {
    && 1 <= d <= x < M / 2 && left <= 128 && counter == (if left == 0 then 0xFFFF_FFFF else left - 1)
    && r == x / Pow2(left) && 0 <= r < 2 * d
  }

  lemma TakeStart(x: int, d: int)
    requires 1 <= d <= x < M / 2
    ensures Taking(x, d, 0, 128, 127)
  {
    NothingLeft(x);
  }

  lemma TakeOne(x: int, d: int, r: int, left: nat, counter: int)
    requires Taking(x, d, r, left, counter) && r < d
    ensures left > 0 && 0 <= r <= x / Pow2(counter + 1)
    ensures Taking(x, d, 2 * r + (if BitOf(x, counter) then 1 else 0), left - 1, if counter == 0 then 0xFFFF_FFFF else counter - 1)
  {
    if left > 0 { NextBit(x, left - 1); }
  }

  lemma TakeDone(x: int, d: int, r: int, left: nat, counter: int)
    requires Taking(x, d, r, left, counter) && r >= d
    ensures (counter + 1) % 0x1_0000_0000 == left < 128 && Dividing(x, d, 0, r, 0, left)
  {
    hide Pow2;
    NothingLeft(x);
    CounterWraps(left, counter);
  }

  lemma CounterWraps(left: nat, counter: int)
    requires left <= 128 && counter == if left == 0 then 0xFFFF_FFFF else left - 1
    ensures (counter + 1) % 0x1_0000_0000 == left
  {
  }

  /** Restoring division at bit `b`: the bits of `x` taken so far, divided by `d`, give `done` and
      leave `r`; `q` is `done` in its place. */
  ghost predicate Dividing(x: int, d: int, done: nat, r: int, q: int, b: nat) {
    && 1 <= d <= x < M / 2 && b < 128
    && x / Pow2(b) == done * d + r && 0 <= r < 2 * d && q == done * Pow2(b)
    && (r >= d ==> done % 2 == 0)
  }

  lemma DivideBit(x: int, d: int, done: nat, r: int, q: int, b: nat)
    requires Dividing(x, d, done, r, q, b + 1) && r < d
    ensures 0 <= r <= x / Pow2(b + 1) && Dividing(x, d, 2 * done, 2 * r + (if BitOf(x, b) then 1 else 0), q, b)
  {
    NextBit(x, b);
    DivideBitParts(done, d, r, q, Pow2(b), x / Pow2(b + 1), x / Pow2(b), if BitOf(x, b) then 1 else 0);
  }

  lemma DivideBitParts(done: nat, d: nat, r: int, q: int, p: nat, xb: int, xa: int, bit: int)
    requires xb == done * d + r && xa == 2 * xb + bit && q == done * (2 * p)
    ensures r <= xb && xa == 2 * done * d + (2 * r + bit) && q == 2 * done * p
  {
    DoubleQuotient(done, d);
    DoubleQuotient(done, p);
    Associate(done, p, 2);
    Associate(done, 2, p);
  }

  lemma DoubleQuotient(q: nat, d: nat)
    ensures q * d >= 0 && 2 * q * d == 2 * (q * d)
  {
  }

  lemma DivideSubtract(x: int, d: int, done: nat, r: int, q: int, b: nat)
    requires Dividing(x, d, done, r, q, b) && r >= d
    ensures Dividing(x, d, done + 1, r - d, q + Pow2(b), b)
    ensures !BitOf(q, b) && Wrap(q + Pow2(b)) == q + Pow2(b) && Wrap(r - d) == r - d
  {
    QuotientBelow(x, d, done, r, b);
    ShiftedQuotient(done, b);
    MulOrder(0, done + 1, Pow2(b));
    WrapSame(q + Pow2(b));
    WrapSame(r - d);
  }

  lemma DivideDone(x: int, d: int, done: nat, r: int, q: int)
    requires Dividing(x, d, done, r, q, 0) && r < d
    ensures q >= 0 && x == q * d + r && 0 <= r
  {
  }

  /** Taking one more bit of `x`. */
  lemma TakenBit(x: int, v: int, b: nat)
    requires 0 <= v <= x / Pow2(b + 1) && 0 <= x < M / 2
    ensures 0 <= 2 * v + (if BitOf(x, b) then 1 else 0) <= x / Pow2(b) <= x
    ensures Wrap(v * Pow2(1)) == 2 * v
  {
    NextBit(x, b);
    QuotientOfLess(x, Pow2(b));
    assert Pow2(1) == 2;
    WrapSame(2 * v);
  }
}
