/** A signed 128-bit integer of two words, with arithmetic modulo 2^128. */
module Int128Class {
  import opened NumberText
  import opened WordArithmetic

  class Int128 {
    var lo: Word
    var hi: SignedWord

    constructor (lo: Word, hi: SignedWord)
      ensures this.lo == lo && this.hi == hi
    {
      this.lo, this.hi := lo, hi;
    }

    constructor Copy(a: Int128)
      ensures lo == a.lo && hi == a.hi
    {
      lo, hi := a.lo, a.hi;
    }

    constructor FromUnsigned(a: Word)
      ensures Value() == a
    {
      lo, hi := a, 0;
    }

    constructor FromSigned(a: SignedWord)
      ensures Value() == a
    {
      lo, hi := ToWord(a), if a < 0 then -1 else 0;
    }

    function Value(): (v: int)
      reads this
      ensures -(M / 2) <= v < M / 2
    {
      hi * W + lo
    }

    // ---- tests -------------------------------------------------------------------------------------

    predicate IsZero()
      reads this
      ensures IsZero() <==> Value() == 0
    {
      !(hi != 0 || lo != 0)
    }

    /** As the code has it: low words are compared as signed if the high words are equal and negative. */
    predicate Less(b: Int128)
      reads this, b
    {
      if hi == b.hi then
        if hi < 0 then ToSigned(lo) < ToSigned(b.lo) else lo < b.lo
      else hi < b.hi
    }

    /** The two numbers on which `Less` is wrong: one high word, negative, and low words of different
        top bits. */
    predicate Misordered(b: Int128)
      reads this, b
    {
      hi == b.hi < 0 && (lo < 0x8000_0000_0000_0000 <= b.lo || b.lo < 0x8000_0000_0000_0000 <= lo)
    }

    lemma LessMeans(b: Int128)
      ensures Misordered(b) <==> (Less(b) != (Value() < b.Value()))
    {
    }

    lemma LessIsLess(b: Int128)
      requires Value() >= 0
      ensures Less(b) <==> Value() < b.Value()
    {
      LessMeans(b);
    }

    method IsLess(b: Int128) returns (less: bool)
      requires Value() >= 0
      ensures less == (Value() < b.Value())
    {
      LessIsLess(b);
      less := Less(b);
    }

    // ---- sums ------------------------------------------------------------------------------------------

    /** The negation; the least number is its own. */
    method Negated() returns (r: Int128)
      ensures fresh(r) && r.Value() == Wrap(-Value()) && (Value() != -(M / 2) ==> r.Value() == -Value())
    {
      hide Wrap, ToWord, ToSigned;
      NegatedWords(lo, hi);
      if Value() != -(M / 2) { WrapSame(-Value()); }
      if lo == 0 {
        r := new Int128(0, ToSigned(0 - hi));
      } else {
        r := new Int128(ToWord(0 - lo), -1 - hi);
      }
    }

    method Increment()
      modifies this
      ensures Value() == Wrap(old(Value()) + 1)
    {
      lo := ToWord(lo + 1);
      if lo == 0 {
        hi := ToSigned(hi + 1);
      }
    }

    method Decrement()
      modifies this
      ensures Value() == Wrap(old(Value()) - 1)
    {
      if lo == 0 {
        hi := ToSigned(hi - 1);
      }
      lo := ToWord(lo - 1);
    }

    /** Addition; `b` may be this object itself. */
    method AddAssign(b: Int128)
      modifies this
      ensures Value() == Wrap(old(Value()) + old(b.Value()))
    {
      hide Wrap, ToWord, ToSigned;
      SumOfWords(lo, hi, b.lo, b.hi);
      var oldLo := lo;
      lo := ToWord(lo + b.lo);
      hi := ToSigned(hi + b.hi);
      if lo < oldLo {
        hi := ToSigned(hi + 1);
      }
    }

    method SubAssign(b: Int128)
      modifies this
      ensures Value() == Wrap(old(Value()) - old(b.Value()))
    {
      var n := b.Negated();
      WrapSum(-b.Value(), Value());
      AddAssign(n);
    }

    // ---- bits and shifts -------------------------------------------------------------------------------

    /** Multiplication by 2^n. */
    method ShiftLeftAssign(n: nat)
      modifies this
      ensures Value() == Wrap(old(Value()) * Pow2(n))
    {
      if n >= 128 {
        LeftLarge(Value(), n);
        lo, hi := 0, 0;
        return;
      }
      if n >= 64 {
        LeftMedium(lo, hi, n);
        hi := ToSigned(ToWord(lo * Pow2(n - 64)));
        lo := 0;
        return;
      }
      if n > 0 {
        LeftSmall(lo, hi, n);
        hi := LeftHigh(lo, hi, n);
        lo := ToWord(lo * Pow2(n));
      }
    }

    /** Division by 2^n, rounding down. */
    method ShiftRightAssign(n: nat)
      modifies this
      ensures Value() == old(Value()) / Pow2(n)
    {
      if n >= 128 {
        RightLarge(Value(), n);
        hi := if hi < 0 then -1 else 0;
        lo := ToWord(hi);
        return;
      }
      if n >= 64 {
        RightMedium(lo, hi, n);
        lo := ToWord(hi / Pow2(n - 64));
        hi := if hi < 0 then -1 else 0;
        return;
      }
      if n > 0 {
        RightSmall(lo, hi, n);
        lo := RightLow(lo, hi, n);
        hi := hi / Pow2(n);
      }
    }

    /** Whether bit `n` is set; beyond the last bit the sign goes on. */
    predicate Bit(n: nat)
      reads this
    {
      if n >= 128 then hi < 0
      else if n < 64 then And(lo, Pow2(n)) != 0
      else And(ToWord(hi), Pow2(n - 64)) != 0
    }

    lemma BitMeans(n: nat)
      ensures Bit(n) <==> BitOf(Value(), n)
    {
      if n >= 128 {
        HighBits(lo, hi, n);
        SignBits(hi, n - 64);
      } else if n < 64 {
        LowBits(lo, hi, n);
        AndBit(lo, n);
      } else {
        HighBits(lo, hi, n);
        WordBits(hi, n - 64);
        AndBit(ToWord(hi), n - 64);
      }
    }

    /** Sets or clears bit `n`, if there is one. */
    method SetBit(n: nat, val: bool)
      modifies this
      ensures n >= 128 || BitOf(old(Value()), n) == val ==> Value() == old(Value())
      ensures n < 128 && BitOf(old(Value()), n) != val ==>
                Value() == Wrap(if val then old(Value()) + Pow2(n) else old(Value()) - Pow2(n))
    {
      if n >= 128 {
        return;
      }
      if val {
        if n < 64 {
          LowBitSet(lo, hi, n);
          lo := Or(lo, Pow2(n));
        } else {
          HighBitSet(lo, hi, n);
          hi := ToSigned(Or(ToWord(hi), Pow2(n - 64)));
        }
      } else {
        if n < 64 {
          LowBitCleared(lo, hi, n);
          lo := And(lo, Not(0) - Pow2(n));
        } else {
          HighBitCleared(lo, hi, n);
          hi := ToSigned(And(ToWord(hi), Not(0) - Pow2(n - 64)));
        }
      }
    }

    /** Shift-and-add multiplication; `b` may be this object itself. */
    method MulAssign(b: Int128)
      modifies this
      ensures Value() == Wrap(old(Value()) * old(b.Value()))
    {
      hide Wrap, Pow2, PartialProduct, Shifted;
      TimesZeroOne(Value());
      if b.IsZero() {
        lo, hi := 0, 0;
        return;
      }
      if b.lo == 1 && b.hi == 0 {
        return;
      }
      var a := new Int128.Copy(this);
      var t := new Int128.Copy(b);
      ghost var x, y := a.Value(), t.Value();
      ProductStart(x, y);
      lo, hi := 0, 0;
      var i := 0;
      while i < 128
        invariant 0 <= i <= 128 && fresh(a) && fresh(t) && a != t && a.Value() == x
        invariant t.Value() == Shifted(y, i) && Value() == PartialProduct(x, y, i)
      {
        MulStep(a, t, i, x, y);
        i := i + 1;
      }
      ProductDone(x, y);
    }

    /** Adds `a`, shifted, if the lowest bit of what is left of the factor, `t`, is set. */
    method MulStep(a: Int128, t: Int128, i: nat, ghost x: int, ghost y: int)
      requires a != this && t != this && a != t && a.Value() == x && t.Value() == Shifted(y, i)
      requires Value() == PartialProduct(x, y, i)
      modifies this, t
      ensures t.Value() == Shifted(y, i + 1) && Value() == PartialProduct(x, y, i + 1)
    {
      hide Wrap, Pow2, PartialProduct, Shifted;
      PartialStep(x, y, i);
      AndOne(t.lo);
      LowEven(t.lo, t.hi);
      if And(t.lo, 1) != 0 {
        var s := new Int128.Copy(a);
        s.ShiftLeftAssign(i);
        AddAssign(s);
      }
      t.ShiftRightAssign(1);
    }

    // ---- division ---------------------------------------------------------------------------------------

    /** What comparing with zero comes to. */
    predicate IsNegative()
      reads this
      ensures IsNegative() <==> Value() < 0
    {
      hi < 0
    }

    method Assign(a: Int128)
      modifies this
      ensures lo == old(a.lo) && hi == old(a.hi) && Value() == old(a.Value())
    {
      lo, hi := a.lo, a.hi;
    }

    method Magnitude() returns (r: Int128)
      ensures fresh(r) && (Value() != -(M / 2) ==> r.Value() == Abs(Value())) && (Value() == -(M / 2) ==> r.Value() == Value())
    {
      if IsNegative() {
        r := Negated();
      } else {
        r := new Int128.Copy(this);
      }
    }

    /** Shifts the next bit of `dd` in from the right. */
    method TakeBit(dd: Int128, b: nat)
      requires dd != this && 0 <= Value() <= dd.Value() / Pow2(b + 1) && 0 <= dd.Value()
      modifies this
      ensures Value() == 2 * old(Value()) + (if BitOf(dd.Value(), b) then 1 else 0) <= dd.Value() / Pow2(b)
    {
      TakenBit(dd.Value(), Value(), b);
      dd.BitMeans(b);
      ShiftLeftAssign(1);
      LowEven(lo, hi);
      OrBit(lo, 0);
      if dd.Bit(b) {
        lo := Or(lo, 1);
      }
    }

    /** Division rounding toward zero. `remainder` may be the dividend or the divisor. Of the least
        number nothing is divided. */
    method Div(divisor: Int128, remainder: Int128) returns (q: Int128)
      requires divisor.Value() != 0 && divisor.Value() != -(M / 2)
      modifies remainder
      ensures fresh(q)
      ensures old(Value()) != -(M / 2) ==> Truncated(old(Value()), old(divisor.Value()), q.Value(), remainder.Value())
      ensures old(Value()) == -(M / 2) ==> q.Value() == 0 && remainder.Value() == old(Value())
    {
      hide Truncated, Wrap;
      var ds := divisor.Magnitude();
      var dd := Magnitude();
      if dd.Less(ds) {
        dd.LessMeans(ds);
        if Value() != -(M / 2) { SmallTruncated(Value(), divisor.Value()); }
        remainder.Assign(this);
        q := new Int128(0, 0);
        return;
      }
      var quotient, rest := LongDivision(dd, ds);
      SignsTruncated(Value(), divisor.Value(), quotient.Value(), rest.Value());
      q := WithSign(quotient, divisor.IsNegative() != IsNegative());
      var r := WithSign(rest, IsNegative());
      remainder.Assign(r);
    }

    static method WithSign(v: Int128, negative: bool) returns (s: Int128)
      requires 0 <= v.Value()
      ensures s == v || fresh(s)
      ensures s.Value() == if negative then 0 - v.Value() else v.Value()
    {
      s := v;
      if negative {
        s := v.Negated();
      }
    }

    /** Restoring division of numbers that are not negative. */
    static method LongDivision(dd: Int128, ds: Int128) returns (q: Int128, r: Int128)
      requires 1 <= ds.Value() <= dd.Value()
      ensures fresh(q) && fresh(r) && q != r
      ensures 0 <= q.Value() && 0 <= r.Value() < ds.Value() && dd.Value() == q.Value() * ds.Value() + r.Value()
    {
      r := new Int128(0, 0);
      q := new Int128(0, 0);
      var b := FirstBits(dd, ds, r);
      ghost var done: nat := 0;
      ghost var x, d := dd.Value(), ds.Value();
      while true
        invariant fresh(q) && fresh(r) && q != r
        invariant Dividing(x, d, done, r.Value(), q.Value(), b)
        decreases b, r.Value()
      {
        var less := r.IsLess(ds);
        if less {
          if b == 0 {
            break;
          }
          b := b - 1;
          BringDown(r, dd, b, d, done, q.Value());
          done := 2 * done;
        } else {
          Subtract(r, ds, q, b, x, done);
          done := done + 1;
        }
      }
      DivideDone(x, d, done, r.Value(), q.Value());
    }

    static method BringDown(r: Int128, dd: Int128, b: nat, ghost d: int, ghost done: nat, ghost q: int)
      requires r != dd && Dividing(dd.Value(), d, done, r.Value(), q, b + 1) && r.Value() < d
      modifies r
      ensures Dividing(dd.Value(), d, 2 * done, r.Value(), q, b)
    {
      DivideBit(dd.Value(), d, done, r.Value(), q, b);
      r.TakeBit(dd, b);
    }

    static method Subtract(r: Int128, ds: Int128, q: Int128, b: nat, ghost x: int, ghost done: nat)
      requires r != ds && q != ds && r != q && Dividing(x, ds.Value(), done, r.Value(), q.Value(), b) && r.Value() >= ds.Value()
      modifies r, q
      ensures Dividing(x, ds.Value(), done + 1, r.Value(), q.Value(), b) && r.Value() < old(r.Value())
    {
      DivideSubtract(x, ds.Value(), done, r.Value(), q.Value(), b);
      r.SubAssign(ds);
      q.SetBit(b, true);
    }

    /** Brings the first bits of `dd` into `r`, until it is no less than `ds`; the number of bits left. */
    static method FirstBits(dd: Int128, ds: Int128, r: Int128) returns (b: nat)
      requires 1 <= ds.Value() <= dd.Value() && r != dd && r != ds && r.Value() == 0
      modifies r
      ensures ds.Value() <= r.Value() && Dividing(dd.Value(), ds.Value(), 0, r.Value(), 0, b)
    {
      // an unsigned counter, which passes zero if all bits are taken
      var counter := 127;
      ghost var left: nat := 128;
      ghost var x, d := dd.Value(), ds.Value();
      TakeStart(x, d);
      var less := r.IsLess(ds);
      while less
        invariant Taking(x, d, r.Value(), left, counter) && less == (r.Value() < d)
        decreases left
      {
        TakeOne(x, d, r.Value(), left, counter);
        r.TakeBit(dd, counter);
        counter := if counter == 0 then 0xFFFF_FFFF else counter - 1;
        left := left - 1;
        less := r.IsLess(ds);
      }
      TakeDone(x, d, r.Value(), left, counter);
      b := (counter + 1) % 0x1_0000_0000;
    }

    /** The quotient; `b` may be this object itself. */
    method DivAssign(b: Int128)
      requires b.Value() != 0 && b.Value() != -(M / 2)
      modifies this
      ensures old(Value()) != -(M / 2) ==> exists r :: Truncated(old(Value()), old(b.Value()), Value(), r)
      ensures old(Value()) == -(M / 2) ==> Value() == 0
    {
      var dummy := new Int128(0, 0);
      var q := Div(b, dummy);
      ghost var r := dummy.Value();
      Assign(q);
      assert old(Value()) != -(M / 2) ==> Truncated(old(Value()), old(b.Value()), Value(), r);
    }

    /** The remainder, written to the dividend while it is being divided. */
    method ModAssign(b: Int128)
      requires b.Value() != 0 && b.Value() != -(M / 2)
      modifies this
      ensures old(Value()) != -(M / 2) ==> exists q :: Truncated(old(Value()), old(b.Value()), q, Value())
      ensures old(Value()) == -(M / 2) ==> Value() == old(Value())
    {
      var q := Div(b, this);
      assert old(Value()) != -(M / 2) ==> Truncated(old(Value()), old(b.Value()), q.Value(), Value());
    }

    // ---- text --------------------------------------------------------------------------------------------

    /** Writes the number, last digit first, to the end of a buffer. */
    method Str(radix: int) returns (text: string)
      ensures text == Text(Value(), radix)
    {
      hide Progress, Digits;
      if IsZero() {
        return "0";
      }
      if radix < 2 || radix > 37 {
        return "(invalid radix)";
      }
      var sz := new char[256](_ => '\0');
      var ii := Magnitude();
      var aux := new Int128.FromSigned(radix);
      var i := 255;
      ProgressStart(Value(), radix, ii.Value());
      assert sz[255..255] == "";
      while !ii.IsZero() && i != 0
        invariant fresh(sz) && fresh(aux) && aux.Value() == radix
        invariant 1 <= i <= 255 && |sz[i..255]| < 128 && Progress(Value(), radix, ii.Value(), sz[i..255])
        decreases Abs(ii.Value())
      {
        var c: nat;
        ii, c := NextDigit(ii, aux, Value(), sz[i..255]);
        i := i - 1;
        ghost var rest := sz[i + 1..255];
        sz[i] := DigitChar(c);
        assert sz[i..255] == [DigitChar(c)] + rest;
      }
      ghost var digits := sz[i..255];
      ProgressDone(Value(), radix, digits);
      if IsNegative() {
        i := i - 1;
        sz[i] := '-';
        assert sz[i..255] == ['-'] + digits;
      }
      text := sz[i..255];
    }

    /** Divides what is left by the radix. */
    static method NextDigit(ii: Int128, aux: Int128, ghost v: int, ghost s: string) returns (rest: Int128, c: nat)
      requires 2 <= aux.Value() <= 37 && ii.Value() != 0 && Progress(v, aux.Value(), ii.Value(), s)
      ensures c < 37 && |s| < 127 && Abs(rest.Value()) < Abs(ii.Value())
      ensures Progress(v, aux.Value(), rest.Value(), [DigitChar(c)] + s)
    {
      var r := new Int128(0, 0);
      rest := ii.Div(aux, r);
      ProgressStep(v, aux.Value(), ii.Value(), s, rest.Value(), r.Value());
      LowWord(r.lo, r.hi);
      c := r.lo;
    }

    method TakeDigit(radix: nat, n: nat)
      requires radix <= 16 && n < 37
      modifies this
      ensures Value() == Wrap(Wrap(old(Value()) * radix) + n)
    {
      var r := new Int128.FromUnsigned(radix);
      MulAssign(r);
      var d := new Int128.FromUnsigned(n);
      AddAssign(d);
    }

    /** Reads a number, up to the first character that does not belong to it. */
    method Set(sz: string)
      modifies this
      ensures Value() == Parsed(sz)
    {
      hide Wrap, ToSigned;
      lo, hi := 0, 0;
      if sz == "" {
        return;
      }
      var radix, i, minus := 10, 0, false;
      if At(sz, i) == '-' {
        i, minus := i + 1, true;
      }
      ghost var start := i;
      if At(sz, i) == '0' {
        radix, i := 8, i + 1;
        if At(sz, i) == 'x' {
          radix, i := 16, i + 1;
        }
      }
      ghost var number := ParseDigits(0, sz[i..], radix);
      assert number == Unsigned(sz[start..]);
      while i < |sz|
        invariant 0 <= i <= |sz| && ParseDigits(Value(), sz[i..], radix) == number
      {
        var digit := DigitOf(sz[i], radix);
        if digit.NoDigit? {
          break;
        }
        ParseStep(Value(), sz, i, radix, digit.value);
        TakeDigit(radix, digit.value);
        i := i + 1;
      }
      if minus {
        var zero := new Int128(0, 0);
        zero.SubAssign(this);
        Assign(zero);
      }
    }
  }
}
