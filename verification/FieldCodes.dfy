/** How typed values are laid out as bits. */
module FieldCodes {
  import opened BitStrings
  import opened Sequences
  import opened WordArithmetic

  datatype Order = BigEndian | LittleEndian

  // ---- whole bytes --------------------------------------------------------------------------------

  function Low16(v: bv16): Byte { (v & 0xFF) as Byte }
  function Low32(v: bv32): Byte { (v & 0xFF) as Byte }
  function Low64(v: bv64): Byte { (v & 0xFF) as Byte }

  /** The value of some bytes, the most significant first. */
  function Join16(a: Byte, b: Byte): bv16 { (a as bv16 << 8) | b as bv16 }

  function Join24(a: Byte, b: Byte, c: Byte): bv32 { (a as bv32 << 16) | (b as bv32 << 8) | c as bv32 }

  function Join32(a: Byte, b: Byte, c: Byte, d: Byte): bv32 {
    (a as bv32 << 24) | (b as bv32 << 16) | (c as bv32 << 8) | d as bv32
  }

  function Join48(a: Byte, b: Byte, c: Byte, d: Byte, e: Byte, f: Byte): bv64 {
    (a as bv64 << 40) | (b as bv64 << 32) | (c as bv64 << 24) | (d as bv64 << 16) | (e as bv64 << 8) | f as bv64
  }

  function Join64(a: Byte, b: Byte, c: Byte, d: Byte, e: Byte, f: Byte, g: Byte, h: Byte): bv64 {
    (a as bv64 << 56) | (b as bv64 << 48) | (c as bv64 << 40) | (d as bv64 << 32)
    | (e as bv64 << 24) | (f as bv64 << 16) | (g as bv64 << 8) | h as bv64
  }

  lemma Split16(v: bv16)
    ensures Join16(Low16(v >> 8), Low16(v)) == v
  {
  }

  lemma Split24(v: bv32)
    requires v >> 24 == 0
    ensures Join24(Low32(v >> 16), Low32(v >> 8), Low32(v)) == v
  {
  }

  lemma Split32(v: bv32)
    ensures Join32(Low32(v >> 24), Low32(v >> 16), Low32(v >> 8), Low32(v)) == v
  {
  }

  lemma Split48(v: bv64)
    requires v >> 48 == 0
    ensures Join48(Low64(v >> 40), Low64(v >> 32), Low64(v >> 24), Low64(v >> 16), Low64(v >> 8), Low64(v)) == v
  {
  }

  lemma Split64(v: bv64)
    ensures Join64(Low64(v >> 56), Low64(v >> 48), Low64(v >> 40), Low64(v >> 32),
                   Low64(v >> 24), Low64(v >> 16), Low64(v >> 8), Low64(v)) == v
  {
  }

  lemma Parts16(a: Byte, b: Byte)
    ensures var v := Join16(a, b); Low16(v >> 8) == a && Low16(v) == b
  {
  }

  lemma Parts24(a: Byte, b: Byte, c: Byte)
    ensures var v := Join24(a, b, c);
            v >> 24 == 0 && Low32(v >> 16) == a && Low32(v >> 8) == b && Low32(v) == c
  {
  }

  lemma Parts32(a: Byte, b: Byte, c: Byte, d: Byte)
    ensures var v := Join32(a, b, c, d);
            Low32(v >> 24) == a && Low32(v >> 16) == b && Low32(v >> 8) == c && Low32(v) == d
  {
  }

  lemma Parts48(a: Byte, b: Byte, c: Byte, d: Byte, e: Byte, f: Byte)
    ensures var v := Join48(a, b, c, d, e, f);
            && v >> 48 == 0 && Low64(v >> 40) == a && Low64(v >> 32) == b && Low64(v >> 24) == c
            && Low64(v >> 16) == d && Low64(v >> 8) == e && Low64(v) == f
  {
  }

  lemma Parts64(a: Byte, b: Byte, c: Byte, d: Byte, e: Byte, f: Byte, g: Byte, h: Byte)
    ensures var v := Join64(a, b, c, d, e, f, g, h);
            && Low64(v >> 56) == a && Low64(v >> 48) == b && Low64(v >> 40) == c && Low64(v >> 32) == d
            && Low64(v >> 24) == e && Low64(v >> 16) == f && Low64(v >> 8) == g && Low64(v) == h
  {
  }

  function Ordered(b: seq<Byte>, order: Order): (r: seq<Byte>)
    ensures |r| == |b|
  {
    if order.BigEndian? then b else Reversed(b)
  }

  lemma OrderedTwice(b: seq<Byte>, order: Order)
    ensures Ordered(Ordered(b, order), order) == b
  {
  }

  /** The bytes of a value, in the order they are sent in. */
  function Bytes16(v: bv16, order: Order): seq<Byte> { Ordered([Low16(v >> 8), Low16(v)], order) }

  function Bytes24(v: bv32, order: Order): seq<Byte> { Ordered([Low32(v >> 16), Low32(v >> 8), Low32(v)], order) }

  function Bytes32(v: bv32, order: Order): seq<Byte> {
    Ordered([Low32(v >> 24), Low32(v >> 16), Low32(v >> 8), Low32(v)], order)
  }

  function Bytes48(v: bv64, order: Order): seq<Byte> {
    Ordered([Low64(v >> 40), Low64(v >> 32), Low64(v >> 24), Low64(v >> 16), Low64(v >> 8), Low64(v)], order)
  }

  function Bytes64(v: bv64, order: Order): seq<Byte> {
    Ordered([Low64(v >> 56), Low64(v >> 48), Low64(v >> 40), Low64(v >> 32), Low64(v >> 24), Low64(v >> 16), Low64(v >> 8), Low64(v)], order)
  }

  // ---- small and odd sizes --------------------------------------------------------------------------

  function Bits2(v: Byte): BitString { [v & 0x2 != 0, v & 0x1 != 0] }

  function Bits4(v: Byte): BitString { [v & 0x8 != 0, v & 0x4 != 0, v & 0x2 != 0, v & 0x1 != 0] }

  function Value2(s: BitString): Byte
    requires |s| == 2
  {
    One(s[0], 0x2) | One(s[1], 0x1)
  }

  function Value4(s: BitString): Byte
    requires |s| == 4
  {
    One(s[0], 0x8) | One(s[1], 0x4) | One(s[2], 0x2) | One(s[3], 0x1)
  }

  lemma RoundTrip2(v: Byte)
    requires v >> 2 == 0
    ensures Value2(Bits2(v)) == v
  {
  }

  lemma RoundTrip4(v: Byte)
    requires v >> 4 == 0
    ensures Value4(Bits4(v)) == v
  {
  }

  /** The low `n` bits of `v`, most significant first. */
  function NBits(v: nat, n: nat): (s: BitString)
    ensures |s| == n
  {
    if n == 0 then [] else [BitOf(v, n - 1)] + NBits(v, n - 1)
  }

  function NValue(s: BitString): nat {
    if s == [] then 0 else NValue(s[1..]) + if s[0] then Pow2(|s| - 1) else 0
  }

  lemma {:induction false} RoundTripN(v: nat, n: nat)
    ensures NValue(NBits(v, n)) == v % Pow2(n)
  {
    if n > 0 {
      RoundTripN(v, n - 1);
      RemainderStep(v, n - 1);
      assert NBits(v, n)[1..] == NBits(v, n - 1);
    }
  }

  lemma {:induction false} NValueFits(s: BitString)
    ensures NValue(s) < Pow2(|s|)
  {
    if s != [] { NValueFits(s[1..]); }
  }

  // ---- fields -----------------------------------------------------------------------------------------

  datatype Field =
    | FBit(b: bool) | FUint2(u: Byte) | FUint4(u: Byte) | FUint8(u: Byte)
    | FUint16(v16: bv16, order: Order) | FUint24(v24: bv32, order: Order) | FUint32(v32: bv32, order: Order)
    | FUint48(v48: bv64, order: Order) | FUint64(v64: bv64, order: Order)
    | FNBits(v: Word, n: nat) | FBytes(bytes: seq<Byte>) | FString(text: seq<Byte>)

  /** What a reader has to know of a field. */
  datatype Shape =
    | SBit | SUint2 | SUint4 | SUint8 | SUint16(order: Order) | SUint24(order: Order) | SUint32(order: Order)
    | SUint48(order: Order) | SUint64(order: Order) | SNBits(n: nat) | SBytes(count: nat) | SString

  function ShapeOf(f: Field): Shape {
    match f
    case FBit(_) => SBit
    case FUint2(_) => SUint2
    case FUint4(_) => SUint4
    case FUint8(_) => SUint8
    case FUint16(_, o) => SUint16(o)
    case FUint24(_, o) => SUint24(o)
    case FUint32(_, o) => SUint32(o)
    case FUint48(_, o) => SUint48(o)
    case FUint64(_, o) => SUint64(o)
    case FNBits(_, n) => SNBits(n)
    case FBytes(bytes) => SBytes(|bytes|)
    case FString(_) => SString
  }

  /** The values the writers accept, and strings without zero. */
  predicate Fits(f: Field) {
    match f
    case FUint2(u) => u >> 2 == 0
    case FUint4(u) => u >> 4 == 0
    case FUint24(v, _) => v >> 24 == 0
    case FUint48(v, _) => v >> 48 == 0
    case FNBits(v, n) => 1 <= n <= 64 && v < Pow2(n)
    case FString(text) => 0 !in text
    case _ => true
  }

  function Encode(f: Field): BitString {
    match f
    case FBit(b) => [b]
    case FUint2(u) => Bits2(u)
    case FUint4(u) => Bits4(u)
    case FUint8(u) => ByteBits(u)
    case FUint16(v, o) => BytesBits(Bytes16(v, o))
    case FUint24(v, o) => BytesBits(Bytes24(v, o))
    case FUint32(v, o) => BytesBits(Bytes32(v, o))
    case FUint48(v, o) => BytesBits(Bytes48(v, o))
    case FUint64(v, o) => BytesBits(Bytes64(v, o))
    case FNBits(v, n) => NBits(v, n)
    case FBytes(bytes) => BytesBits(bytes)
    case FString(text) => BytesBits(text + [0])
  }

  /** The bits of the fields from `k` on. */
  function EncodeFrom(fields: seq<Field>, k: nat): BitString
    requires k <= |fields|
    decreases |fields| - k
  {
    if k == |fields| then [] else Encode(fields[k]) + EncodeFrom(fields, k + 1)
  }

  function EncodeAll(fields: seq<Field>): BitString { EncodeFrom(fields, 0) }

  // ---- from bits back to values -----------------------------------------------------------------------

  lemma {:induction false} NBitsBelow(v: nat, b: nat, m: nat, k: nat)
    requires k <= m
    ensures NBits(v + b * Pow2(m), k) == NBits(v, k)
  {
    if k > 0 {
      NBitsBelow(v, b, m, k - 1);
      BitBelow(v, b, m, k - 1);
    }
  }

  lemma BitBelow(v: nat, b: nat, m: nat, i: nat)
    requires i < m
    ensures BitOf(v + b * Pow2(m), i) == BitOf(v, i)
  {
    hide Pow2;
    var p, h := Pow2(i), Pow2(m - i - 1);
    Pow2Add(i, m - i);
    Pow2Doubles(m - i - 1);
    assert Pow2(m) == p * (2 * h);
    BitBelowParts(v, b, p, h, v / p);
  }

  lemma BitBelowParts(v: nat, b: nat, p: nat, h: nat, q: nat)
    requires p >= 1 && q == v / p
    ensures (v + b * (p * (2 * h))) / p % 2 == q % 2
  {
    var r := v % p;
    Associate(b, 2 * h, p);
    Distribute(q, b * (2 * h), p);
    DivUnique(v + b * (p * (2 * h)), p, q + b * (2 * h), r);
    EvenTimes(b, 2 * h, h, q);
  }

  lemma {:induction false} NInverse(s: BitString)
    ensures NBits(NValue(s), |s|) == s
  {
    if s != [] {
      var t, n := s[1..], |s| - 1;
      NInverse(t);
      NValueFits(t);
      NBitsBelow(NValue(t), if s[0] then 1 else 0, n, n);
      DivUnique(NValue(s), Pow2(n), if s[0] then 1 else 0, NValue(t));
    }
  }

  lemma BytesSame(a: seq<Byte>, b: seq<Byte>)
    requires BytesBits(a) == BytesBits(b) && |a| == |b|
    ensures a == b
  {
    forall i | 0 <= i < |a|
      ensures a[i] == b[i]
    {
      Chunk(a, i);
      Chunk(b, i);
      ByteRoundTrip(a[i]);
      ByteRoundTrip(b[i]);
    }
  }

  lemma SamePrefix(a: BitString, r: BitString, b: BitString, s: BitString)
    requires a + r == b + s && |a| == |b|
    ensures a == b && r == s
  {
    assert (a + r)[..|a|] == a && (b + s)[..|a|] == b && (a + r)[|a|..] == r && (b + s)[|a|..] == s;
  }

  /** Bytes read off the front of the same bits agree as far as both go. */
  lemma BytesAgree(a: seq<Byte>, r: BitString, b: seq<Byte>, s: BitString, i: nat)
    requires BytesBits(a) + r == BytesBits(b) + s && i < |a| && i < |b|
    ensures a[i] == b[i]
  {
    Chunk(a, i);
    Chunk(b, i);
    assert (BytesBits(a) + r)[8 * i..8 * i + 8] == ByteBits(a[i]);
    assert (BytesBits(b) + s)[8 * i..8 * i + 8] == ByteBits(b[i]);
    ByteRoundTrip(a[i]);
    ByteRoundTrip(b[i]);
  }

  /** A string without zero ends at the first zero byte. */
  lemma StringEnd(a: seq<Byte>, r: BitString, b: seq<Byte>, s: BitString)
    requires 0 !in a && 0 !in b && BytesBits(a + [0]) + r == BytesBits(b + [0]) + s
    ensures |a| == |b|
  {
    if |a| < |b| {
      BytesAgree(a + [0], r, b + [0], s, |a|);
      assert false;
    } else if |b| < |a| {
      BytesAgree(a + [0], r, b + [0], s, |b|);
      assert false;
    }
  }

  /** Two fields of one shape that begin the same bits are the same field: what a reader takes off
      the front is determined by the bits alone. */
  lemma Decodable(f: Field, r: BitString, g: Field, s: BitString)
    requires Fits(f) && Fits(g) && ShapeOf(f) == ShapeOf(g) && Encode(f) + r == Encode(g) + s
    ensures f == g && r == s
  {
    hide BytesBits, NBits, Pow2;
    match f {
      case FString(text) =>
        StringEnd(text, r, g.text, s);
        SamePrefix(Encode(f), r, Encode(g), s);
        BytesSame(text + [0], g.text + [0]);
        assert text == (text + [0])[..|text|] == g.text;
      case FBytes(bytes) =>
        SamePrefix(Encode(f), r, Encode(g), s);
        BytesSame(bytes, g.bytes);
      case FNBits(v, n) =>
        SamePrefix(Encode(f), r, Encode(g), s);
        RoundTripN(v, n);
        RoundTripN(g.v, n);
        SmallRemainder(v, n);
        SmallRemainder(g.v, n);
      case _ =>
        SamePrefix(Encode(f), r, Encode(g), s);
        FixedDecodable(f, g);
    }
  }

  lemma SmallRemainder(v: nat, n: nat)
    requires v < Pow2(n)
    ensures v % Pow2(n) == v
  {
    DivUnique(v, Pow2(n), 0, v);
  }

  lemma FixedDecodable(f: Field, g: Field)
    requires Fits(f) && Fits(g) && ShapeOf(f) == ShapeOf(g) && Encode(f) == Encode(g)
    requires !f.FString? && !f.FBytes? && !f.FNBits?
    ensures f == g
  {
    hide Bytes16, Bytes24, Bytes32, Bytes48, Bytes64, BytesBits, ByteBits, Bits2, Bits4, Ordered;
    match f {
      case FBit(_) =>
      case FUint2(u) =>
        RoundTrip2(u);
        RoundTrip2(g.u);
      case FUint4(u) =>
        RoundTrip4(u);
        RoundTrip4(g.u);
      case FUint8(u) =>
        ByteRoundTrip(u);
        ByteRoundTrip(g.u);
      case FUint16(v, o) =>
        BytesSame(Bytes16(v, o), Bytes16(g.v16, o));
        Unique16(v, g.v16, o);
      case FUint24(v, o) =>
        BytesSame(Bytes24(v, o), Bytes24(g.v24, o));
        Unique24(v, g.v24, o);
      case FUint32(v, o) =>
        BytesSame(Bytes32(v, o), Bytes32(g.v32, o));
        Unique32(v, g.v32, o);
      case FUint48(v, o) =>
        BytesSame(Bytes48(v, o), Bytes48(g.v48, o));
        Unique48(v, g.v48, o);
      case FUint64(v, o) =>
        BytesSame(Bytes64(v, o), Bytes64(g.v64, o));
        Unique64(v, g.v64, o);
    }
  }

  lemma OrderedSame(a: seq<Byte>, b: seq<Byte>, order: Order)
    requires Ordered(a, order) == Ordered(b, order)
    ensures a == b
  {
    OrderedTwice(a, order);
    OrderedTwice(b, order);
  }

  lemma Unique16(v: bv16, w: bv16, order: Order)
    requires Bytes16(v, order) == Bytes16(w, order)
    ensures v == w
  {
    OrderedSame([Low16(v >> 8), Low16(v)], [Low16(w >> 8), Low16(w)], order);
    Split16(v);
    Split16(w);
  }

  lemma Unique24(v: bv32, w: bv32, order: Order)
    requires Bytes24(v, order) == Bytes24(w, order) && v >> 24 == 0 && w >> 24 == 0
    ensures v == w
  {
    OrderedSame([Low32(v >> 16), Low32(v >> 8), Low32(v)], [Low32(w >> 16), Low32(w >> 8), Low32(w)], order);
    Split24(v);
    Split24(w);
  }

  lemma Unique32(v: bv32, w: bv32, order: Order)
    requires Bytes32(v, order) == Bytes32(w, order)
    ensures v == w
  {
    var a, b := Bytes32(v, BigEndian), Bytes32(w, BigEndian);
    OrderedSame(a, b, order);
    assert a[0] == b[0] && a[1] == b[1] && a[2] == b[2] && a[3] == b[3];
    Split32(v);
    Split32(w);
  }

  lemma Unique48(v: bv64, w: bv64, order: Order)
    requires Bytes48(v, order) == Bytes48(w, order) && v >> 48 == 0 && w >> 48 == 0
    ensures v == w
  {
    var a, b := Bytes48(v, BigEndian), Bytes48(w, BigEndian);
    OrderedSame(a, b, order);
    assert a[0] == b[0] && a[1] == b[1] && a[2] == b[2] && a[3] == b[3] && a[4] == b[4] && a[5] == b[5];
    Split48(v);
    Split48(w);
  }

  lemma Unique64(v: bv64, w: bv64, order: Order)
    requires Bytes64(v, order) == Bytes64(w, order)
    ensures v == w
  {
    var a, b := Bytes64(v, BigEndian), Bytes64(w, BigEndian);
    OrderedSame(a, b, order);
    assert a[0] == b[0] && a[1] == b[1] && a[2] == b[2] && a[3] == b[3];
    assert a[4] == b[4] && a[5] == b[5] && a[6] == b[6] && a[7] == b[7];
    Split64(v);
    Split64(w);
  }

  // ---- values of bytes ----------------------------------------------------------------------------------

  function Value16(bytes: seq<Byte>, order: Order): (v: bv16)
    requires |bytes| == 2
  {
    var b := Ordered(bytes, order);
    Join16(b[0], b[1])
  }

  function Value24(bytes: seq<Byte>, order: Order): (v: bv32)
    requires |bytes| == 3
  {
    var b := Ordered(bytes, order);
    Join24(b[0], b[1], b[2])
  }

  function Value32(bytes: seq<Byte>, order: Order): (v: bv32)
    requires |bytes| == 4
  {
    var b := Ordered(bytes, order);
    Join32(b[0], b[1], b[2], b[3])
  }

  function Value48(bytes: seq<Byte>, order: Order): (v: bv64)
    requires |bytes| == 6
  {
    var b := Ordered(bytes, order);
    Join48(b[0], b[1], b[2], b[3], b[4], b[5])
  }

  function Value64(bytes: seq<Byte>, order: Order): (v: bv64)
    requires |bytes| == 8
  {
    var b := Ordered(bytes, order);
    Join64(b[0], b[1], b[2], b[3], b[4], b[5], b[6], b[7])
  }

  lemma BytesOf16(bytes: seq<Byte>, order: Order)
    requires |bytes| == 2
    ensures Bytes16(Value16(bytes, order), order) == bytes
  {
    var b := Ordered(bytes, order);
    Parts16(b[0], b[1]);
    assert b == [b[0], b[1]];
    OrderedTwice(bytes, order);
  }

  lemma BytesOf24(bytes: seq<Byte>, order: Order)
    requires |bytes| == 3
    ensures Bytes24(Value24(bytes, order), order) == bytes && Value24(bytes, order) >> 24 == 0
  {
    var b := Ordered(bytes, order);
    Parts24(b[0], b[1], b[2]);
    assert b == [b[0], b[1], b[2]];
    OrderedTwice(bytes, order);
  }

  lemma BytesOf32(bytes: seq<Byte>, order: Order)
    requires |bytes| == 4
    ensures Bytes32(Value32(bytes, order), order) == bytes
  {
    var b := Ordered(bytes, order);
    Parts32(b[0], b[1], b[2], b[3]);
    assert b == [b[0], b[1], b[2], b[3]];
    OrderedTwice(bytes, order);
  }

  lemma BytesOf48(bytes: seq<Byte>, order: Order)
    requires |bytes| == 6
    ensures Bytes48(Value48(bytes, order), order) == bytes && Value48(bytes, order) >> 48 == 0
  {
    var b := Ordered(bytes, order);
    Parts48(b[0], b[1], b[2], b[3], b[4], b[5]);
    assert b == [b[0], b[1], b[2], b[3], b[4], b[5]];
    OrderedTwice(bytes, order);
  }

  lemma BytesOf64(bytes: seq<Byte>, order: Order)
    requires |bytes| == 8
    ensures Bytes64(Value64(bytes, order), order) == bytes
  {
    var b := Ordered(bytes, order);
    Parts64(b[0], b[1], b[2], b[3], b[4], b[5], b[6], b[7]);
    assert b == [b[0], b[1], b[2], b[3], b[4], b[5], b[6], b[7]];
    OrderedTwice(bytes, order);
  }

  lemma BitsOf2(s: BitString)
    requires |s| == 2
    ensures Bits2(Value2(s)) == s && Value2(s) >> 2 == 0
  {
  }

  lemma BitsOf4(s: BitString)
    requires |s| == 4
    ensures Bits4(Value4(s)) == s && Value4(s) >> 4 == 0
  {
  }

  /** How many bits a field of this shape takes at least, and exactly unless it is a string. */
  function Size(shape: Shape): nat {
    match shape
    case SBit => 1
    case SUint2 => 2
    case SUint4 => 4
    case SUint8 => 8
    case SUint16(_) => 16
    case SUint24(_) => 24
    case SUint32(_) => 32
    case SUint48(_) => 48
    case SUint64(_) => 64
    case SNBits(n) => n
    case SBytes(count) => 8 * count
    case SString => 8
  }

  lemma SizeOf(f: Field)
    ensures |Encode(f)| >= Size(ShapeOf(f)) && (!f.FString? ==> |Encode(f)| == Size(ShapeOf(f)))
  {
    hide ByteBits, BytesBits, NBits;
  }
}
