/** Bytes as bits, most significant first, and the bit strings that values are written as. */
module BitStrings {
  type Byte = bv8
  type BitString = seq<bool>

  /** Bit `i` of a byte, counted from the most significant one. */
  function BitMask(i: nat): Byte
    requires i < 8
  {
    match i
    case 0 => 0x80 case 1 => 0x40 case 2 => 0x20 case 3 => 0x10
    case 4 => 0x08 case 5 => 0x04 case 6 => 0x02 case 7 => 0x01
  }

  predicate Bit(b: Byte, i: nat)
    requires i < 8
  {
    b & BitMask(i) != 0
  }

  function ByteBits(b: Byte): (s: BitString)
    ensures |s| == 8
  {
    seq(8, i requires 0 <= i < 8 => Bit(b, i))
  }

  function One(c: bool, b: Byte): Byte { if c then b else 0 }

  function ByteOf(s: BitString): Byte
    requires |s| == 8
  {
    One(s[0], 0x80) | One(s[1], 0x40) | One(s[2], 0x20) | One(s[3], 0x10)
    | One(s[4], 0x08) | One(s[5], 0x04) | One(s[6], 0x02) | One(s[7], 0x01)
  }

  lemma ByteRoundTrip(b: Byte)
    ensures ByteOf(ByteBits(b)) == b
  {
  }

  lemma OrBits(a: Byte, b: Byte, i: nat)
    requires i < 8
    ensures Bit(a | b, i) == (Bit(a, i) || Bit(b, i))
  {
  }

  lemma MaskBits(i: nat, j: nat)
    requires i < 8 && j < 8
    ensures Bit(BitMask(i), j) == (i == j)
  {
  }

  function Shl(v: Byte, k: nat): Byte
    requires k < 8
  {
    v << k
  }

  function Shr(v: Byte, k: nat): Byte
    requires k < 8
  {
    v >> k
  }

  lemma ShiftRightBits(v: Byte, k: nat, j: nat)
    requires 0 < k < 8 && j < 8
    ensures Bit(Shr(v, k), j) == (j >= k && Bit(v, j - k))
  {
    match k
    case 1 => case 2 => case 3 => case 4 => case 5 => case 6 => case 7 =>
  }

  lemma ShiftLeftBits(v: Byte, k: nat, j: nat)
    requires 0 < k < 8 && j < 8
    ensures Bit(Shl(v, k), j) == (j + k < 8 && Bit(v, j + k))
  {
    match k
    case 1 => case 2 => case 3 => case 4 => case 5 => case 6 => case 7 =>
  }

  function Zeros(n: nat): (s: BitString)
    ensures |s| == n
  {
    seq(n, _ => false)
  }

  lemma {:induction false} ByteBitsAre(b: Byte, s: BitString)
    requires |s| == 8 && forall i :: 0 <= i < 8 ==> s[i] == Bit(b, i)
    ensures ByteBits(b) == s
  {
    forall i | 0 <= i < 8 ensures ByteBits(b)[i] == s[i] { ByteBitsAt(b, i); }
  }

  lemma ByteBitsAt(b: Byte, i: nat)
    requires i < 8
    ensures ByteBits(b)[i] == Bit(b, i)
  {
  }

  lemma UpperBit(b: Byte, v: Byte, k: nat, i: nat)
    requires 0 < k < 8 && i < 8
    ensures Bit(b | Shr(v, k), i) == (Bit(b, i) || (i >= k && Bit(v, i - k)))
  {
    hide Bit, Shr;
    OrBits(b, Shr(v, k), i);
    ShiftRightBits(v, k, i);
  }

  /** Joining the upper part of a byte to the bits before it. */
  lemma UpperPart(b: Byte, v: Byte, k: nat)
    requires 0 < k < 8 && ByteBits(b)[k..] == Zeros(8 - k)
    ensures ByteBits(b | Shr(v, k)) == ByteBits(b)[..k] + ByteBits(v)[..8 - k]
  {
    var s := ByteBits(b)[..k] + ByteBits(v)[..8 - k];
    forall i | 0 <= i < 8
      ensures s[i] == Bit(b | Shr(v, k), i)
    {
      UpperBit(b, v, k, i);
      ByteBitsAt(b, i);
      if i >= k {
        assert ByteBits(b)[k..][i - k] == false;
        ByteBitsAt(v, i - k);
      }
    }
    ByteBitsAre(b | Shr(v, k), s);
  }

  lemma LowerPart(v: Byte, k: nat)
    requires 0 < k < 8
    ensures ByteBits(Shl(v, k)) == ByteBits(v)[k..] + Zeros(k)
  {
    var s := ByteBits(v)[k..] + Zeros(k);
    forall i | 0 <= i < 8
      ensures s[i] == Bit(Shl(v, k), i)
    {
      ShiftLeftBits(v, k, i);
      if i + k < 8 { ByteBitsAt(v, i + k); }
    }
    ByteBitsAre(Shl(v, k), s);
  }

  lemma SetBit(b: Byte, k: nat, value: bool)
    requires k < 8 && ByteBits(b)[k..] == Zeros(8 - k)
    ensures ByteBits(if value then b | BitMask(k) else b) == ByteBits(b)[..k] + ([value] + Zeros(7 - k))
  {
    var s := ByteBits(b)[..k] + ([value] + Zeros(7 - k));
    forall i | 0 <= i < 8
      ensures s[i] == Bit(if value then b | BitMask(k) else b, i)
    {
      OrBits(b, BitMask(k), i);
      MaskBits(k, i);
      ByteBitsAt(b, i);
      if i >= k { assert ByteBits(b)[k..][i - k] == false; }
    }
    ByteBitsAre(if value then b | BitMask(k) else b, s);
  }

  /** The byte put together from the two it is spread over. */
  function Joined(a: Byte, b: Byte, k: nat): Byte
    requires 0 < k < 8
  {
    Shl(a, k) | Shr(b, 8 - k)
  }

  lemma JoinedBit(a: Byte, b: Byte, k: nat, i: nat)
    requires 0 < k < 8 && i < 8
    ensures Bit(Joined(a, b, k), i) == if i + k < 8 then Bit(a, i + k) else Bit(b, i + k - 8)
  {
    hide Bit, Shl, Shr;
    ShiftLeftBits(a, k, i);
    ShiftRightBits(b, 8 - k, i);
    OrBits(Shl(a, k), Shr(b, 8 - k), i);
  }

  lemma JoinedBits(a: Byte, b: Byte, k: nat)
    requires 0 < k < 8
    ensures ByteBits(Joined(a, b, k)) == ByteBits(a)[k..] + ByteBits(b)[..k]
  {
    var s := ByteBits(a)[k..] + ByteBits(b)[..k];
    forall i | 0 <= i < 8
      ensures s[i] == Bit(Joined(a, b, k), i)
    {
      JoinedBit(a, b, k, i);
      if i + k < 8 { ByteBitsAt(a, i + k); } else { ByteBitsAt(b, i + k - 8); }
    }
    ByteBitsAre(Joined(a, b, k), s);
  }

  // ---- bytes in memory ----------------------------------------------------------------------------

  function BytesBits(bytes: seq<Byte>): (s: BitString)
    ensures |s| == 8 * |bytes|
  {
    if bytes == [] then [] else BytesBits(bytes[..|bytes| - 1]) + ByteBits(bytes[|bytes| - 1])
  }

  /** The first `length` bits stored in `data`. */
  function Content(data: seq<Byte>, length: nat): (s: BitString)
    requires length <= 8 * |data|
    ensures |s| == length
  {
    BytesBits(data)[..length]
  }

  /** Just the bytes needed, the unused bits of the last one zero. */
  ghost predicate Packed(data: seq<Byte>, length: nat) {
    |data| == (length + 7) / 8 && BytesBits(data)[length..] == Zeros(8 * |data| - length)
  }

  lemma BytesBitsSnoc(bytes: seq<Byte>, b: Byte)
    ensures BytesBits(bytes + [b]) == BytesBits(bytes) + ByteBits(b)
  {
    assert (bytes + [b])[..|bytes|] == bytes;
  }

  lemma {:induction false} BytesBitsJoin(a: seq<Byte>, b: seq<Byte>)
    ensures BytesBits(a + b) == BytesBits(a) + BytesBits(b)
  {
    if b == [] {
      assert a + b == a;
    } else {
      var init, last := b[..|b| - 1], b[|b| - 1];
      BytesBitsJoin(a, init);
      assert a + b == (a + init) + [last];
      BytesBitsSnoc(a + init, last);
    }
  }

  /** The bits of one byte among those of all. */
  lemma Chunk(data: seq<Byte>, n: nat)
    requires n < |data|
    ensures BytesBits(data)[8 * n..8 * n + 8] == ByteBits(data[n])
  {
    hide BytesBits, ByteBits;
    var a, b, c := data[..n], data[n], data[n + 1..];
    assert data == a + [b] + c;
    BytesBitsJoin(a + [b], c);
    BytesBitsSnoc(a, b);
    MiddleOf(BytesBits(a), ByteBits(b), BytesBits(c));
  }

  lemma MiddleOf(a: BitString, b: BitString, c: BitString)
    ensures (a + b + c)[|a|..|a| + |b|] == b
  {
  }

  // ---- appending -------------------------------------------------------------------------------------

  /** A packed stream that does not end with a whole byte. */
  lemma LastByte(data: seq<Byte>, length: nat)
    requires Packed(data, length) && length % 8 != 0
    ensures data != []
    ensures var init, b, k := data[..|data| - 1], data[|data| - 1], length % 8;
            && data == init + [b] && length == 8 * |init| + k
            && BytesBits(data) == BytesBits(init) + ByteBits(b)
            && ByteBits(b)[k..] == Zeros(8 - k)
            && Content(data, length) == BytesBits(init) + ByteBits(b)[..k]
  {
    var init, b, k := data[..|data| - 1], data[|data| - 1], length % 8;
    assert data == init + [b];
    BytesBitsSnoc(init, b);
    TailOf(BytesBits(init), ByteBits(b), k);
  }

  lemma TailOf(a: BitString, b: BitString, k: nat)
    requires k <= |b|
    ensures (a + b)[|a| + k..] == b[k..] && (a + b)[..|a| + k] == a + b[..k]
  {
  }

  lemma WholeBytes(data: seq<Byte>, length: nat)
    requires Packed(data, length) && length % 8 == 0
    ensures length == 8 * |data| && Content(data, length) == BytesBits(data)
  {
  }

  /** What is packed after bits have been added up to `s` and filled up with zeros. */
  lemma PackedIs(data: seq<Byte>, s: BitString, z: nat)
    requires BytesBits(data) == s + Zeros(z) && z < 8
    ensures Packed(data, |s|) && Content(data, |s|) == s
  {
    TailOf(s, Zeros(z), 0);
  }

  lemma AppendBitUnaligned(data: seq<Byte>, length: nat, value: bool, u: Byte)
    requires Packed(data, length) && length % 8 != 0 && data != []
    requires ByteBits(u) == ByteBits(data[|data| - 1])[..length % 8] + ([value] + Zeros(7 - length % 8))
    ensures length / 8 == |data| - 1
    ensures var e := data[|data| - 1 := u];
            Packed(e, length + 1) && Content(e, length + 1) == Content(data, length) + [value]
  {
    hide BytesBits, ByteBits;
    LastByte(data, length);
    var init, b, k := data[..|data| - 1], data[|data| - 1], length % 8;
    BytesBitsSnoc(init, u);
    RegroupBit(BytesBits(init), ByteBits(b)[..k], value, 7 - k);
    PackedIs(init + [u], BytesBits(init) + ByteBits(b)[..k] + [value], 7 - k);
    assert data[|data| - 1 := u] == init + [u];
  }

  lemma RegroupBit(a: BitString, b: BitString, value: bool, z: nat)
    ensures a + (b + ([value] + Zeros(z))) == a + b + [value] + Zeros(z)
  {
  }

  lemma AppendBitAligned(data: seq<Byte>, length: nat, value: bool)
    requires Packed(data, length) && length % 8 == 0
    ensures var e := data + [if value then 0x80 else 0];
            Packed(e, length + 1) && Content(e, length + 1) == Content(data, length) + [value]
  {
    WholeBytes(data, length);
    var e := data + [if value then 0x80 else 0];
    BytesBitsSnoc(data, if value then 0x80 else 0);
    FirstBit(value);
    RegroupBit(BytesBits(data), [], value, 7);
    PackedIs(e, Content(data, length) + [value], 7);
  }

  lemma FirstBit(value: bool)
    ensures ByteBits(if value then 0x80 else 0) == [] + ([value] + Zeros(7))
  {
  }

  /** `u` takes the place of the last byte, `w` is added; together they hold what was there and `v`. */
  lemma AppendByteUnaligned(data: seq<Byte>, length: nat, v: BitString, u: Byte, w: Byte)
    requires Packed(data, length) && length % 8 != 0 && |v| == 8 && data != []
    requires ByteBits(u) == ByteBits(data[|data| - 1])[..length % 8] + v[..8 - length % 8]
    requires ByteBits(w) == v[8 - length % 8..] + Zeros(8 - length % 8)
    ensures var e := data[|data| - 1 := u] + [w];
            Packed(e, length + 8) && Content(e, length + 8) == Content(data, length) + v
  {
    LastByte(data, length);
    var init, b, k := data[..|data| - 1], data[|data| - 1], length % 8;
    TwoBytes(init, u, w, ByteBits(b)[..k], v, k);
    assert data[|data| - 1 := u] == init + [u];
    PackedIs(init + [u] + [w], BytesBits(init) + ByteBits(b)[..k] + v, 8 - k);
  }

  lemma TwoBytes(init: seq<Byte>, u: Byte, w: Byte, x: BitString, v: BitString, k: nat)
    requires 0 < k < 8 && |v| == 8 && ByteBits(u) == x + v[..8 - k] && ByteBits(w) == v[8 - k..] + Zeros(8 - k)
    ensures BytesBits(init + [u] + [w]) == BytesBits(init) + x + v + Zeros(8 - k)
  {
    BytesBitsSnoc(init, u);
    BytesBitsSnoc(init + [u], w);
    RegroupByte(BytesBits(init), x, v, k);
  }

  lemma RegroupByte(a: BitString, b: BitString, v: BitString, k: nat)
    requires 0 < k < 8 && |v| == 8
    ensures (a + (b + v[..8 - k])) + (v[8 - k..] + Zeros(8 - k)) == a + b + v + Zeros(8 - k)
  {
  }

  lemma AppendBytes(data: seq<Byte>, length: nat, bytes: seq<Byte>)
    requires Packed(data, length) && length % 8 == 0
    ensures Packed(data + bytes, length + 8 * |bytes|)
    ensures Content(data + bytes, length + 8 * |bytes|) == Content(data, length) + BytesBits(bytes)
  {
    hide BytesBits, Zeros;
    WholeBytes(data, length);
    BytesBitsJoin(data, bytes);
  }

  // ---- extracting --------------------------------------------------------------------------------------

  lemma BitAtIs(data: seq<Byte>, length: nat, p: nat)
    requires p < length <= 8 * |data|
    ensures p / 8 < |data| && Content(data, length)[p] == Bit(data[p / 8], p % 8)
  {
    Chunk(data, p / 8);
    ByteBitsAt(data[p / 8], p % 8);
    assert BytesBits(data)[p] == BytesBits(data)[8 * (p / 8)..8 * (p / 8) + 8][p % 8];
  }

  lemma ByteAligned(data: seq<Byte>, length: nat, p: nat)
    requires length <= 8 * |data| && p + 8 <= length && p % 8 == 0
    ensures p / 8 < |data| && ByteBits(data[p / 8]) == Content(data, length)[p..p + 8]
  {
    Chunk(data, p / 8);
    assert 8 * (p / 8) == p;
    Within(BytesBits(data), length, p);
  }

  lemma Within(s: BitString, length: nat, p: nat)
    requires p + 8 <= length <= |s|
    ensures s[..length][p..p + 8] == s[p..p + 8]
  {
  }

  lemma ByteUnaligned(data: seq<Byte>, length: nat, p: nat)
    requires length <= 8 * |data| && p + 8 <= length && p % 8 != 0
    ensures p / 8 + 1 < |data| && (p + 8 - p % 8) / 8 == p / 8 + 1
    ensures ByteBits(Joined(data[p / 8], data[p / 8 + 1], p % 8)) == Content(data, length)[p..p + 8]
  {
    UnalignedAt(data, length, p / 8, p % 8);
  }

  lemma UnalignedAt(data: seq<Byte>, length: nat, n: nat, k: nat)
    requires length <= 8 * |data| && 8 * n + k + 8 <= length && 0 < k < 8
    ensures n + 1 < |data| && ByteBits(Joined(data[n], data[n + 1], k)) == Content(data, length)[8 * n + k..8 * n + k + 8]
  {
    TwoChunks(data, length, n, k);
    JoinedBits(data[n], data[n + 1], k);
  }

  lemma TwoChunks(data: seq<Byte>, length: nat, n: nat, k: nat)
    requires length <= 8 * |data| && 8 * n + k + 8 <= length && 0 < k < 8
    ensures n + 1 < |data| && ByteBits(data[n])[k..] + ByteBits(data[n + 1])[..k] == Content(data, length)[8 * n + k..8 * n + k + 8]
  {
    Chunk(data, n);
    Chunk(data, n + 1);
    Across(BytesBits(data), n, k);
    Within(BytesBits(data), length, 8 * n + k);
  }

  lemma Across(s: BitString, n: nat, k: nat)
    requires k < 8 && 8 * n + 16 <= |s|
    ensures s[8 * n + k..8 * n + k + 8] == s[8 * n..8 * n + 8][k..] + s[8 * (n + 1)..8 * (n + 1) + 8][..k]
  {
  }
}
