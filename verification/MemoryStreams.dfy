/** A writer that packs values of any number of bits into bytes, and a reader that takes them out again. */
module MemoryStreams {
  import opened BitStrings
  import opened FieldCodes
  import opened WordArithmetic

  class MemoryOutputStream {
    var data: seq<Byte>
    var length: nat

    ghost predicate Valid()
      reads this
    {
      Packed(data, length)
    }

    /** What has been written. */
    ghost function Written(): BitString
      reads this
      requires Valid()
    {
      Content(data, length)
    }

    constructor ()
      ensures Valid() && Written() == [] && length == 0
    {
      data, length := [], 0;
    }

    method WriteBit(value: bool)
      requires Valid()
      modifies this
      ensures Valid() && Written() == old(Written()) + [value]
    {
      var byteIndex, bitIndex := length / 8, length % 8;
      BitWritten(data, length, value);
      if bitIndex == 0 {
        data := data + [0];
      }
      data := data[byteIndex := WithBit(data[byteIndex], bitIndex, value)];
      length := length + 1;
    }

    method WriteByte(value: Byte)
      requires Valid()
      modifies this
      ensures Valid() && Written() == old(Written()) + ByteBits(value)
    {
      var bitOffset := length % 8;
      if bitOffset == 0 {
        AppendBytes(data, length, [value]);
        OneByte(value);
        data := data + [value];
      } else {
        ByteOnLastByte(data, length, value);
        data := data[|data| - 1 := Upper(data[|data| - 1], value, bitOffset)];
        data := data + [Lower(value, bitOffset)];
      }
      length := length + 8;
    }

    /** Bytes one by one. */
    method WriteEach(bytes: seq<Byte>)
      requires Valid()
      modifies this
      ensures Valid() && Written() == old(Written()) + BytesBits(bytes)
    {
      var i := 0;
      ghost var before := Written();
      while i < |bytes|
        invariant 0 <= i <= |bytes| && Valid() && Written() == before + BytesBits(bytes[..i])
      {
        WriteByte(bytes[i]);
        NextByte(before, bytes, i);
        i := i + 1;
      }
      assert bytes[..i] == bytes;
    }

    /** Bytes all at once where the stream is aligned. */
    method WriteBytes(bytes: seq<Byte>)
      requires Valid()
      modifies this
      ensures Valid() && Written() == old(Written()) + BytesBits(bytes)
    {
      if bytes == [] {
        assert Written() == Written() + [];
        return;
      }
      if length % 8 == 0 {
        AppendBytes(data, length, bytes);
        data := data + bytes;
        length := length + 8 * |bytes|;
      } else {
        WriteEach(bytes);
      }
    }

    /** A slice of the bits stored in `src`: single bits up to a byte boundary, bytes, single bits. */
    method WriteData(src: seq<Byte>, srcOffset: nat, srcLength: nat)
      requires Valid() && srcOffset + srcLength <= 8 * |src|
      modifies this
      ensures Valid() && Written() == old(Written()) + BytesBits(src)[srcOffset..srcOffset + srcLength]
    {
      hide BytesBits, Packed, Content;
      var pos, end := srcOffset, srcOffset + srcLength;
      ghost var before := Written();
      assert before == before + BytesBits(src)[pos..pos];
      while pos < end && pos % 8 != 0
        invariant srcOffset <= pos <= end && Valid() && Written() == before + BytesBits(src)[srcOffset..pos]
      {
        WriteBitOf(src, srcOffset, pos, before);
        pos := pos + 1;
      }
      var remainedBytes := (end - pos) / 8;
      if remainedBytes != 0 {
        WriteWhole(src, srcOffset, pos / 8, remainedBytes, before);
        pos := pos + 8 * remainedBytes;
      }
      while pos < end
        invariant srcOffset <= pos <= end && Valid() && Written() == before + BytesBits(src)[srcOffset..pos]
      {
        WriteBitOf(src, srcOffset, pos, before);
        pos := pos + 1;
      }
    }

    /** `k` bytes from the `n`-th on, all bits before which from `srcOffset` on have been written. */
    method WriteWhole(src: seq<Byte>, ghost srcOffset: nat, n: nat, k: nat, ghost before: BitString)
      requires srcOffset <= 8 * n && n + k <= |src| && Valid() && Written() == before + BytesBits(src)[srcOffset..8 * n]
      modifies this
      ensures Valid() && Written() == before + BytesBits(src)[srcOffset..8 * n + 8 * k]
    {
      SliceAt(before, src, srcOffset, n, k);
      WriteBytes(src[n..n + k]);
    }

    method WriteBitOf(src: seq<Byte>, ghost srcOffset: nat, pos: nat, ghost before: BitString)
      requires srcOffset <= pos < 8 * |src| && Valid() && Written() == before + BytesBits(src)[srcOffset..pos]
      modifies this
      ensures Valid() && Written() == before + BytesBits(src)[srcOffset..pos + 1]
    {
      BitAtIs(src, 8 * |src|, pos);
      SliceGrows(before, BytesBits(src), srcOffset, pos);
      WriteBit(Bit(src[pos / 8], pos % 8));
    }

    method WriteUint2(value: Byte)
      requires Valid() && value >> 2 == 0
      modifies this
      ensures Valid() && Written() == old(Written()) + Bits2(value)
    {
      WriteBit(value & 0x2 != 0);
      WriteBit(value & 0x1 != 0);
    }

    method WriteUint4(value: Byte)
      requires Valid() && value >> 4 == 0
      modifies this
      ensures Valid() && Written() == old(Written()) + Bits4(value)
    {
      WriteBit(value & 0x8 != 0);
      WriteBit(value & 0x4 != 0);
      WriteBit(value & 0x2 != 0);
      WriteBit(value & 0x1 != 0);
    }

    method WriteString(s: seq<Byte>)
      requires Valid()
      modifies this
      ensures Valid() && Written() == old(Written()) + BytesBits(s + [0])
    {
      BytesBitsSnoc(s, 0);
      WriteBytes(s);
      WriteByte(0);
    }

    /** The low `n` bits of `value`, the most significant first; more than 64 are refused. */
    method WriteNBits(value: Word, n: nat) returns (ok: bool)
      requires Valid()
      modifies this
      ensures ok <==> n <= 64
      ensures Valid() && Written() == old(Written()) + if ok then NBits(value, n) else []
    {
      if n > 64 {
        return false;
      }
      ok := true;
      var mul := if n == 0 then 0 else Pow2(n - 1);
      var i := 0;
      ghost var before := Written();
      while i < n
        invariant 0 <= i <= n && Valid() && (i < n ==> mul == Pow2(n - i - 1))
        invariant Written() + NBits(value, n - i) == before + NBits(value, n)
      {
        ghost var k := n - i - 1;
        AndBit(value, k);
        if k > 0 { HalfPower(0, k); }
        Regrouped(Written(), [BitOf(value, k)], NBits(value, k));
        WriteBit(And(value, mul) != 0);
        mul := mul / 2;
        i := i + 1;
      }
      assert Written() + [] == Written();
    }

    /** Any field. */
    method WriteField(f: Field)
      requires Valid() && Fits(f)
      modifies this
      ensures Valid() && Written() == old(Written()) + Encode(f)
    {
      match f {
        case FBit(b) => WriteBit(b);
        case FUint2(u) => WriteUint2(u);
        case FUint4(u) => WriteUint4(u);
        case FUint8(u) => WriteByte(u);
        case FUint16(v, o) => WriteEach(Bytes16(v, o));
        case FUint24(v, o) => WriteEach(Bytes24(v, o));
        case FUint32(v, o) => WriteEach(Bytes32(v, o));
        case FUint48(v, o) => WriteEach(Bytes48(v, o));
        case FUint64(v, o) => WriteEach(Bytes64(v, o));
        case FNBits(v, n) => var ok := WriteNBits(v, n);
        case FBytes(bytes) => WriteBytes(bytes);
        case FString(text) => WriteString(text);
      }
    }
  }

  class MemoryInputStream {
    const data: seq<Byte>
    const length: nat
    var position: nat
    var isReadBeyondEnd: bool

    ghost predicate Valid()
      reads this
    {
      length <= 8 * |data| && position <= length
    }

    /** What is still to be read. */
    ghost function Rest(): BitString
      reads this
      requires Valid()
    {
      Content(data, length)[position..]
    }

    constructor (data: seq<Byte>, length: nat)
      requires length <= 8 * |data|
      ensures Valid() && Rest() == Content(data, length) && position == 0 && !isReadBeyondEnd
      ensures this.data == data && this.length == length
    {
      this.data, this.length, position, isReadBeyondEnd := data, length, 0, false;
    }

    method ReadBit() returns (value: bool)
      requires Valid()
      modifies this
      ensures Valid()
      ensures old(Rest()) != [] ==>
                [value] + Rest() == old(Rest()) && isReadBeyondEnd == old(isReadBeyondEnd)
      ensures old(Rest()) == [] ==> !value && Rest() == [] && isReadBeyondEnd
    {
      if position == length {
        isReadBeyondEnd := true;
        return false;
      }
      BitAtIs(data, length, position);
      value := data[position / 8] & BitMask(position % 8) != 0;
      position := position + 1;
    }

    method ReadByte() returns (value: Byte)
      requires Valid()
      modifies this
      ensures Valid()
      ensures |old(Rest())| >= 8 ==>
                ByteBits(value) + Rest() == old(Rest()) && isReadBeyondEnd == old(isReadBeyondEnd)
      ensures |old(Rest())| < 8 ==> value == 0 && Rest() == [] && isReadBeyondEnd
    {
      hide Joined, Content, BytesBits;
      if position + 8 > length {
        isReadBeyondEnd := true;
        position := length;
        return 0;
      }
      ghost var s := Content(data, length);
      if position % 8 == 0 {
        ByteAligned(data, length, position);
        value := data[position / 8];
      } else {
        ByteUnaligned(data, length, position);
        var l1 := position % 8;
        var l2 := 8 - l1;
        value := Joined(data[(position - l1) / 8], data[(position + l2) / 8], l1);
      }
      assert s[position..] == s[position..position + 8] + s[position + 8..];
      position := position + 8;
    }

    /** Bytes one by one. */
    method ReadEach(count: nat) returns (bytes: seq<Byte>)
      requires Valid()
      modifies this
      ensures Valid() && |bytes| == count
      ensures |old(Rest())| >= 8 * count ==>
                BytesBits(bytes) + Rest() == old(Rest()) && isReadBeyondEnd == old(isReadBeyondEnd)
      ensures |old(Rest())| < 8 * count ==> Rest() == [] && isReadBeyondEnd
    {
      bytes := [];
      ghost var before := Rest();
      while |bytes| < count
        invariant Valid() && |bytes| <= count
        invariant |before| >= 8 * |bytes| ==> BytesBits(bytes) + Rest() == before && isReadBeyondEnd == old(isReadBeyondEnd)
        invariant |before| < 8 * |bytes| ==> Rest() == [] && isReadBeyondEnd
        decreases count - |bytes|
      {
        ghost var rest := Rest();
        var b := ReadByte();
        BytesBitsSnoc(bytes, b);
        if |before| >= 8 * |bytes| + 8 { Regrouped(BytesBits(bytes), ByteBits(b), Rest()); }
        bytes := bytes + [b];
      }
    }

    /** Up to `count` bytes, all at once where the stream is aligned. Beyond the end only what is left is
        read; its length has to be one of whole bytes, otherwise converting it throws. */
    method ReadBytes(count: nat) returns (ok: bool, bytes: seq<Byte>)
      requires Valid()
      modifies this
      ensures Valid() && (ok <==> 8 * count <= |old(Rest())| || |old(Rest())| % 8 == 0)
      ensures !ok ==> bytes == [] && Rest() == old(Rest()) && isReadBeyondEnd == old(isReadBeyondEnd)
      ensures ok ==> BytesBits(bytes) + Rest() == old(Rest())
      ensures 8 * count <= |old(Rest())| ==> |bytes| == count && isReadBeyondEnd == old(isReadBeyondEnd)
      ensures ok && 8 * count > |old(Rest())| ==> Rest() == [] && isReadBeyondEnd
    {
      var n := count;
      if position + 8 * n > length {
        if (length - position) % 8 != 0 {
          return false, [];
        }
        n := (length - position) / 8;
        isReadBeyondEnd := true;
      }
      ok := true;
      bytes := ReadCount(n);
    }

    method ReadCount(count: nat) returns (bytes: seq<Byte>)
      requires Valid() && 8 * count <= |Rest()|
      modifies this
      ensures Valid() && |bytes| == count
      ensures BytesBits(bytes) + Rest() == old(Rest()) && isReadBeyondEnd == old(isReadBeyondEnd)
    {
      if position % 8 == 0 {
        SliceOfContent(data, length, position, count);
        bytes := data[position / 8..position / 8 + count];
        position := position + 8 * count;
      } else {
        bytes := ReadEach(count);
      }
    }

    method ReadUint2() returns (value: Byte)
      requires Valid()
      modifies this
      ensures Valid()
      ensures |old(Rest())| >= 2 ==>
                value == Value2(old(Rest())[..2]) && Rest() == old(Rest())[2..] && isReadBeyondEnd == old(isReadBeyondEnd)
      ensures |old(Rest())| < 2 ==> isReadBeyondEnd
    {
      var a := ReadBit();
      var b := ReadBit();
      value := One(a, 0x2) | One(b, 0x1);
    }

    method ReadUint4() returns (value: Byte)
      requires Valid()
      modifies this
      ensures Valid()
      ensures |old(Rest())| >= 4 ==>
                value == Value4(old(Rest())[..4]) && Rest() == old(Rest())[4..] && isReadBeyondEnd == old(isReadBeyondEnd)
      ensures |old(Rest())| < 4 ==> isReadBeyondEnd
    {
      var a := ReadBit();
      var b := ReadBit();
      var c := ReadBit();
      var d := ReadBit();
      value := One(a, 0x8) | One(b, 0x4) | One(c, 0x2) | One(d, 0x1);
    }

    /** Bytes up to a zero, or up to the end. */
    method ReadString() returns (s: seq<Byte>, ghost complete: bool)
      requires Valid()
      modifies this
      ensures Valid() && 0 !in s
      ensures complete ==> BytesBits(s + [0]) + Rest() == old(Rest()) && isReadBeyondEnd == old(isReadBeyondEnd)
      ensures !complete ==> Rest() == [] && isReadBeyondEnd && exists r :: |r| < 8 && BytesBits(s) + r == old(Rest())
    {
      s := [];
      ghost var before := Rest();
      assert BytesBits(s) + before == before;
      ghost var rest := Rest();
      var b := ReadByte();
      while b != 0
        invariant Valid() && 0 !in s && BytesBits(s) + rest == before
        invariant |rest| >= 8 ==> ByteBits(b) + Rest() == rest && isReadBeyondEnd == old(isReadBeyondEnd)
        invariant |rest| < 8 ==> b == 0 && Rest() == [] && isReadBeyondEnd
        decreases |rest|
      {
        BytesBitsSnoc(s, b);
        Regrouped(BytesBits(s), ByteBits(b), Rest());
        s := s + [b];
        rest := Rest();
        b := ReadByte();
      }
      complete := |rest| >= 8;
      BytesBitsSnoc(s, 0);
      if complete { Regrouped(BytesBits(s), ByteBits(0), Rest()); }
    }

    /** `n` bits as a number; none, or more than 64, are refused. */
    method ReadNBits(n: nat) returns (ok: bool, num: nat)
      requires Valid()
      modifies this
      ensures Valid() && (ok <==> 1 <= n <= 64)
      ensures !ok ==> Rest() == old(Rest()) && isReadBeyondEnd == old(isReadBeyondEnd)
      ensures ok && |old(Rest())| >= n ==>
                num == NValue(old(Rest())[..n]) && Rest() == old(Rest())[n..] && isReadBeyondEnd == old(isReadBeyondEnd)
      ensures ok ==> num < Pow2(n)
    {
      hide Content, Or, NValue;
      if n == 0 || n > 64 {
        return false, 0;
      }
      ok, num := true, 0;
      var mul := Pow2(n - 1);
      ghost var before := Rest();
      ghost var high: nat := 0;
      var i := 0;
      while i < n
        invariant 0 <= i <= n && Valid() && NReading(before, n, i, num, mul, high)
        invariant |before| >= n ==> Rest() == before[i..] && isReadBeyondEnd == old(isReadBeyondEnd)
      {
        var bit := ReadBit();
        NStep(before, n, i, num, mul, high, bit);
        if bit {
          num := Or(num, mul);
        }
        high := 2 * high + if bit then 1 else 0;
        mul := mul / 2;
        i := i + 1;
      }
      NDone(before, n, num, mul, high);
    }

    /** The field of this shape that the next bits stand for; not complete if there are too few. */
    method ReadField(shape: Shape) returns (f: Field, ghost complete: bool)
      requires Valid() && (shape.SNBits? ==> 1 <= shape.n <= 64)
      modifies this
      ensures Valid() && (complete ==> |old(Rest())| >= Size(shape))
      ensures complete ==> ShapeOf(f) == shape && Fits(f) && Encode(f) + Rest() == old(Rest()) && isReadBeyondEnd == old(isReadBeyondEnd)
      ensures !complete ==> !CanRead(shape, old(Rest()))
    {
      ghost var before := Rest();
      complete := |before| >= Size(shape);
      if !complete { TooShort(shape, before); }
      match shape {
        case SString =>
          var text;
          text, complete := ReadString();
          f := FString(text);
          if !complete { NoString(text, before); }
        case _ =>
          f := ReadFixed(shape);
      }
    }

    /** Any field but a string. */
    method ReadFixed(shape: Shape) returns (f: Field)
      requires Valid() && (shape.SNBits? ==> 1 <= shape.n <= 64)
      requires shape != SString
      modifies this
      ensures Valid()
      ensures |old(Rest())| >= Size(shape) ==>
                ShapeOf(f) == shape && Fits(f) && Encode(f) + Rest() == old(Rest()) && isReadBeyondEnd == old(isReadBeyondEnd)
    {
      ghost var before := Rest();
      match shape {
        case SBit =>
          var b := ReadBit();
          f := FBit(b);
        case SUint2 =>
          var u := ReadUint2();
          f := FUint2(u);
          if |before| >= 2 { BitsOf2(before[..2]); }
        case SUint4 =>
          var u := ReadUint4();
          f := FUint4(u);
          if |before| >= 4 { BitsOf4(before[..4]); }
        case SNBits(n) =>
          f := ReadNField(n);
        case SBytes(count) =>
          var ok, bytes := ReadBytes(count);
          f := FBytes(bytes);
        case SUint8 | SUint16(_) | SUint24(_) | SUint32(_) | SUint48(_) | SUint64(_) =>
          f := ReadWhole(shape);
      }
    }

    method ReadNField(n: nat) returns (f: Field)
      requires Valid() && 1 <= n <= 64
      modifies this
      ensures Valid()
      ensures |old(Rest())| >= n ==>
                ShapeOf(f) == SNBits(n) && Fits(f) && Encode(f) + Rest() == old(Rest()) && isReadBeyondEnd == old(isReadBeyondEnd)
    {
      ghost var before := Rest();
      var ok, v := ReadNBits(n);
      InWord(v, n);
      f := FNBits(v, n);
      if |before| >= n { NInverse(before[..n]); }
    }

    /** Whole bytes in either order. */
    method ReadWhole(shape: Shape) returns (f: Field)
      requires Valid() && IsWhole(shape)
      modifies this
      ensures Valid()
      ensures |old(Rest())| >= Size(shape) ==>
                ShapeOf(f) == shape && Fits(f) && Encode(f) + Rest() == old(Rest()) && isReadBeyondEnd == old(isReadBeyondEnd)
    {
      hide Content, BytesBits, Value16, Value24, Value32, Value48, Value64, Bytes16, Bytes24, Bytes32, Bytes48, Bytes64;
      match shape {
        case SUint8 =>
          var u := ReadByte();
          f := FUint8(u);
        case SUint16(o) =>
          var b := ReadEach(2);
          BytesOf16(b, o);
          f := FUint16(Value16(b, o), o);
        case SUint24(o) =>
          var b := ReadEach(3);
          BytesOf24(b, o);
          f := FUint24(Value24(b, o), o);
        case SUint32(o) =>
          var b := ReadEach(4);
          BytesOf32(b, o);
          f := FUint32(Value32(b, o), o);
        case SUint48(o) =>
          var b := ReadEach(6);
          BytesOf48(b, o);
          f := FUint48(Value48(b, o), o);
        case SUint64(o) =>
          var b := ReadEach(8);
          BytesOf64(b, o);
          f := FUint64(Value64(b, o), o);
      }
    }
  }

  predicate IsWhole(shape: Shape) {
    shape.SUint8? || shape.SUint16? || shape.SUint24? || shape.SUint32? || shape.SUint48? || shape.SUint64?
  }

  lemma InWord(v: nat, n: nat)
    requires v < Pow2(n) && n <= 64
    ensures v < W
  {
    Pow2Words();
    Pow2Grows(n, 64);
  }

  /** Some field of this shape begins the bits. */
  ghost predicate CanRead(shape: Shape, s: BitString) {
    exists f :: ShapeOf(f) == shape && Fits(f) && Encode(f) <= s
  }

  lemma TooShort(shape: Shape, s: BitString)
    requires |s| < Size(shape)
    ensures !CanRead(shape, s)
  {
    forall f | ShapeOf(f) == shape && Fits(f)
      ensures !(Encode(f) <= s)
    {
      SizeOf(f);
    }
  }

  /** Without a zero byte up to the end no string begins the bits. */
  lemma NoString(text: seq<Byte>, s: BitString)
    requires 0 !in text && exists r: BitString :: |r| < 8 && BytesBits(text) + r == s
    ensures !CanRead(SString, s)
  {
    var r: BitString :| |r| < 8 && BytesBits(text) + r == s;
    forall f | ShapeOf(f) == SString && Fits(f)
      ensures !(Encode(f) <= s)
    {
      NotEnded(text, r, f.text);
    }
  }

  lemma NotEnded(text: seq<Byte>, r: BitString, t: seq<Byte>)
    requires 0 !in text && |r| < 8
    ensures !(BytesBits(t + [0]) <= BytesBits(text) + r)
  {
    var s := BytesBits(text) + r;
    if BytesBits(t + [0]) <= s && |t| < |text| {
      BytesAgree(t + [0], s[8 * |t| + 8..], text, r, |t|);
    }
  }

  // ---- the round trip -------------------------------------------------------------------------------

  /** Writes fields and reads them back, told only their shapes. */
  method Transfer(fields: seq<Field>) returns (back: seq<Field>, input: MemoryInputStream)
    requires forall i :: 0 <= i < |fields| ==> Fits(fields[i])
    ensures back == fields
    ensures input.position == input.length == |EncodeAll(fields)| && !input.isReadBeyondEnd
  {
    var output := new MemoryOutputStream();
    WriteFields(output, fields);
    input := new MemoryInputStream(output.data, output.length);
    back := ReadFields(input, seq(|fields|, i requires 0 <= i < |fields| => ShapeOf(fields[i])), fields);
  }

  method WriteFields(output: MemoryOutputStream, fields: seq<Field>)
    requires output.Valid() && forall i :: 0 <= i < |fields| ==> Fits(fields[i])
    modifies output
    ensures output.Valid() && output.Written() == old(output.Written()) + EncodeAll(fields)
  {
    var i := 0;
    ghost var before := output.Written();
    while i < |fields|
      invariant 0 <= i <= |fields| && output.Valid()
      invariant output.Written() + EncodeFrom(fields, i) == before + EncodeAll(fields)
    {
      Regrouped(output.Written(), Encode(fields[i]), EncodeFrom(fields, i + 1));
      output.WriteField(fields[i]);
      i := i + 1;
    }
    assert output.Written() + [] == output.Written();
  }

  method ReadFields(input: MemoryInputStream, shapes: seq<Shape>, ghost fields: seq<Field>) returns (back: seq<Field>)
    requires input.Valid() && |shapes| == |fields|
    requires forall i :: 0 <= i < |fields| ==> Fits(fields[i]) && ShapeOf(fields[i]) == shapes[i]
    requires EncodeAll(fields) == input.Rest()
    modifies input
    ensures input.Valid() && input.Rest() == [] && input.isReadBeyondEnd == old(input.isReadBeyondEnd)
    ensures back == fields
  {
    hide Encode, Content, Fits;
    back := [];
    while |back| < |shapes|
      invariant input.Valid() && input.isReadBeyondEnd == old(input.isReadBeyondEnd)
      invariant |back| <= |shapes| && back == fields[..|back|] && input.Rest() == EncodeFrom(fields, |back|)
      decreases |shapes| - |back|
    {
      ghost var k := |back|;
      var f := ReadBack(input, shapes[|back|], fields[|back|], EncodeFrom(fields, k + 1));
      assert fields[..k + 1] == fields[..k] + [fields[k]];
      back := back + [f];
    }
    assert fields[..|fields|] == fields;
  }

  /** Reads the field that the next bits are known to stand for. */
  method ReadBack(input: MemoryInputStream, shape: Shape, ghost g: Field, ghost rest: BitString) returns (f: Field)
    requires input.Valid() && Fits(g) && ShapeOf(g) == shape && input.Rest() == Encode(g) + rest
    modifies input
    ensures input.Valid() && f == g && input.Rest() == rest && input.isReadBeyondEnd == old(input.isReadBeyondEnd)
  {
    SizeOf(g);
    assert CanRead(shape, input.Rest());
    ghost var complete;
    f, complete := input.ReadField(shape);
    Decodable(f, input.Rest(), g, rest);
  }

  /** After `i` of `n` bits `num` holds them in their places, as the multiple `high`; `mul` is the next place. */
  ghost predicate NReading(before: BitString, n: nat, i: nat, num: nat, mul: nat, high: nat)
    requires i <= n
  {
    && num == high * Pow2(n - i) && num + Pow2(n - i) <= Pow2(n)
    && (i < n ==> mul == Pow2(n - i - 1))
    && (|before| >= n ==> num + NValue(before[i..n]) == NValue(before[..n]))
  }

  lemma NStep(before: BitString, n: nat, i: nat, num: nat, mul: nat, high: nat, bit: bool)
    requires i < n && NReading(before, n, i, num, mul, high) && (|before| >= n ==> bit == before[i])
    ensures NReading(before, n, i + 1, if bit then Or(num, mul) else num, mul / 2, 2 * high + if bit then 1 else 0)
  {
    NextBitValue(before, i, n);
    HalfPower(high, n - i);
    if n - i - 1 > 0 { HalfPower(0, n - i - 1); }
    OrDisjoint(mul, high, n - i);
    HigherBits(high, n - i - 1, bit);
  }

  lemma NDone(before: BitString, n: nat, num: nat, mul: nat, high: nat)
    requires NReading(before, n, n, num, mul, high)
    ensures |before| >= n ==> num == NValue(before[..n])
  {
    assert |before| >= n ==> before[n..n] == [];
  }

  lemma Regrouped(a: BitString, b: BitString, c: BitString)
    ensures a + b + c == a + (b + c)
  {
  }

  lemma HalfPower(c: nat, k: nat)
    requires k > 0
    ensures Pow2(k) == 2 * Pow2(k - 1) && Pow2(k - 1) < Pow2(k) && Pow2(k) / 2 == Pow2(k - 1)
    ensures c * Pow2(k) == 2 * c * Pow2(k - 1)
  {
    TimesPow(c, k);
    Associate(c, Pow2(k - 1), 2);
  }

  lemma HigherBits(c: nat, k: nat, bit: bool)
    ensures (2 * c + if bit then 1 else 0) * Pow2(k) == 2 * c * Pow2(k) + if bit then Pow2(k) else 0
  {
    Distribute(2 * c, 1, Pow2(k));
  }

  lemma NextBitValue(s: BitString, i: nat, n: nat)
    requires i < n
    ensures n <= |s| ==> NValue(s[i..n]) == NValue(s[i + 1..n]) + if s[i] then Pow2(n - i - 1) else 0
  {
    if n <= |s| { assert s[i..n][1..] == s[i + 1..n]; }
  }

  lemma SliceOfContent(data: seq<Byte>, length: nat, p: nat, k: nat)
    requires length <= 8 * |data| && p % 8 == 0 && p + 8 * k <= length
    ensures p / 8 + k <= |data|
    ensures BytesBits(data[p / 8..p / 8 + k]) + Content(data, length)[p + 8 * k..] == Content(data, length)[p..]
  {
    ThreeParts(data, p / 8, k);
    MiddleAndRest(BytesBits(data[..p / 8]), BytesBits(data[p / 8..p / 8 + k]), BytesBits(data[p / 8 + k..]), length);
  }

  lemma MiddleAndRest(a: BitString, b: BitString, c: BitString, length: nat)
    requires |a| + |b| <= length <= |a + b + c|
    ensures b + (a + b + c)[..length][|a| + |b|..] == (a + b + c)[..length][|a|..]
  {
  }

  function WithBit(b: Byte, k: nat, value: bool): Byte
    requires k < 8
  {
    if value then b | BitMask(k) else b
  }

  /** What writing a bit does: a new byte if the last one is full, then the bit. */
  lemma BitWritten(data: seq<Byte>, length: nat, value: bool)
    requires Packed(data, length)
    ensures var d := if length % 8 == 0 then data + [0] else data;
            && |d| == length / 8 + 1
            && var e := d[length / 8 := WithBit(d[length / 8], length % 8, value)];
               Packed(e, length + 1) && Content(e, length + 1) == Content(data, length) + [value]
  {
    if length % 8 == 0 {
      WholeBytes(data, length);
      AppendBitAligned(data, length, value);
      FirstBitOfByte(value);
      assert (data + [0])[length / 8 := WithBit(0, 0, value)] == data + [WithBit(0, 0, value)];
    } else {
      LastByte(data, length);
      var b := data[|data| - 1];
      BitOfByte(b, length % 8, value);
      AppendBitUnaligned(data, length, value, WithBit(b, length % 8, value));
    }
  }

  lemma FirstBitOfByte(value: bool)
    ensures WithBit(0, 0, value) == if value then 0x80 else 0
  {
  }

  lemma BitOfByte(b: Byte, k: nat, value: bool)
    requires k < 8 && ByteBits(b)[k..] == Zeros(8 - k)
    ensures ByteBits(WithBit(b, k, value)) == ByteBits(b)[..k] + ([value] + Zeros(7 - k))
  {
    SetBit(b, k, value);
  }

  /** The two parts of a byte that starts at bit `k`. */
  function Upper(b: Byte, value: Byte, k: nat): Byte
    requires 0 < k < 8
  {
    b | Shr(value, k)
  }

  function Lower(value: Byte, k: nat): Byte
    requires 0 < k < 8
  {
    Shl(value, 8 - k)
  }

  lemma ByteOnLastByte(data: seq<Byte>, length: nat, value: Byte)
    requires Packed(data, length) && length % 8 != 0
    ensures data != []
    ensures var n, k := |data| - 1, length % 8;
            var e := data[n := Upper(data[n], value, k)] + [Lower(value, k)];
            Packed(e, length + 8) && Content(e, length + 8) == Content(data, length) + ByteBits(value)
  {
    LastByte(data, length);
    var n, k := |data| - 1, length % 8;
    PartsOfByte(data[n], value, k);
    AppendByteUnaligned(data, length, ByteBits(value), Upper(data[n], value, k), Lower(value, k));
  }

  lemma PartsOfByte(b: Byte, value: Byte, k: nat)
    requires 0 < k < 8 && ByteBits(b)[k..] == Zeros(8 - k)
    ensures ByteBits(Upper(b, value, k)) == ByteBits(b)[..k] + ByteBits(value)[..8 - k]
    ensures ByteBits(Lower(value, k)) == ByteBits(value)[8 - k..] + Zeros(8 - k)
  {
    hide ByteBits, Zeros;
    UpperPart(b, value, k);
    LowerPart(value, 8 - k);
  }

  lemma OneByte(b: Byte)
    ensures BytesBits([b]) == ByteBits(b)
  {
    BytesBitsSnoc([], b);
    assert [] + [b] == [b];
  }

  lemma NextByte(before: BitString, bytes: seq<Byte>, i: nat)
    requires i < |bytes|
    ensures before + BytesBits(bytes[..i]) + ByteBits(bytes[i]) == before + BytesBits(bytes[..i + 1])
  {
    assert bytes[..i + 1] == bytes[..i] + [bytes[i]];
    BytesBitsSnoc(bytes[..i], bytes[i]);
  }

  lemma SliceGrows(before: BitString, s: BitString, from: nat, pos: nat)
    requires from <= pos < |s|
    ensures before + s[from..pos] + [s[pos]] == before + s[from..pos + 1]
  {
  }

  lemma SliceAt(before: BitString, src: seq<Byte>, from: nat, n: nat, k: nat)
    requires from <= 8 * n && n + k <= |src|
    ensures before + BytesBits(src)[from..8 * n] + BytesBits(src[n..n + k]) == before + BytesBits(src)[from..8 * n + 8 * k]
  {
    hide BytesBits;
    ThreeParts(src, n, k);
    SliceParts(BytesBits(src[..n]), BytesBits(src[n..n + k]), BytesBits(src[n + k..]), before, from);
  }

  lemma ThreeParts(src: seq<Byte>, n: nat, k: nat)
    requires n + k <= |src|
    ensures BytesBits(src) == BytesBits(src[..n]) + BytesBits(src[n..n + k]) + BytesBits(src[n + k..])
  {
    var a, b, c := src[..n], src[n..n + k], src[n + k..];
    assert src == a + b + c;
    BytesBitsJoin(a + b, c);
    BytesBitsJoin(a, b);
  }

  lemma SliceParts(a: BitString, b: BitString, c: BitString, before: BitString, from: nat)
    requires from <= |a|
    ensures before + (a + b + c)[from..|a|] + b == before + (a + b + c)[from..|a| + |b|]
  {
  }
}
