/**
 The two bit readers of util-compress.cpp: one over a buffer of known length,
 one over a stream whose end it discovers only when it asks for a byte too many.
 */
module BitReaders {
  import opened Bits

  // -------------------------------------------------------- reading one field

  /** Bits `skip`, `skip + 1`, ... of `src`, `use` of them. */
  function PeekedField(src: byte, skip: nat, use: nat): nat
    requires skip <= 8 && use <= 8
  {
    var cur := U8(ShiftLeft(src, skip));
    var off := 8 - use;
    ShiftRight(And(cur, ShiftLeft(Mask(use), off)), off)
  }

  lemma PeekedBit(src: byte, skip: nat, use: nat, i: nat)
    requires skip + use <= 8 && i < use
    ensures LowBits(PeekedField(src, skip, use), use)[i] == ByteBits(src)[skip + i]
  {
    hide LowBits, Bit, And, ShiftLeft, ShiftRight, Mask, U8, Pow2;
    var cur := U8(ShiftLeft(src, skip));
    var off := 8 - use;
    var k := use - 1 - i;
    LowBit(PeekedField(src, skip, use), use, i);
    LowBit(src, 8, skip + i);
    BitOfShiftRight(And(cur, ShiftLeft(Mask(use), off)), off, k);
    BitOfAnd(cur, ShiftLeft(Mask(use), off), k + off);
    FieldBit(use, off, k + off);
    BitOfU8(ShiftLeft(src, skip), k + off);
    BitOfShiftLeft(src, skip, k + off);
  }

  lemma {:induction false} AndAtMost(a: nat, b: nat)
    ensures And(a, b) <= a
  {
    if a != 0 && b != 0 {
      AndAtMost(a / 2, b / 2);
    }
  }

  lemma {:induction false} ShiftRightBound(v: nat, n: nat, m: nat)
    requires v < Pow2(n + m)
    ensures ShiftRight(v, n) < Pow2(m)
    decreases n
  {
    if n > 0 {
      ShiftRightBound(v / 2, n - 1, m);
    }
  }

  lemma {:induction false} OrZero(a: nat)
    ensures Or(a, 0) == a
  {
    if a > 0 {
      OrZero(a / 2);
    }
  }

  /** `accum <<= use; accum |= field` shifts the bits of the field in. */
  lemma {:induction false} OrShiftsIn(accum: nat, field: nat, use: nat)
    requires field < Pow2(use)
    ensures Or(ShiftLeft(accum, use), field) == ShiftIn(accum, LowBits(field, use))
    decreases use
  {
    if use == 0 {
      OrZero(accum);
    } else {
      OrShiftsIn(accum, field / 2, use - 1);
      assert LowBits(field, use)[..use - 1] == LowBits(field / 2, use - 1);
    }
  }

  lemma FieldShiftsIn(accum: nat, src: byte, skip: nat, use: nat)
    requires skip + use <= 8
    ensures Or(ShiftLeft(accum, use), PeekedField(src, skip, use)) == ShiftIn(accum, ByteBits(src)[skip..skip + use])
  {
    var field := PeekedField(src, skip, use);
    assert field < Pow2(use) by {
      hide And, ShiftLeft, Mask;
      PowEight();
      AndAtMost(U8(ShiftLeft(src, skip)), ShiftLeft(Mask(use), 8 - use));
      ShiftRightBound(And(U8(ShiftLeft(src, skip)), ShiftLeft(Mask(use), 8 - use)), 8 - use, use);
    }
    hide PeekedField, LowBits;
    OrShiftsIn(accum, field, use);
    forall i | 0 <= i < use
      ensures LowBits(field, use)[i] == ByteBits(src)[skip..skip + use][i]
    {
      PeekedBit(src, skip, use, i);
    }
    assert LowBits(field, use) == ByteBits(src)[skip..skip + use];
  }

  /** The bits a field takes from one byte are the next bits of the buffer. */
  lemma UnpackSlice(s: seq<byte>, offset: nat, use: nat)
    requires offset % 8 + use <= 8 && offset / 8 < |s|
    ensures offset + use <= 8 * |s|
    ensures Unpack(s)[offset..offset + use] == ByteBits(s[offset / 8])[offset % 8..offset % 8 + use]
  {
    hide LowBits;
    var at := 8 * (offset / 8);
    forall k | offset <= k < offset + use
      ensures Unpack(s)[k] == ByteBits(s[offset / 8])[k - at]
    {
      assert k / 8 == offset / 8 && k % 8 == k - at;
    }
  }

  /** One step of either `Peek`, followed by the rest of it. */
  lemma PeekStep(s: seq<byte>, offset: nat, bitSize: nat, use: nat, accum: nat)
    requires offset / 8 < |s| && offset % 8 + use <= 8 && use <= bitSize && offset + bitSize <= 8 * |s|
    ensures var next := Or(ShiftLeft(accum, use), PeekedField(s[offset / 8], offset % 8, use));
            ShiftIn(next, Unpack(s)[offset + use..offset + bitSize])
            == ShiftIn(accum, Unpack(s)[offset..offset + bitSize])
  {
    hide LowBits, PeekedField, ShiftIn, Unpack;
    UnpackSlice(s, offset, use);
    FieldShiftsIn(accum, s[offset / 8], offset % 8, use);
    ShiftInAppend(accum, Unpack(s)[offset..offset + use], Unpack(s)[offset + use..offset + bitSize]);
    assert Unpack(s)[offset..offset + bitSize]
        == Unpack(s)[offset..offset + use] + Unpack(s)[offset + use..offset + bitSize];
  }

  // ---------------------------------------------------------- reading a buffer

  class BitBufferReader {
    var bitCount: nat
    var buffer: seq<byte>
    var bitPosition: nat

    ghost predicate Valid()
      reads this
    {
      bitPosition <= bitCount <= 8 * |buffer|
    }

    constructor (src: seq<byte>, sizeInBits: nat)
      requires sizeInBits <= 8 * |src|
      ensures Valid() && buffer == src && bitCount == sizeInBits && bitPosition == 0
    {
      bitCount := sizeInBits;
      buffer := src;
      bitPosition := 0;
    }

    /**
     Read `bitSize` bits at `offset`, at most the rest of one byte at a time.
     The accumulator is 32 bits wide; at most eight bits are ever read into an empty one.
     */
    function Peek(bitSize: nat, offset: nat, accum: nat): nat
      requires Valid() && bitSize <= 8
      reads this
      decreases bitSize
    {
      if bitSize == 0 then accum
      else if offset + bitSize > bitCount then accum
      else
        var src := buffer[offset / 8];
        var bitsLeft := 8 - offset % 8;
        var cur := U8(ShiftLeft(src, 8 - bitsLeft));
        var bitsToUse := Least(bitsLeft, bitSize);
        var off := 8 - bitsToUse;
        var field := ShiftRight(And(cur, ShiftLeft(Mask(bitsToUse), off)), off);
        Peek(bitSize - bitsToUse, offset + bitsToUse, Or(ShiftLeft(accum, bitsToUse), field))
    }

    /** `Peek` reads exactly the bits of the buffer at `offset`, also across a byte boundary. */
    lemma {:induction false} PeekReadsSlice(bitSize: nat, offset: nat, accum: nat)
      requires Valid() && bitSize <= 8 && offset + bitSize <= bitCount
      ensures Peek(bitSize, offset, accum) == ShiftIn(accum, Unpack(buffer)[offset..offset + bitSize])
      decreases bitSize
    {
      hide LowBits, ShiftRight, ShiftLeft, And, Or, Mask, U8, Unpack;
      if bitSize > 0 {
        var use := Least(8 - offset % 8, bitSize);
        var next := Or(ShiftLeft(accum, use), PeekedField(buffer[offset / 8], offset % 8, use));
        PeekReadsSlice(bitSize - use, offset + use, next);
        PeekStep(buffer, offset, bitSize, use, accum);
      }
    }

    method Pop(count: nat) returns (r: nat, hasBits: bool)
      requires Valid() && count <= 8
      modifies this`bitPosition
      ensures Valid()
      ensures hasBits <==> old(bitPosition) + count <= bitCount
      ensures hasBits ==> bitPosition == old(bitPosition) + count
                          && r == Value(Unpack(buffer)[old(bitPosition)..bitPosition])
      ensures !hasBits ==> bitPosition == old(bitPosition) && r == 0
    {
      hide Unpack, Value, Peek, ShiftIn;
      hasBits := bitPosition + count <= bitCount;
      if !hasBits {
        return 0, hasBits;
      }
      r := Peek(count, bitPosition, 0);
      PeekReadsSlice(count, bitPosition, 0);
      ShiftInValue(0, Unpack(buffer)[bitPosition..bitPosition + count]);
      bitPosition := bitPosition + count;
    }

    method Pop1() returns (r: nat, hasBits: bool)
      requires Valid()
      modifies this`bitPosition
      ensures Valid()
      ensures hasBits <==> old(bitPosition) < bitCount
      ensures hasBits ==> bitPosition == old(bitPosition) + 1 && (r != 0 <==> Unpack(buffer)[old(bitPosition)])
      ensures !hasBits ==> bitPosition == old(bitPosition) && r == 0
    {
      hasBits := bitPosition < bitCount;
      if !hasBits {
        return 0, hasBits;
      }
      r := Peek(1, bitPosition, 0);
      PeekReadsSlice(1, bitPosition, 0);
      assert Unpack(buffer)[bitPosition..bitPosition + 1] == [Unpack(buffer)[bitPosition]];
      bitPosition := bitPosition + 1;
    }
  }

  // ---------------------------------------------------------- reading a stream

  /** `std::istream` as the reader uses it: the end is seen by reading past it. */
  class IStream {
    const data: seq<byte>
    var position: nat
    var eof: bool

    constructor (data: seq<byte>)
      ensures this.data == data && position == 0 && !eof
    {
      this.data := data;
      position := 0;
      eof := false;
    }

    /** The next byte; at the end of the stream the low byte of `EOF`, and the flag. */
    method Get() returns (c: byte)
      requires position <= |data|
      modifies this
      ensures old(position) < |data| ==> c == data[old(position)] && position == old(position) + 1 && eof == old(eof)
      ensures old(position) == |data| ==> c == 0xff && position == old(position) && eof
    {
      if position < |data| {
        c := data[position];
        position := position + 1;
      } else {
        c := 0xff;
        eof := true;
      }
    }
  }

  /** The bytes the stream reader works on: an empty stream reads as the one byte 0xFF. */
  function StreamedBytes(data: seq<byte>): seq<byte> {
    if data == [] then [0xff] else data
  }

  class BitStreamReader {
    const strm: IStream
    var src: byte
    var lastBitPosition: nat
    var lastBytePosition: nat
    var reachEof: bool

    ghost function Input(): seq<byte> {
      StreamedBytes(strm.data)
    }

    /** The reader holds the byte before the bit `offset`, or the byte with that bit. */
    ghost predicate ValidAt(offset: nat)
      reads this, strm
    {
      && !reachEof
      && lastBytePosition < |Input()|
      && src == Input()[lastBytePosition]
      && strm.position == Least(lastBytePosition + 1, |strm.data|)
      && (strm.eof ==> strm.data == [])
      && 8 * lastBytePosition <= offset <= 8 * lastBytePosition + 8
    }

    constructor (aStrm: IStream)
      requires aStrm.position == 0 && !aStrm.eof
      modifies aStrm
      ensures strm == aStrm && ValidAt(0) && lastBitPosition == 0
    {
      strm := aStrm;
      lastBitPosition := 0;
      lastBytePosition := 0;
      reachEof := false;
      new;
      src := strm.Get();
    }

    method Peek(bitSize: nat, offset: nat, accum: nat) returns (r: nat)
      requires bitSize <= 8 && ValidAt(offset)
      modifies this`src, this`lastBytePosition, this`reachEof, strm
      ensures reachEof <==> offset + bitSize > 8 * |Input()|
      ensures !reachEof ==> ValidAt(offset + bitSize)
                            && r == ShiftIn(accum, Unpack(Input())[offset..offset + bitSize])
      decreases bitSize
    {
      hide LowBits, ShiftRight, ShiftLeft, And, Or, Mask, U8, Unpack;
      if bitSize == 0 {
        return accum;
      }
      if offset / 8 > lastBytePosition {
        src := strm.Get();
        lastBytePosition := lastBytePosition + 1;
        if strm.eof {
          reachEof := true;
          return accum;
        }
      }
      var bitsLeft := 8 - offset % 8;
      var cur := U8(ShiftLeft(src, 8 - bitsLeft));
      var bitsToUse := Least(bitsLeft, bitSize);
      var off := 8 - bitsToUse;
      var field := ShiftRight(And(cur, ShiftLeft(Mask(bitsToUse), off)), off);
      if offset + bitSize <= 8 * |Input()| {
        PeekStep(Input(), offset, bitSize, bitsToUse, accum);
      }
      r := Peek(bitSize - bitsToUse, offset + bitsToUse, Or(ShiftLeft(accum, bitsToUse), field));
    }

    method Pop(count: nat) returns (r: nat)
      requires count <= 8 && ValidAt(lastBitPosition)
      modifies this, strm
      ensures lastBitPosition == old(lastBitPosition) + count
      ensures reachEof <==> lastBitPosition > 8 * |Input()|
      ensures !reachEof ==> ValidAt(lastBitPosition)
                            && r == Value(Unpack(Input())[old(lastBitPosition)..lastBitPosition])
    {
      r := Peek(count, lastBitPosition, 0);
      if !reachEof {
        ShiftInValue(0, Unpack(Input())[lastBitPosition..lastBitPosition + count]);
      }
      lastBitPosition := lastBitPosition + count;
      if reachEof {
        return 0;
      }
    }

    method Pop1() returns (r: nat)
      requires ValidAt(lastBitPosition)
      modifies this, strm
      ensures lastBitPosition == old(lastBitPosition) + 1
      ensures reachEof <==> lastBitPosition > 8 * |Input()|
      ensures !reachEof ==> ValidAt(lastBitPosition) && (r != 0 <==> Unpack(Input())[old(lastBitPosition)])
    {
      r := Peek(1, lastBitPosition, 0);
      if !reachEof {
        assert Unpack(Input())[lastBitPosition..lastBitPosition + 1] == [Unpack(Input())[lastBitPosition]];
      }
      lastBitPosition := lastBitPosition + 1;
      if reachEof {
        return 0;
      }
    }
  }
}
