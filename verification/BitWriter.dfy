/**
 The bit packing writer of util-compress.cpp.
 It works on eight bit registers; its specification speaks of bit sequences only.
 */
module BitWriter {
  import opened Bits

  lemma ValueBit(value: nat, drop: nat, use: nat, off: nat, k: nat)
    ensures Bit(ShiftLeft(And(ShiftRight(value, drop), Mask(use)), off), k)
            == (off <= k < off + use && Bit(value, k - off + drop))
  {
    BitOfShiftLeft(And(ShiftRight(value, drop), Mask(use)), off, k);
    if k >= off {
      BitOfAnd(ShiftRight(value, drop), Mask(use), k - off);
      BitOfMask(use, k - off);
      BitOfShiftRight(value, drop, k - off);
    }
  }

  lemma StoredBit(cur: byte, field: nat, put: nat, k: nat)
    requires k < 8
    ensures Bit(U8(Or(And(cur, Not8(U8(field))), put)), k) == ((Bit(cur, k) && !Bit(field, k)) || Bit(put, k))
  {
    BitOfU8(Or(And(cur, Not8(U8(field))), put), k);
    BitOfOr(And(cur, Not8(U8(field))), put, k);
    BitOfAnd(cur, Not8(U8(field)), k);
    BitOfNot8(U8(field), k);
    BitOfU8(field, k);
  }

  /** The byte `cur`, of which `used` bits are written, with the top bits of the low `count` bits of `value` added. */
  function PushedRegister(cur: byte, value: byte, used: nat, count: nat): byte
    requires used < 8
  {
    var left := 8 - used;
    var use := Least(left, count);
    var mask := Mask(use);
    var valueBits := And(ShiftRight(value, count - use), mask);
    var off := left - use;
    U8(Or(And(cur, Not8(U8(ShiftLeft(mask, off)))), ShiftLeft(valueBits, off)))
  }

  lemma PushedBit(cur: byte, value: byte, used: nat, count: nat, i: nat)
    requires used < 8 && 0 < count <= 8 && i < 8
    ensures var use := Least(8 - used, count);
            ByteBits(PushedRegister(cur, value, used, count))[i]
            == if used <= i < used + use then LowBits(value, count)[i - used] else ByteBits(cur)[i]
  {
    hide LowBits, Bit, And, Or, ShiftLeft, ShiftRight, Mask, Not8, U8, Pow2;
    var use := Least(8 - used, count);
    var off := 8 - used - use;
    var field := ShiftLeft(Mask(use), off);
    var put := ShiftLeft(And(ShiftRight(value, count - use), Mask(use)), off);
    LowBit(PushedRegister(cur, value, used, count), 8, i);
    LowBit(cur, 8, i);
    StoredBit(cur, field, put, 7 - i);
    FieldBit(use, off, 7 - i);
    ValueBit(value, count - use, use, off, 7 - i);
    if used <= i < used + use {
      LowBit(value, count, i - used);
    }
  }

  lemma Bits55(k: nat)
    ensures Bit(0x55, k) == (k < 8 && k % 2 == 0)
  {
    LowBit(0x55, 8, 0);
    if k < 8 {
      assert LowBits(0x55, 4) == [false, true, false, true];
      assert 0x55 / 2 / 2 / 2 / 2 == 5;
      assert Bit(0x55, 0) && !Bit(0x55, 1) && Bit(0x55, 2) && !Bit(0x55, 3);
      assert Bit(5, 0) && !Bit(5, 1) && Bit(5, 2) && !Bit(5, 3);
      assert k >= 4 ==> Bit(0x55, k) == Bit(0x55 / 2 / 2 / 2 / 2, k - 4);
    } else {
      BitOfRemainder(0x55, 8, k);
      PowEight();
    }
  }

  lemma PadRegister(cur: byte, used: nat, k: nat)
    requires k < 8
    ensures Bit(U8(Or(cur, ShiftRight(0x55, used))), k) == (Bit(cur, k) || (k + used < 8 && (k + used) % 2 == 0))
  {
    var m := ShiftRight(0x55, used);
    BitOfU8(Or(cur, m), k);
    BitOfOr(cur, m, k);
    BitOfShiftRight(0x55, used, k);
    Bits55(k + used);
  }

  /** `0x55 >> used` adds 0, 1, 0, 1, ... from bit `used` on. */
  lemma PaddedBit(cur: byte, used: nat, i: nat)
    requires 0 < used < 8 && i < 8
    requires used <= i ==> !ByteBits(cur)[i]
    ensures ByteBits(U8(Or(cur, ShiftRight(0x55, used))))[i]
            == if i < used then ByteBits(cur)[i] else (i - used) % 2 == 1
  {
    hide LowBits, Bit, Or, ShiftRight, U8;
    var m := ShiftRight(0x55, used);
    LowBit(U8(Or(cur, m)), 8, i);
    LowBit(cur, 8, i);
    PadRegister(cur, used, 7 - i);
  }

  lemma LowBitsSplit(value: nat, count: nat, use: nat)
    requires use <= count
    ensures LowBits(value, count) == LowBits(value, count)[..use] + LowBits(value, count - use)
  {
    forall i: nat {:trigger LowBits(value, count - use)[i]} | i < count - use
      ensures LowBits(value, count)[use + i] == LowBits(value, count - use)[i]
    {
      LowBit(value, count, use + i);
      LowBit(value, count - use, i);
    }
  }

  lemma PushedInParts(w: bits, value: nat, count: nat, use: nat)
    requires use <= count
    ensures w + LowBits(value, count)[..use] + LowBits(value, count - use) == w + LowBits(value, count)
  {
    hide LowBits;
    LowBitsSplit(value, count, use);
  }

  lemma ZeroBits()
    ensures ByteBits(0) == Zeros(8)
  {
    forall i | 0 <= i < 8
      ensures !ByteBits(0)[i]
    {
      LowBit(0, 8, i);
      BitOfZero(7 - i);
    }
  }

  lemma PushedByte(cur: byte, value: byte, used: nat, count: nat, dst: byte)
    requires used < 8 && 0 < count <= 8
    requires ByteBits(cur)[used..] == Zeros(8 - used)
    requires dst == PushedRegister(cur, value, used, count)
    ensures var use := Least(8 - used, count);
            ByteBits(dst) == ByteBits(cur)[..used] + LowBits(value, count)[..use] + Zeros(8 - used - use)
  {
    hide LowBits, PushedRegister;
    var use := Least(8 - used, count);
    forall i | 0 <= i < 8
      ensures ByteBits(dst)[i] == (ByteBits(cur)[..used] + LowBits(value, count)[..use] + Zeros(8 - used - use))[i]
    {
      PushedBit(cur, value, used, count, i);
      assert i >= used ==> ByteBits(cur)[i] == ByteBits(cur)[used..][i - used];
    }
  }

  /** The buffer after one step of `Push`: the old bits, the top bits of the value, zeros. */
  lemma PushedBuffer(before: seq<byte>, bitCount: nat, value: byte, count: nat, cur: byte, after: seq<byte>)
    requires 0 < count <= 8
    requires |before| == (bitCount + 7) / 8 && Unpack(before)[bitCount..] == Zeros(8 * |before| - bitCount)
    requires cur == if bitCount % 8 == 0 then 0 else before[bitCount / 8]
    requires after == before[..bitCount / 8] + [PushedRegister(cur, value, bitCount % 8, count)]
    ensures var use := Least(8 - bitCount % 8, count);
            && |after| == (bitCount + use + 7) / 8
            && Unpack(after)[..bitCount + use] == Unpack(before)[..bitCount] + LowBits(value, count)[..use]
            && Unpack(after)[bitCount + use..] == Zeros(8 * |after| - bitCount - use)
  {
    hide LowBits, PushedRegister, Unpack;
    var sz, used := bitCount / 8, bitCount % 8;
    var use := Least(8 - used, count);
    var dst := PushedRegister(cur, value, used, count);
    var full := Unpack(before[..sz]);
    assert Unpack(before) == if used == 0 then full else full + ByteBits(cur) by {
      UnpackOne(cur);
      UnpackAppend(before[..sz], [cur]);
      assert used == 0 ==> before == before[..sz];
      assert used > 0 ==> before == before[..sz] + [cur];
    }
    assert ByteBits(cur)[used..] == Zeros(8 - used) by {
      if used == 0 {
        ZeroBits();
      } else {
        assert Unpack(before)[bitCount..] == ByteBits(cur)[used..];
      }
    }
    PushedByte(cur, value, used, count, dst);
    UnpackOne(dst);
    UnpackAppend(before[..sz], [dst]);
    assert Unpack(after) == full + ByteBits(dst);
    assert Unpack(before)[..bitCount] == full + ByteBits(cur)[..used];
  }

  lemma PaddedByte(cur: byte, used: nat, dst: byte)
    requires 0 < used < 8 && ByteBits(cur)[used..] == Zeros(8 - used)
    requires dst == U8(Or(cur, ShiftRight(0x55, used)))
    ensures ByteBits(dst) == ByteBits(cur)[..used] + Padding(8 - used)
  {
    hide LowBits, U8, Or, ShiftRight;
    forall i | 0 <= i < 8
      ensures ByteBits(dst)[i] == (ByteBits(cur)[..used] + Padding(8 - used))[i]
    {
      assert i >= used ==> ByteBits(cur)[i] == ByteBits(cur)[used..][i - used];
      PaddedBit(cur, used, i);
    }
  }

  lemma PaddedBuffer(before: seq<byte>, bitCount: nat, after: seq<byte>)
    requires bitCount % 8 != 0
    requires |before| == (bitCount + 7) / 8 && Unpack(before)[bitCount..] == Zeros(8 * |before| - bitCount)
    requires after == before[bitCount / 8 := U8(Or(before[bitCount / 8], ShiftRight(0x55, bitCount % 8)))]
    ensures Unpack(after) == Unpack(before)[..bitCount] + Padding(8 * |after| - bitCount)
  {
    hide LowBits, U8, Or, ShiftRight, Unpack, Pow2;
    var sz, used := bitCount / 8, bitCount % 8;
    var full, cur, dst := Unpack(before[..sz]), before[sz], after[sz];
    assert before == before[..sz] + [cur] && after == before[..sz] + [dst];
    UnpackAppend(before[..sz], [cur]);
    UnpackAppend(before[..sz], [dst]);
    UnpackOne(cur);
    UnpackOne(dst);
    assert 8 * |before| - bitCount == 8 - used && 8 * |after| - bitCount == 8 - used;
    assert Unpack(before)[bitCount..] == ByteBits(cur)[used..];
    PaddedByte(cur, used, dst);
    assert Unpack(before)[..bitCount] == full + ByteBits(cur)[..used];
  }

  class BitBufferWriter {
    var bitCount: nat
    var buffer: seq<byte>

    /** The buffer has just the bytes it needs and is zero after the bits written. */
    ghost predicate Valid()
      reads this
    {
      |buffer| == (bitCount + 7) / 8 && Unpack(buffer)[bitCount..] == Zeros(8 * |buffer| - bitCount)
    }

    /** The bits pushed so far. */
    ghost function Written(): (b: bits)
      requires |buffer| == (bitCount + 7) / 8
      reads this
    {
      Unpack(buffer)[..bitCount]
    }

    constructor ()
      ensures Valid() && Written() == []
    {
      bitCount := 0;
      buffer := [];
    }

    function Size(): nat
      reads this
    {
      bitCount / 8
    }

    function BitSize(): nat
      reads this
    {
      bitCount
    }

    /** Append as many of the bits as the last byte has room for. */
    method PushPart(value: byte, count: nat) returns (use: nat)
      requires Valid() && 0 < count <= 8
      modifies this
      ensures Valid() && use == Least(8 - old(bitCount) % 8, count)
      ensures Written() == old(Written()) + LowBits(value, count)[..use]
    {
      hide Bit, And, Or, ShiftLeft, ShiftRight, Mask, Not8, U8, Pow2, Unpack, LowBits;
      var sz := Size();
      ghost var before := buffer;
      while |buffer| <= sz
        invariant bitCount == old(bitCount) && sz <= |buffer| <= sz + 1
        invariant buffer == before || (|before| == sz && buffer == before + [0])
      {
        buffer := buffer + [0];
      }
      var left := 8 - bitCount % 8;
      use := Least(left, count);
      var mask := Mask(use);
      var valueBits := And(ShiftRight(value, count - use), mask);
      var cur := buffer[sz];
      var off := left - use;
      buffer := buffer[sz := U8(Or(And(cur, Not8(U8(ShiftLeft(mask, off)))), ShiftLeft(valueBits, off)))];
      assert buffer == before[..sz] + [PushedRegister(cur, value, bitCount % 8, count)];
      PushedBuffer(before, bitCount, value, count, cur, buffer);
      bitCount := bitCount + use;
    }

    /** Append the low `count` bits of `value`. */
    method Push(value: byte, count: nat)
      requires Valid() && count <= 8
      modifies this
      ensures Valid()
      ensures Written() == old(Written()) + LowBits(value, count)
      decreases count
    {
      if count == 0 {
        return;
      }
      hide Unpack, LowBits, Zeros;
      ghost var w := Written();
      var use := PushPart(value, count);
      Push(value, count - use);
      PushedInParts(w, value, count, use);
    }

    /** Fill the last byte up with the start of 0, 1, 0, 1, ... unless it is full. */
    method AppendPaddingBits()
      requires Valid()
      modifies this
      ensures bitCount == old(bitCount) && |buffer| == (bitCount + 7) / 8
      ensures Written() == old(Written())
      ensures Unpack(buffer) == old(Written()) + Padding(8 * |buffer| - bitCount)
    {
      var rsz := bitCount % 8;
      if rsz != 0 {
        var sz := Size();
        var m := ShiftRight(0x55, rsz);
        ghost var before := buffer;
        buffer := buffer[sz := U8(Or(buffer[sz], m))];
        PaddedBuffer(before, bitCount, buffer);
      }
    }
  }
}
