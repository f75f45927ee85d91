/** Bytes as sequences of bits, most significant bit first. */
module Bits {
  type byte = b: int | 0 <= b < 256
  type bits = seq<bool>

  function Least(a: nat, b: nat): nat {
    if a < b then a else b
  }

  lemma LeastBounds(a: nat, b: nat)
    ensures Least(a, b) <= a && Least(a, b) <= b && (a <= b ==> Least(a, b) == a)
  {
  }

  function Pow2(n: nat): (p: nat)
    ensures p > 0
  {
    if n == 0 then 1 else 2 * Pow2(n - 1)
  }

  lemma PowEight()
    ensures Pow2(8) == 256
  {
    assert Pow2(4) == 16;
  }

  lemma PowersOfTwo()
    ensures Pow2(0) == 1 && Pow2(1) == 2 && Pow2(2) == 4 && Pow2(3) == 8 && Pow2(4) == 16 && Pow2(5) == 32
    ensures Pow2(6) == 64 && Pow2(7) == 128 && Pow2(8) == 256 && Pow2(9) == 512 && Pow2(10) == 1024
    ensures Pow2(11) == 2048 && Pow2(12) == 4096 && Pow2(13) == 8192 && Pow2(14) == 16384 && Pow2(15) == 0x8000
  {
    assert Pow2(4) == 16;
    assert Pow2(8) == 256;
    assert Pow2(12) == 4096;
  }

  lemma {:induction false} PowersGrow(a: nat, b: nat)
    requires a <= b
    ensures Pow2(a) <= Pow2(b)
  {
    if a < b {
      PowersGrow(a, b - 1);
    }
  }

  /** The number written by the bits `b`. */
  function Value(b: bits): (v: nat)
    ensures v < Pow2(|b|)
  {
    if |b| == 0 then 0 else 2 * Value(b[..|b| - 1]) + (if b[|b| - 1] then 1 else 0)
  }

  /** The `n` low bits of `v`. */
  function LowBits(v: nat, n: nat): (b: bits)
    ensures |b| == n
  {
    if n == 0 then [] else LowBits(v / 2, n - 1) + [v % 2 == 1]
  }

  function ByteBits(b: byte): (r: bits)
    ensures |r| == 8
  {
    LowBits(b, 8)
  }

  /** The byte with the given bits. */
  function ByteOf(b: bits): (r: byte)
    requires |b| == 8
  {
    PowEight();
    Value(b)
  }

  lemma {:induction false} ValueOfLowBits(v: nat, n: nat)
    requires v < Pow2(n)
    ensures Value(LowBits(v, n)) == v
  {
    if n > 0 {
      ValueOfLowBits(v / 2, n - 1);
      assert LowBits(v, n)[..n - 1] == LowBits(v / 2, n - 1);
    }
  }

  lemma {:induction false} LowBitsOfValue(b: bits)
    ensures LowBits(Value(b), |b|) == b
    decreases |b|
  {
    if |b| > 0 {
      LowBitsOfValue(b[..|b| - 1]);
    }
  }

  lemma BitsOfByteOf(b: bits)
    requires |b| == 8
    ensures ByteBits(ByteOf(b)) == b
  {
    LowBitsOfValue(b);
  }

  lemma ByteOfBits(b: byte)
    ensures ByteOf(ByteBits(b)) == b
  {
    PowEight();
    ValueOfLowBits(b, 8);
  }

  // ---------------------------------------------------------------- buffers

  /** All the bits of a buffer, in order. */
  function Unpack(s: seq<byte>): (r: bits)
    ensures |r| == 8 * |s|
  {
    seq(8 * |s|, k requires 0 <= k < 8 * |s| => ByteBits(s[k / 8])[k % 8])
  }

  function PackedByte(b: bits, k: nat): (r: bits)
    ensures |r| == 8
  {
    seq(8, j requires 0 <= j < 8 => 8 * k + j < |b| && b[8 * k + j])
  }

  /** The bits `b` in as few bytes as hold them, the last byte filled up with zero bits. */
  function Pack(b: bits): (r: seq<byte>)
    ensures |r| == (|b| + 7) / 8
  {
    seq((|b| + 7) / 8, k requires 0 <= k < (|b| + 7) / 8 => ByteOf(PackedByte(b, k)))
  }

  function Zeros(n: nat): bits {
    seq(n, i => false)
  }

  /** The padding written after the last code: the prefix label 01, then the start of a byte. */
  function Padding(n: nat): bits {
    seq(n, i => i % 2 == 1)
  }

  lemma UnpackPack(b: bits)
    ensures |b| <= 8 * |Pack(b)| < |b| + 8
    ensures Unpack(Pack(b)) == b + Zeros(8 * |Pack(b)| - |b|)
  {
    var p := Pack(b);
    forall k | 0 <= k < 8 * |p|
      ensures Unpack(p)[k] == (b + Zeros(8 * |p| - |b|))[k]
    {
      BitsOfByteOf(PackedByte(b, k / 8));
      assert 8 * (k / 8) + k % 8 == k;
    }
  }

  lemma PackUnpack(s: seq<byte>)
    ensures Pack(Unpack(s)) == s
  {
    forall k | 0 <= k < |s|
      ensures Pack(Unpack(s))[k] == s[k]
    {
      forall j | 0 <= j < 8
        ensures PackedByte(Unpack(s), k)[j] == ByteBits(s[k])[j]
      {
        assert (8 * k + j) / 8 == k && (8 * k + j) % 8 == j;
      }
      assert PackedByte(Unpack(s), k) == ByteBits(s[k]);
      ByteOfBits(s[k]);
    }
  }

  lemma UnpackAppend(a: seq<byte>, b: seq<byte>)
    ensures Unpack(a + b) == Unpack(a) + Unpack(b)
  {
    hide LowBits;
    forall k | 0 <= k < 8 * |a + b|
      ensures Unpack(a + b)[k] == (Unpack(a) + Unpack(b))[k]
    {
      if k >= 8 * |a| {
        var j := k - 8 * |a|;
        assert k / 8 == |a| + j / 8 && k % 8 == j % 8;
      }
    }
  }

  lemma UnpackOne(x: byte)
    ensures Unpack([x]) == ByteBits(x)
  {
    hide LowBits;
  }

  // ---------------------------------------------- bitwise operators on words

  /** Bit `k` of `v`, counted from the least significant end. */
  function Bit(v: nat, k: nat): bool {
    if k == 0 then v % 2 == 1 else Bit(v / 2, k - 1)
  }

  function And(a: nat, b: nat): nat {
    if a == 0 || b == 0 then 0
    else 2 * And(a / 2, b / 2) + (if a % 2 == 1 && b % 2 == 1 then 1 else 0)
  }

  function Or(a: nat, b: nat): nat
    decreases a + b
  {
    if a == 0 && b == 0 then 0
    else 2 * Or(a / 2, b / 2) + (if a % 2 == 1 || b % 2 == 1 then 1 else 0)
  }

  /** Complement of an eight bit value. */
  function Not8(v: byte): byte {
    255 - v
  }

  function ShiftLeft(v: nat, n: nat): nat {
    if n == 0 then v else 2 * ShiftLeft(v, n - 1)
  }

  function ShiftRight(v: nat, n: nat): nat {
    if n == 0 then v else ShiftRight(v / 2, n - 1)
  }

  /** The eight bits that a `uint8_t` keeps of a wider value. */
  function U8(v: nat): byte {
    v % 256
  }

  lemma EvenPart(a: nat, b: nat)
    requires b < 2
    ensures (2 * a + b) / 2 == a
  {
  }

  lemma {:induction false} BitOfZero(k: nat)
    ensures !Bit(0, k)
  {
    if k > 0 { BitOfZero(k - 1); }
  }

  lemma Multiple(d: int, m: nat)
    requires d >= 1
    ensures d * m >= m
  {
  }

  lemma Remainder(v: nat, m: nat, q: nat, r: nat)
    requires m > 0 && r < m && v == q * m + r
    ensures v % m == r
  {
    var d := q - v / m;
    assert d * m == v % m - r by {
      assert v == v / m * m + v % m;
    }
    if d >= 1 {
      Multiple(d, m);
    } else if d <= -1 {
      Multiple(-d, m);
    }
  }

  /** The remainder of an even modulus, by its lowest bit and the rest. */
  lemma RemainderOfEven(v: nat, p: nat)
    requires p > 0
    ensures v % (2 * p) == 2 * (v / 2 % p) + v % 2
  {
    var q, r := v / 2 / p, v / 2 % p;
    assert v / 2 == q * p + r;
    assert v == q * (2 * p) + (2 * r + v % 2);
    Remainder(v, 2 * p, q, 2 * r + v % 2);
  }

  /** Keeping the `n` low bits, as storing a word in `n` bits does. */
  lemma {:induction false} BitOfRemainder(v: nat, n: nat, k: nat)
    ensures Bit(v % Pow2(n), k) == (k < n && Bit(v, k))
    decreases n
  {
    if n == 0 {
      BitOfZero(k);
    } else {
      var p := Pow2(n - 1);
      RemainderOfEven(v, p);
      if k > 0 {
        BitOfRemainder(v / 2, n - 1, k - 1);
        EvenPart(v / 2 % p, v % 2);
      }
    }
  }

  lemma BitOfU8(v: nat, k: nat)
    ensures Bit(U8(v), k) == (k < 8 && Bit(v, k))
  {
    PowEight();
    BitOfRemainder(v, 8, k);
  }

  /** `(1 << n) - 1` */
  function Mask(n: nat): nat {
    Pow2(n) - 1
  }

  lemma {:induction false} BitOfAnd(a: nat, b: nat, k: nat)
    ensures Bit(And(a, b), k) == (Bit(a, k) && Bit(b, k))
    decreases k
  {
    if a == 0 || b == 0 {
      BitOfZero(k);
    } else if k > 0 {
      BitOfAnd(a / 2, b / 2, k - 1);
    }
  }

  lemma {:induction false} BitOfOr(a: nat, b: nat, k: nat)
    ensures Bit(Or(a, b), k) == (Bit(a, k) || Bit(b, k))
    decreases k
  {
    if a == 0 && b == 0 {
      BitOfZero(k);
    } else if k > 0 {
      BitOfOr(a / 2, b / 2, k - 1);
    }
  }

  lemma {:induction false} BitOfMask(n: nat, k: nat)
    ensures Bit(Mask(n), k) == (k < n)
  {
    if n == 0 {
      BitOfZero(k);
    } else if k > 0 {
      BitOfMask(n - 1, k - 1);
    }
  }

  lemma {:induction false} BitOfShiftLeft(v: nat, n: nat, k: nat)
    ensures Bit(ShiftLeft(v, n), k) == (k >= n && Bit(v, k - n))
  {
    if n > 0 && k > 0 {
      BitOfShiftLeft(v, n - 1, k - 1);
    }
  }

  lemma FieldBit(use: nat, off: nat, k: nat)
    ensures Bit(ShiftLeft(Mask(use), off), k) == (off <= k < off + use)
  {
    BitOfShiftLeft(Mask(use), off, k);
    if k >= off {
      BitOfMask(use, k - off);
    }
  }

  lemma {:induction false} BitOfShiftRight(v: nat, n: nat, k: nat)
    ensures Bit(ShiftRight(v, n), k) == Bit(v, k + n)
    decreases n
  {
    if n > 0 {
      BitOfShiftRight(v / 2, n - 1, k);
    }
  }

  lemma {:induction false} NotBit(v: nat, n: nat, k: nat)
    requires v < Pow2(n) && k < n
    ensures Bit(Pow2(n) - 1 - v, k) == !Bit(v, k)
    decreases n
  {
    if k > 0 {
      NotBit(v / 2, n - 1, k - 1);
      assert (Pow2(n) - 1 - v) / 2 == Pow2(n - 1) - 1 - v / 2;
    }
  }

  lemma BitOfNot8(v: byte, k: nat)
    requires k < 8
    ensures Bit(Not8(v), k) == !Bit(v, k)
  {
    NotBit(v, 8, k);
    PowEight();
  }

  lemma {:induction false} LowBit(v: nat, n: nat, i: nat)
    requires i < n
    ensures LowBits(v, n)[i] == Bit(v, n - 1 - i)
    decreases n
  {
    if i < n - 1 {
      LowBit(v / 2, n - 1, i);
    }
  }

  /** Shift the bits `b` into the low end of `accum`, one at a time. */
  function ShiftIn(accum: nat, b: bits): nat
    decreases |b|
  {
    if |b| == 0 then accum else 2 * ShiftIn(accum, b[..|b| - 1]) + (if b[|b| - 1] then 1 else 0)
  }

  lemma {:induction false} ShiftInValue(accum: nat, b: bits)
    ensures ShiftIn(accum, b) == accum * Pow2(|b|) + Value(b)
    decreases |b|
  {
    if |b| > 0 {
      ShiftInValue(accum, b[..|b| - 1]);
    }
  }

  lemma {:induction false} ShiftInAppend(accum: nat, a: bits, b: bits)
    ensures ShiftIn(accum, a + b) == ShiftIn(ShiftIn(accum, a), b)
    decreases |b|
  {
    if |b| == 0 {
      assert a + b == a;
    } else {
      assert (a + b)[..|a + b| - 1] == a + b[..|b| - 1];
      ShiftInAppend(accum, a, b[..|b| - 1]);
    }
  }
}
