/** Sixteen bit temperatures in 1/16 degree, as stored in the packets of a little-endian host. */
module Temperature {
  import opened Bits

  type int16 = x: int | -0x8000 <= x < 0x8000

  /** Conversion of an `int` to `int16_t`. */
  function Wrap16(x: int): int16 {
    (x + 0x8000) % 0x1_0000 - 0x8000
  }

  /** Conversion of a `double` to an integer type: toward zero. */
  function Trunc(r: real): int {
    if r >= 0.0 then r.Floor else -(-r).Floor
  }

  /** Integer division of C++: toward zero. */
  function Quotient(a: int, b: int): int
    requires b > 0
  {
    if a >= 0 then a / b else -(-a / b)
  }

  /** The two bytes of an `int16_t`, low byte first. */
  function StoreInt16(x: int16): (s: seq<byte>)
    ensures |s| == 2
  {
    [x % 256, x / 256 % 256]
  }

  function LoadInt16(lo: byte, hi: byte): int16 {
    Wrap16(lo + 256 * hi)
  }

  /** `HTON2`, `NTOH2`: swap the bytes of the low sixteen bits. */
  function Hton2(x: int): int16 {
    LoadInt16(x / 256 % 256, x % 256)
  }

  lemma LoadStore(x: int16)
    ensures LoadInt16(StoreInt16(x)[0], StoreInt16(x)[1]) == x
  {
  }

  lemma LoadedBytes(lo: byte, hi: byte)
    ensures LoadInt16(lo, hi) % 256 == lo && LoadInt16(lo, hi) / 256 % 256 == hi
  {
  }

  lemma WrapBytes(x: int)
    ensures Wrap16(x) == LoadInt16(x % 256, x / 256 % 256)
  {
  }


  /** Stored low byte first, the swapped value has its high byte first. */
  lemma HighByteFirst(x: int)
    ensures StoreInt16(Hton2(x)) == [x / 256 % 256, x % 256]
  {
    LoadedBytes(x / 256 % 256, x % 256);
  }

  lemma Hton2Twice(x: int)
    ensures Hton2(Hton2(x)) == Wrap16(x)
    ensures StoreInt16(Hton2(x)) == [x / 256 % 256, x % 256]
  {
    LoadedBytes(x / 256 % 256, x % 256);
    WrapBytes(x);
    HighByteFirst(x);
  }

  lemma HighByteRead(t: int16, hi: byte, lo: byte)
    requires StoreInt16(t) == [hi, lo]
    ensures Hton2(t) == LoadInt16(lo, hi)
  {
    assert StoreInt16(t)[0] == hi && StoreInt16(t)[1] == lo;
  }

  // --------------------------------------------------- conversion of degrees

  /** The value stored for `t` degrees. */
  function Quantised(t: real): int16 {
    Wrap16(Trunc(16.0 * t))
  }

  /** `(int16_t) t` is defined. */
  predicate Castable(t: real) {
    -32769.0 < t < 32768.0
  }

  /** That is so exactly if the whole degrees, toward zero, fit into sixteen bits. */
  lemma CastableWhole(t: real)
    ensures Castable(t) <==> -0x8000 <= Trunc(t) < 0x8000
  {
  }

  /** `v | nibble` on an `int16_t` and four bits. */
  function OrNibble(v: int16, nibble: nat): int16
    requires nibble < 16
  {
    Wrap16(v - v % 16 + Or(v % 16, nibble))
  }

  lemma {:induction false} ZeroOr(a: nat)
    ensures Or(0, a) == a
  {
    if a > 0 {
      ZeroOr(a / 2);
    }
  }

  lemma OrNibbleAdds(v: int16, nibble: nat)
    requires v % 16 == 0 && nibble < 16
    ensures OrNibble(v, nibble) == v + nibble
  {
    ZeroOr(nibble);
  }

  lemma WrapMultiple(w: int, m: int)
    requires 0 <= m < 16
    ensures Wrap16(16 * w) % 16 == 0 && Wrap16(16 * w + m) == Wrap16(16 * w) + m
  {
    var k, r := (w + 2048) / 4096, (w + 2048) % 4096;
    assert 16 * w + 0x8000 == 0x1_0000 * k + 16 * r;
    assert (16 * w + 0x8000) / 0x1_0000 == k && (16 * w + m + 0x8000) / 0x1_0000 == k;
  }

  lemma WrapTwice(x: int, y: int)
    ensures Wrap16(Wrap16(x) + y) == Wrap16(x + y)
  {
  }

  lemma StoredValue(whole: int, part: int, v: int16)
    requires (0 <= part < 16 && v == Wrap16(whole * 16)) || (-16 < part < 0 && v == Wrap16(Wrap16(whole * 16) - 16))
    ensures OrNibble(v, part % 16) == Wrap16(16 * whole + part)
  {
    hide OrNibble, Wrap16;
    var w := if part < 0 then whole - 1 else whole;
    WrapTwice(16 * whole, -16);
    assert v == Wrap16(16 * w) && part == 16 * (w - whole) + part % 16;
    WrapMultiple(w, part % 16);
    OrNibbleAdds(v, part % 16);
  }

  lemma FloorShift(r: real, k: int)
    ensures (k as real + r).Floor == k + r.Floor
  {
  }

  lemma TruncSplit(t: real)
    ensures var frac := t - Trunc(t) as real;
            && Trunc(16.0 * t) == 16 * Trunc(t) + Trunc(frac * 16.0)
            && (t >= 0.0 ==> 0 <= Trunc(frac * 16.0) < 16)
            && (t < 0.0 ==> -16 < Trunc(frac * 16.0) <= 0)
  {
    var frac := t - Trunc(t) as real;
    if t >= 0.0 {
      assert 16.0 * t == (16 * Trunc(t)) as real + frac * 16.0;
      FloorShift(frac * 16.0, 16 * Trunc(t));
    } else {
      assert -(16.0 * t) == (-16 * Trunc(t)) as real + -frac * 16.0;
      FloorShift(-frac * 16.0, -16 * Trunc(t));
    }
  }

  lemma BytesOfWrapped(x: int)
    ensures Wrap16(x) / 256 % 256 == x / 256 % 256 && Wrap16(x) % 256 == x % 256
  {
    WrapBytes(x);
    LoadedBytes(x % 256, x / 256 % 256);
  }

  /** The bytes stored for a temperature are its sixteenths of a degree, high byte first. */
  lemma StoredHighFirst(t: real)
    ensures var v := Trunc(16.0 * t);
            StoreInt16(Hton2(Quantised(t))) == [v / 256 % 256, v % 256]
  {
    hide Hton2, Trunc, StoreInt16, Wrap16;
    HighByteFirst(Quantised(t));
    BytesOfWrapped(Trunc(16.0 * t));
  }

  method DoubleToTemperature(value: real) returns (t: int16)
    requires Castable(value)
    ensures t == Hton2(Quantised(value))
    ensures var v := Trunc(16.0 * value); StoreInt16(t) == [v / 256 % 256, v % 256]
  {
    hide StoreInt16, OrNibble, Hton2, Or, Trunc, Wrap16;
    var v: int := Wrap16(Trunc(value) * 16);
    var frac := value - Trunc(value) as real;
    if value < 0.0 && Trunc(frac * 16.0) != 0 {
      v := Wrap16(v - 16);
    }
    TruncSplit(value);
    StoredValue(Trunc(value), Trunc(frac * 16.0), v);
    v := OrNibble(v, Trunc(frac * 16.0) % 16);
    t := Hton2(v);
    StoredHighFirst(value);
  }

  lemma DivideBy16(v: int)
    ensures v >= 0 ==> 16 * Quotient(v, 16) + v % 16 == v
    ensures v < 0 ==> 16 * Quotient(v, 16) - ((-v - 1) % 16 + 1) % 16 == v
  {
  }

  method TemperatureToDouble(t: int16) returns (r: real)
    ensures r == Hton2(t) as real / 16.0
    ensures r == LoadInt16(StoreInt16(t)[1], StoreInt16(t)[0]) as real / 16.0
  {
    hide Quotient, Hton2, StoreInt16, LoadInt16;
    HighByteRead(t, StoreInt16(t)[0], StoreInt16(t)[1]);
    var v: int := Hton2(t);
    DivideBy16(v);
    r := Quotient(v, 16) as real;
    if v >= 0 {
      r := r + 0.0625 * (v % 16) as real;
    } else {
      r := r - 0.0625 * (((-v - 1) % 16 + 1) % 16) as real;
    }
  }

  /** Storing a decoded value gives the value back. */
  lemma DecodeEncode(v: int16)
    ensures Quantised(v as real / 16.0) == v
  {
    assert 16.0 * (v as real / 16.0) == v as real;
  }

  /**
   Storing loses less than 1/16 degree exactly for temperatures in the range of the format, and what is stored lies
   between zero and the temperature.
   */
  lemma QuantisationError(t: real)
    ensures -2048.0625 < t < 2048.0
            <==> -0.0625 < Quantised(t) as real / 16.0 - t < 0.0625
    ensures 0.0 <= t < 2048.0 ==> 0.0 <= Quantised(t) as real / 16.0 <= t
    ensures -2048.0625 < t <= 0.0 ==> t <= Quantised(t) as real / 16.0 <= 0.0
  {
  }
}
