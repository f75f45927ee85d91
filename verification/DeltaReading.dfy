/** When plain delta packets give back the stored temperatures, and what they give back otherwise. */
module DeltaReading {
  import opened Wrappers
  import opened Bits
  import opened Temperature
  import opened Packets
  import opened BaseBuilder
  import opened DeltaWidth
  import opened DeltaBuilder
  import opened HuffmanBuilder
  import opened Readings
  import opened Assembly
  import opened BaseReading
  import opened NarrowReading

  // ------------------------------------------------------------ one sample

  lemma Hton2OfWrapped(x: int)
    ensures Hton2(Wrap16(x)) == Hton2(x)
  {
    WrapBytes(x);
    LoadedBytes(x % 256, x / 256 % 256);
  }

  lemma SwapTwice(x: int16)
    ensures Hton2(Hton2(x)) == x
  {
    hide Hton2;
    Hton2Twice(x);
  }

  lemma SampleArithmetic(q: int16, b: int16, dataBytes: Width)
    ensures Wrap16(b + SampleValue(Wrap16(q - b), dataBytes)) == q
            <==> dataBytes == 2 || -128 <= Wrap16(q - b) < 128
  {
    var d: int := Wrap16(q - b);
    var v := SampleValue(d, dataBytes);
    assert dataBytes == 1 ==> -128 <= v < 128 && (v == d <==> -128 <= d < 128);
    assert q - b == d || q - b == d + 0x1_0000 || q - b == d - 0x1_0000;
    if v != d {
      assert -0x1_0000 < v - d < 0x1_0000;
    }
  }

  /**
   Whatever involution on sixteen bits converts the byte order, the identity included: base value plus sample
   gives the stored temperature exactly if two bytes are used or the delta fits into one.
   */
  lemma SampleCancels(swap: int16 -> int16, q: int16, b: int16, dataBytes: Width)
    requires forall x: int16 :: swap(swap(x)) == x
    ensures var d := Wrap16(swap(swap(q)) - swap(swap(b)));
            swap(Wrap16(swap(swap(b)) + SampleValue(d, dataBytes))) == swap(q)
            <==> dataBytes == 2 || -128 <= d < 128
  {
    hide SampleValue, Wrap16;
    SampleArithmetic(q, b, dataBytes);
    var x := Wrap16(b + SampleValue(Wrap16(q - b), dataBytes));
    assert swap(swap(x)) == x && swap(swap(q)) == q && swap(swap(b)) == b;
  }

  /** The same for the byte swap of a little-endian host, on temperatures. */
  lemma SampleIsLossless(t: real, base: real, dataBytes: Width)
    ensures Rebuilt(base, Delta(t, base), dataBytes) == Hton2(Quantised(t))
            <==> dataBytes == 2 || -128 <= Delta(t, base) < 128
  {
    hide Quantised, Hton2, SampleValue, Wrap16;
    var swap := (x: int16) => Hton2(x);
    forall x: int16
      ensures swap(swap(x)) == x
    {
      SwapTwice(x);
    }
    SampleCancels(swap, Quantised(t), Quantised(base), dataBytes);
    Hton2OfWrapped(Quantised(base) + SampleValue(Delta(t, base), dataBytes));
  }

  /** What is read for the first `count` sensors. */
  function RebuiltValues(base: seq<real>, d: seq<int16>, dataBytes: Width, count: nat): (v: Values)
    requires count <= |base| && count <= |d|
  {
    map k: byte | k < count :: Rebuilt(base[k], d[k], dataBytes)
  }

  predicate FitsOne(d: seq<int16>, count: nat)
    requires count <= |d|
  {
    forall k :: 0 <= k < count ==> -128 <= d[k] < 128
  }

  /** A delta of 256 or more counts, or every delta fits into one byte. */
  predicate Lossless(d: seq<int16>, count: nat)
    requires count <= |d|
  {
    NeedsTwo(d) || FitsOne(d, count)
  }

  lemma RebuiltIsStored(t: seq<real>, base: seq<real>, count: nat)
    requires var d := Deltas(t, base); count <= |d| && count <= 256
    ensures var d := Deltas(t, base);
            RebuiltValues(base, d, SampleBytes(d), count) == Stored(t, count) <==> Lossless(d, count)
  {
    hide Rebuilt, Quantised, Hton2, SampleBytes, Delta, NeedsTwo;
    var d := Deltas(t, base);
    WidthRule(d);
    var r, s := RebuiltValues(base, d, SampleBytes(d), count), Stored(t, count);
    forall k: byte | k < count
      ensures r[k] == s[k] <==> SampleBytes(d) == 2 || -128 <= d[k] < 128
    {
      assert d[k] == Delta(t[k], base[k]);
      SampleIsLossless(t[k], base[k], SampleBytes(d));
    }
    if !Lossless(d, count) {
      var k :| 0 <= k < count && !(-128 <= d[k] < 128);
      assert k in r && r[k] != s[k];
    } else {
      assert r.Keys == s.Keys;
      assert forall k: byte :: k in r ==> r[k] == s[k];
    }
  }

  // ------------------------------------------------------- one delta packet

  /** Samples in a packet read as the base values plus the samples. */
  lemma SamplesRead(header: seq<byte>, d: seq<int16>, ofs: nat, count: nat, tail: seq<byte>, dataBytes: Width,
                    base: seq<real>, k: byte)
    requires count > 0 ==> ofs + count <= |d|
    requires ofs <= k < ofs + count && k < |base|
    ensures Reads(header + Samples(d, ofs, count, dataBytes) + tail, |header|, dataBytes, Stored(base, |base|),
                  ofs, k, Rebuilt(base[k], d[k], dataBytes))
  {
    hide Hton2, Diff, Samples, Quantised, SampleValue;
    var data := Samples(d, ofs, count, dataBytes);
    TimesMonotone(k - ofs + 1, count, dataBytes);
    DiffAfterHeader(header, data, tail, dataBytes, k - ofs);
    SampleAt(d, ofs, count, dataBytes, k - ofs);
    Hton2OfStored(base[k]);
  }

  /** A packet with the samples of the sensors from `ofs` on contributes what is rebuilt for them. */
  lemma ChunkContributes(header: seq<byte>, d: seq<int16>, ofs: nat, count: nat, tail: seq<byte>, dataBytes: Width,
                         base: seq<real>, full: Values, end: nat, m: Values)
    requires (count > 0 ==> ofs + count <= |d|) && |base| <= 256
    requires ofs <= end && Times(end - ofs, dataBytes) <= Times(count, dataBytes) + |tail|
    requires ofs < Least(end, |base|) ==> Least(end, |base|) <= ofs + count
    requires Range(ofs, Least(end, |base|)) <= full.Keys
    requires forall k :: k in Range(ofs, Least(end, |base|)) && k < |d| ==> full[k] == Rebuilt(base[k], d[k], dataBytes)
    ensures var p := header + Samples(d, ofs, count, dataBytes) + tail;
            DiffLoop(p, |header|, dataBytes, Stored(base, |base|), m, ofs, end, 0)
            == m + Pick(full, Range(ofs, Least(end, |base|)))
  {
    hide Hton2, Samples, Quantised, Rebuilt, DiffLoop, Pick, Reads, Times;
    var p := header + Samples(d, ofs, count, dataBytes) + tail;
    var range := Range(ofs, Least(end, |base|));
    forall k | k in range
      ensures Reads(p, |header|, dataBytes, Stored(base, |base|), ofs, k, full[k])
    {
      SamplesRead(header, d, ofs, count, tail, dataBytes, base, k);
    }
    DiffLoopReads(p, |header|, dataBytes, Stored(base, |base|), |base|, full, m, ofs, ofs, end);
  }

  // ---------------------------------------------------- the packets of `build`

  /** The number of sensors that are read from the delta packets when the base has `b` of them. */
  function ReadLength(d: seq<int16>, b: nat): (n: nat)
    requires |d| <= b
    ensures n <= b
  {
    var dataBytes := SampleBytes(d);
    if |d| < Over(6, dataBytes) then Least(Over(|d| * SampleBits(d), dataBytes), b) else |d|
  }

  /**
   The first packet is cut where its samples end, or the base ends there: there are no deltas or enough to fill it,
   or the largest that counts is 1, so that there are as many bits as bytes, or it is larger and the base has no
   further sensors.
   */
  predicate CutRight(d: seq<int16>, b: nat) {
    || d == []
    || |d| >= Over(6, SampleBytes(d))
    || (!CountsUpTo(d, 0) && (CountsUpTo(d, 1) || b == |d|))
  }

  /** From two bits on there are more bits than bytes. */
  lemma ManyBits(n: nat, bits: nat)
    requires bits >= 2 && n > 0
    ensures Over(n * bits, BytesForBits(bits)) > n
  {
    assert n * bits >= n * 2;
    if bits > 8 {
      assert n * bits >= n * 9;
    }
  }

  /** As many sensors are read as there are deltas exactly if the cut is right, fewer if no delta but 0 counts. */
  lemma ReadLengthIs(d: seq<int16>, b: nat)
    requires |d| <= b
    ensures ReadLength(d, b) == |d| <==> CutRight(d, b)
    ensures ReadLength(d, b) < |d| <==> 0 < |d| < 6 && CountsUpTo(d, 0)
  {
    var n, bits, dataBytes := |d|, SampleBits(d), SampleBytes(d);
    FewBits(d);
    hide SampleBits, CountsUpTo;
    if 0 < n < Over(6, dataBytes) {
      if bits >= 2 {
        ManyBits(n, bits);
      } else {
        assert n * bits == if bits == 0 then 0 else n;
      }
    }
  }

  /** The sensors of the first delta packet. */
  function FirstRead(d: seq<int16>, b: nat): nat
    requires |d| <= b
  {
    if |d| < Over(6, SampleBytes(d)) then ReadLength(d, b) else Over(6, SampleBytes(d))
  }

  /** The sensors that delta packet `i` (0 for the first) reports. */
  function DeltaSensors(d: seq<int16>, b: nat, i: nat): (s: set<byte>)
    requires |d| <= b
  {
    var dataBytes := SampleBytes(d);
    if i == 0 then Range(0, FirstRead(d, b))
    else
      var ofs := DeltaOffset(dataBytes, i - 1);
      Range(ofs, ofs + Span(|d|, ofs, Over(20, dataBytes)))
  }

  lemma FirstHeaderFields(m: Measurements, typ: byte, bits: nat, rest: seq<byte>)
    requires bits < 16 && IsFirst(typ)
    ensures var p := FirstHeader(m, typ, bits) + rest;
            && PacketType(p) == typ && HasFirstHeader(p) && DataBits(p) == bits
            && PacketsField(p) == PacketCount(|m.temperature|, typ, bits)
  {
  }

  lemma SecondHeaderFields(m: Measurements, typ: byte, number: byte, rest: seq<byte>)
    requires IsSecond(typ)
    ensures var p := SecondHeader(m, typ, number) + rest;
            PacketType(p) == typ && MeasuredType(p) == typ && HasSecondHeader(p) && PacketNumber(p) == number
  {
  }

  lemma NoSamples(d: seq<int16>, dataBytes: Width)
    ensures Samples(d, 0, 0, dataBytes) == []
  {
  }

  /** Bits are never fewer than bytes. */
  lemma EnoughBits(f: nat, bits: nat)
    requires bits > 0
    ensures f * bits >= Times(f, BytesForBits(bits))
  {
    assert f * bits >= f;
    if bits > 8 {
      assert f * bits >= f * 2;
    }
  }

  lemma DeltaFirstParts(m: Measurements, d: seq<int16>) returns (count: nat, tail: seq<byte>, end: nat)
    ensures count <= |d| && tail == ZeroBytes(|tail|)
    ensures DeltaFirst(m, d) == FirstHeader(m, DELTA_1, SampleBits(d)) + DiffHeader(m)
                                + Samples(d, 0, count, SampleBytes(d)) + tail
    ensures |DeltaFirst(m, d)| >= FIRST_HDR + HDR_DIFF
    ensures end == Over(|DeltaFirst(m, d)| - FIRST_HDR - HDR_DIFF, SampleBytes(d)) && count <= end
    ensures if |d| < Over(6, SampleBytes(d)) then
              end == Over(|d| * SampleBits(d), SampleBytes(d)) && (end > 0 ==> count == |d|)
            else end == count == Over(6, SampleBytes(d))
  {
    hide FirstHeader, DiffHeader, Samples, SampleBits;
    var bits, dataBytes := SampleBits(d), SampleBytes(d);
    var f := FirstCount(|d|, dataBytes);
    var h := FirstHeader(m, DELTA_1, bits) + DiffHeader(m);
    var data := Samples(d, 0, f, dataBytes);
    var p := DeltaFirst(m, d);
    count := f;
    end := Over(|p| - FIRST_HDR - HDR_DIFF, dataBytes);
    if Over(6, dataBytes) <= |d| {
      tail := ZeroBytes(6 - Times(f, dataBytes));
    } else if bits == 0 {
      count, tail := 0, [];
      assert p == h;
      NoSamples(d, dataBytes);
    } else {
      assert f * bits >= Times(f, dataBytes) by { EnoughBits(f, bits); }
      tail := p[18 + Times(f, dataBytes)..];
      assert DeltaFirstFull(m, d)[..18 + Times(f, dataBytes)] == h + data;
      assert p == h + data + tail;
    }
  }

  /** Zeros after the samples are samples of sensors with a base only. */
  lemma ZerosAreSamples(d: seq<int16>, b: nat, count: nat, tail: seq<byte>, dataBytes: Width, n: nat)
    requires count <= |d| <= b && n <= b && tail == ZeroBytes(|tail|)
    requires count == |d| || n <= count
    requires Times(n, dataBytes) <= Times(count, dataBytes) + |tail|
    ensures var size := if n <= count then count else n;
            Samples(d, 0, count, dataBytes) + tail
            == Samples(Padded(d, b), 0, size, dataBytes)
               + ZeroBytes(Times(count, dataBytes) + |tail| - Times(size, dataBytes))
  {
    hide Samples, Times;
    TimesMonotone(count, n, dataBytes);
    if n <= count {
      SamplesOfPadded(d, b, 0, count, dataBytes);
      assert ZeroBytes(0) == [];
    } else {
      SamplesOfPadded(d, b, 0, n, dataBytes);
      var a := Times(n, dataBytes) - Times(count, dataBytes);
      assert tail == ZeroBytes(a) + ZeroBytes(|tail| - a);
    }
  }

  lemma FirstLimit(d: seq<int16>, b: nat, count: nat, end: nat)
    requires |d| <= b && count <= |d| && count <= end
    requires if |d| < Over(6, SampleBytes(d)) then
              end == Over(|d| * SampleBits(d), SampleBytes(d)) && (end > 0 ==> count == |d|)
             else end == count == Over(6, SampleBytes(d))
    ensures FirstRead(d, b) == Least(end, b) && FirstRead(d, b) <= ReadLength(d, b)
    ensures FirstRead(d, b) <= end && (count == |d| || FirstRead(d, b) <= count)
  {
    hide SampleBits;
  }

  lemma TimesOver(size: nat, dataBytes: Width)
    ensures Times(Over(size, dataBytes), dataBytes) <= size
  {
  }

  lemma SameRest(h: seq<byte>, a: seq<byte>, b: seq<byte>, c: seq<byte>, e: seq<byte>)
    requires a + b == c + e
    ensures h + a + b == h + c + e
  {
    assert h + a + b == h + (a + b);
  }

  /** The first packet with the samples of all sensors that are read from it. */
  lemma DeltaFirstShape(m: Measurements, d: seq<int16>, b: nat, h: seq<byte>, p: seq<byte>, dataBytes: Width)
    returns (size: nat, zeros: seq<byte>, end: nat)
    requires |d| <= b && dataBytes == SampleBytes(d)
    requires p == DeltaFirst(m, d) && h == FirstHeader(m, DELTA_1, SampleBits(d)) + DiffHeader(m)
    ensures size <= b && p == h + Samples(Padded(d, b), 0, size, dataBytes) + zeros
    ensures |p| >= FIRST_HDR + HDR_DIFF && end == Over(|p| - FIRST_HDR - HDR_DIFF, dataBytes)
    ensures FirstRead(d, b) == Least(end, b) <= size && FirstRead(d, b) <= ReadLength(d, b)
  {
    var count, tail;
    count, tail, end := DeltaFirstParts(m, d);
    FirstLimit(d, b, count, end);
    hide *;
    var limit := FirstRead(d, b);
    var data := Samples(d, 0, count, dataBytes);
    assert |p| == FIRST_HDR + HDR_DIFF + Times(count, dataBytes) + |tail|;
    TimesOver(|p| - FIRST_HDR - HDR_DIFF, dataBytes);
    TimesMonotone(limit, end, dataBytes);
    ZerosAreSamples(d, b, count, tail, dataBytes, limit);
    size := if limit <= count then count else limit;
    zeros := ZeroBytes(Times(count, dataBytes) + |tail| - Times(size, dataBytes));
    SameRest(h, data, tail, Samples(Padded(d, b), 0, size, dataBytes), zeros);
  }

  lemma FirstContributes(items: seq<Item>, base: seq<real>, d: seq<int16>, dataBytes: Width, p: seq<byte>, h: seq<byte>,
                         count: nat, tail: seq<byte>, full: Values, end: nat, limit: nat)
    requires AllReadable(items) && PacketType(p) == DELTA_1 && BytesForBits(CollectedBits(items)) == dataBytes
    requires |base| <= 256 && count <= |d| && limit == Least(end, |base|) <= count
    requires |h| == FIRST_HDR + HDR_DIFF && p == h + Samples(d, 0, count, dataBytes) + tail
    requires end == Over(|p| - FIRST_HDR - HDR_DIFF, dataBytes)
    requires Range(0, limit) <= full.Keys
    requires forall k :: k in Range(0, limit) ==> full[k] == Rebuilt(base[k], d[k], dataBytes)
    ensures Readable(p)
    ensures Contributes(items, Some(Stored(base, |base|)), p, full, Range(0, limit))
  {
    hide Samples, DiffLoop, Stored, Rebuilt, Pick, Over, Times, ItemGet, ByDiff, CollectedBits, Readable, PacketType;
    GetDelta1(items, Some(Stored(base, |base|)), p, map[]);
    forall v: Values
      ensures ItemGet(items, Some(Stored(base, |base|)), p, v).0 == v + Pick(full, Range(0, limit))
    {
      GetDelta1(items, Some(Stored(base, |base|)), p, v);
      FirstByDiff(p, dataBytes, Stored(base, |base|), v, end);
      ChunkContributes(h, d, 0, count, tail, dataBytes, base, full, end, v);
    }
  }

  lemma RebuiltKeys(base: seq<real>, d: seq<int16>, dataBytes: Width, count: nat, from: nat, to: nat)
    requires count <= |base| && count <= |d| && to <= count
    ensures var full := RebuiltValues(base, d, dataBytes, count);
            Range(from, to) <= full.Keys
            && forall k :: k in Range(from, to) ==> full[k] == Rebuilt(base[k], d[k], dataBytes)
  {
  }

  lemma DeltaFirstContributes(m: Measurements, base: seq<real>, d: seq<int16>, items: seq<Item>, full: Values)
    requires |d| <= |base| <= 256 && AllReadable(items)
    requires BytesForBits(CollectedBits(items)) == SampleBytes(d)
    requires full == RebuiltValues(base, Padded(d, |base|), SampleBytes(d), ReadLength(d, |base|))
    ensures Readable(DeltaFirst(m, d))
    ensures Contributes(items, Some(Stored(base, |base|)), DeltaFirst(m, d), full, DeltaSensors(d, |base|, 0))
  {
    hide FirstHeader, DiffHeader, Samples, SampleBytes, SampleBits, DeltaFirst, Rebuilt, Contributes, CollectedBits;
    hide Readable, Padded, RebuiltValues, ReadLength, FirstRead, Range, PacketType, HasFirstHeader, Over;
    var dataBytes, padded, p := SampleBytes(d), Padded(d, |base|), DeltaFirst(m, d);
    var h0 := FirstHeader(m, DELTA_1, SampleBits(d));
    var h := h0 + DiffHeader(m);
    var size, zeros, end := DeltaFirstShape(m, d, |base|, h, p, dataBytes);
    assert p == h0 + (DiffHeader(m) + Samples(padded, 0, size, dataBytes) + zeros);
    FirstHeaderFields(m, DELTA_1, SampleBits(d), DiffHeader(m) + Samples(padded, 0, size, dataBytes) + zeros);
    var limit := FirstRead(d, |base|);
    RebuiltKeys(base, padded, dataBytes, ReadLength(d, |base|), 0, limit);
    FirstContributes(items, base, padded, dataBytes, p, h, size, zeros, full, end, limit);
  }

  lemma LongIsRead(d: seq<int16>, b: nat)
    requires SecondPackets(|d|, SampleBytes(d)) > 0 && |d| <= b
    ensures ReadLength(d, b) == |d|
  {
    hide SampleBits;
  }

  /**
   Reading the packet `p` reads the samples after the header in `plain`, the packet itself or what it
   decompresses to, for the sensors from `ofs` up to `end`.
   */
  ghost predicate IsRead(items: seq<Item>, baseT: Values, p: seq<byte>, plain: seq<byte>, header: nat,
                         dataBytes: Width, ofs: nat, end: nat)
    requires AllReadable(items) && Readable(p)
    requires ofs <= end && |plain| == header + Times(end - ofs, dataBytes)
  {
    forall v: Values :: ItemGet(items, Some(baseT), p, v).0
                        == DiffLoop(plain, header, dataBytes, baseT, v, ofs, end, 0)
  }

  /** The receiver finds the place of a later packet's samples from its number. */
  lemma DeltaSecondIsRead(items: seq<Item>, baseT: Values, dataBytes: Width, i: nat, ofs: nat, count: nat, p: seq<byte>)
    requires AllReadable(items) && BytesForBits(CollectedBits(items)) == dataBytes
    requires PacketType(p) == DELTA_2 && |p| == SECOND_HDR + Times(count, dataBytes) && PacketNumber(p) == i + 2
    requires ofs == DeltaOffset(dataBytes, i) < 256 && count < 256
    ensures Readable(p)
    ensures IsRead(items, baseT, p, p, SECOND_HDR, dataBytes, ofs, ofs + count)
  {
    hide DiffLoop, CollectedBits, ItemGet, ByDiff, PacketType, PacketNumber, Times;
    assert Quotient(6 + i * 20, dataBytes) == ofs;
    forall v: Values
      ensures ItemGet(items, Some(baseT), p, v).0 == DiffLoop(p, SECOND_HDR, dataBytes, baseT, v, ofs, ofs + count, 0)
    {
      GetDelta2(items, Some(baseT), p, v);
      LaterByDiff(p, 6 + i * 20, dataBytes, baseT, v, ofs, count);
    }
  }

  lemma ReadContributes(items: seq<Item>, base: seq<real>, d: seq<int16>, dataBytes: Width, ofs: nat, count: nat,
                        h: seq<byte>, p: seq<byte>, plain: seq<byte>, full: Values)
    requires |base| <= 256 && ofs + count <= |d| && AllReadable(items) && Readable(p)
    requires plain == h + Samples(d, ofs, count, dataBytes)
    requires Range(ofs, Least(ofs + count, |base|)) <= full.Keys
    requires forall k :: k in Range(ofs, Least(ofs + count, |base|)) ==> full[k] == Rebuilt(base[k], d[k], dataBytes)
    requires IsRead(items, Stored(base, |base|), p, plain, |h|, dataBytes, ofs, ofs + count)
    ensures Contributes(items, Some(Stored(base, |base|)), p, full, Range(ofs, Least(ofs + count, |base|)))
  {
    hide DiffLoop, ItemGet, Samples, Stored, Rebuilt, Pick, Range, Readable, Times;
    assert plain == h + Samples(d, ofs, count, dataBytes) + [];
    var range := Range(ofs, Least(ofs + count, |base|));
    forall v: Values
      ensures ItemGet(items, Some(Stored(base, |base|)), p, v).0 == v + Pick(full, range)
    {
      ChunkContributes(h, d, ofs, count, [], dataBytes, base, full, ofs + count, v);
    }
  }

  /** The later delta packets start within the samples, and none is left after the last. */
  lemma DeltaPacketPlaces(n: nat, dataBytes: Width, i: nat)
    requires n <= 256
    ensures i < SecondPackets(n, dataBytes) <==> DeltaOffset(dataBytes, i) < n
    ensures SecondPackets(n, dataBytes) <= 26
    ensures DeltaOffset(dataBytes, i) == if dataBytes == 1 then 6 + 20 * i else 3 + 10 * i
  {
  }

  lemma DeltaSecondParts(m: Measurements, d: seq<int16>, i: nat, dataBytes: Width, ofs: nat, count: nat,
                         h: seq<byte>, p: seq<byte>)
    requires |d| <= 256 && dataBytes == SampleBytes(d) && i < SecondPackets(|d|, dataBytes)
    requires ofs == DeltaOffset(dataBytes, i) && count == Span(|d|, ofs, Over(20, dataBytes))
    requires p == DeltaSecond(m, d, i) && h == SecondHeader(m, DELTA_2, (i + 2) % 256)
    ensures ofs + count <= |d| && ofs < 256 && count <= 20
    ensures p == h + Samples(d, ofs, count, dataBytes)
    ensures PacketType(p) == DELTA_2 && |p| == SECOND_HDR + Times(count, dataBytes) && PacketNumber(p) == i + 2
    ensures Readable(p)
  {
    DeltaPacketPlaces(|d|, dataBytes, i);
    hide SampleBytes, Samples, Times, SecondHeader, SecondPackets;
    SecondHeaderFields(m, DELTA_2, (i + 2) % 256, Samples(d, ofs, count, dataBytes));
  }

  lemma DeltaSecondContributes(m: Measurements, base: seq<real>, d: seq<int16>, i: nat, items: seq<Item>, full: Values,
                               dataBytes: Width, ofs: nat, count: nat, p: seq<byte>)
    requires |d| <= |base| <= 256 && AllReadable(items) && BytesForBits(CollectedBits(items)) == dataBytes
    requires dataBytes == SampleBytes(d) && i < SecondPackets(|d|, dataBytes)
    requires ofs == DeltaOffset(dataBytes, i) && count == Span(|d|, ofs, Over(20, dataBytes))
    requires p == DeltaSecond(m, d, i) && full == RebuiltValues(base, d, dataBytes, |d|)
    ensures Readable(p) && Range(ofs, ofs + count) <= full.Keys
    ensures Contributes(items, Some(Stored(base, |base|)), p, full, Range(ofs, ofs + count))
  {
    hide *;
    var h := SecondHeader(m, DELTA_2, (i + 2) % 256);
    DeltaSecondParts(m, d, i, dataBytes, ofs, count, h, p);
    LeastBounds(ofs + count, |base|);
    RebuiltKeys(base, d, dataBytes, |d|, ofs, ofs + count);
    DeltaSecondIsRead(items, Stored(base, |base|), dataBytes, i, ofs, count, p);
    ReadContributes(items, base, d, dataBytes, ofs, count, h, p, p, full);
  }

  lemma LaterSensors(d: seq<int16>, b: nat, i: nat)
    requires |d| <= b
    ensures var ofs := DeltaOffset(SampleBytes(d), i);
            DeltaSensors(d, b, i + 1) == Range(ofs, ofs + Span(|d|, ofs, Over(20, SampleBytes(d))))
  {
    hide SampleBytes, Range, Over, DeltaOffset;
  }

  // ------------------------------------------------------- the whole measurement

  function DeltaSensorSets(d: seq<int16>, b: nat): (s: seq<set<byte>>)
    requires |d| <= b
    ensures |s| == 1 + SecondPackets(|d|, SampleBytes(d))
    ensures forall i :: 0 <= i < |s| ==> s[i] == DeltaSensors(d, b, i)
  {
    seq(1 + SecondPackets(|d|, SampleBytes(d)), i requires i >= 0 => DeltaSensors(d, b, i))
  }

  /** Every sensor that is read is reported by a packet. */
  lemma DeltaCoverage(d: seq<int16>, b: nat, x: byte)
    requires |d| <= b <= 256 && x < ReadLength(d, b)
    ensures exists i :: 0 <= i < |DeltaSensorSets(d, b)| && x in DeltaSensorSets(d, b)[i]
  {
    hide SampleBits;
    var dataBytes := SampleBytes(d);
    if |d| < Over(6, dataBytes) || x < Over(6, dataBytes) {
      assert x in DeltaSensorSets(d, b)[0];
    } else {
      var i := (x - Over(6, dataBytes)) / Over(20, dataBytes);
      DeltaPacketPlaces(|d|, dataBytes, i);
      assert x in DeltaSensorSets(d, b)[i + 1];
    }
  }

  /** What is read with a base of any length: sensors without a delta have the delta 0. */
  function DeltaRead(base: seq<real>, d: seq<int16>): Values
    requires |d| <= |base|
  {
    RebuiltValues(base, Padded(d, |base|), SampleBytes(d), ReadLength(d, |base|))
  }

  lemma PaddingUnread(base: seq<real>, d: seq<int16>)
    requires |d| <= |base| && ReadLength(d, |base|) == |d|
    ensures DeltaRead(base, d) == RebuiltValues(base, d, SampleBytes(d), |d|)
  {
    hide SampleBytes, Rebuilt;
  }

  lemma DeltaPacketsContribute(m: Measurements, base: seq<real>, d: seq<int16>, items: seq<Item>, i: nat)
    requires |d| <= |base| <= 256 && AllReadable(items) && i < |DeltaPackets(m, d)|
    requires BytesForBits(CollectedBits(items)) == SampleBytes(d)
    ensures Readable(DeltaPackets(m, d)[i])
    ensures Contributes(items, Some(Stored(base, |base|)), DeltaPackets(m, d)[i],
                        DeltaRead(base, d), DeltaSensors(d, |base|, i))
  {
    hide Contributes, DeltaFirst, DeltaSecond, DeltaSensors, RebuiltValues, Stored, ReadLength, SampleBytes;
    hide CollectedBits, Readable, SecondPackets;
    var full := DeltaRead(base, d);
    if i == 0 {
      DeltaFirstContributes(m, base, d, items, full);
    } else {
      var dataBytes := SampleBytes(d);
      var ofs := DeltaOffset(dataBytes, i - 1);
      var count := Span(|d|, ofs, Over(20, dataBytes));
      LongIsRead(d, |base|);
      PaddingUnread(base, d);
      LaterSensors(d, |base|, i - 1);
      DeltaSecondContributes(m, base, d, i - 1, items, full, dataBytes, ofs, count, DeltaSecond(m, d, i - 1));
    }
  }

  lemma DeltaReadable(m: Measurements, d: seq<int16>, i: nat)
    requires |d| <= 256 && i < |DeltaPackets(m, d)|
    ensures Readable(DeltaPackets(m, d)[i])
  {
    if i == 0 {
      var count, tail, end := DeltaFirstParts(m, d);
    }
  }

  lemma FirstDeltaBits(m: Measurements, d: seq<int16>, p: seq<byte>)
    requires p == DeltaFirst(m, d)
    ensures IsDiff(p) && HasFirstHeader(p) && DataBits(p) == SampleBits(d)
  {
    hide SampleBits, Samples, FirstHeader;
    var count, tail, end := DeltaFirstParts(m, d);
    var rest := DiffHeader(m) + Samples(d, 0, count, SampleBytes(d)) + tail;
    assert DeltaFirst(m, d) == FirstHeader(m, DELTA_1, SampleBits(d)) + rest;
    FirstHeaderFields(m, DELTA_1, SampleBits(d), rest);
  }

  lemma LaterDeltaIsDiff(m: Measurements, d: seq<int16>, i: nat)
    ensures IsDiff(DeltaSecond(m, d, i)) && !HasFirstHeader(DeltaSecond(m, d, i))
  {
    hide Samples, SampleBits;
  }

  lemma FirstOfDelta(m: Measurements, d: seq<int16>)
    ensures DeltaPackets(m, d)[0] == DeltaFirst(m, d)
  {
  }

  /** The width that is read is the right one for two bytes only if the first packet comes first. */
  lemma DeltaBits(m: Measurements, d: seq<int16>, items: seq<Item>)
    requires items != [] && items[0].packet in DeltaPackets(m, d)
    ensures BytesForBits(CollectedBits(items))
            == if WidthKnown(items, DeltaPackets(m, d)[0], SampleBytes(d)) then SampleBytes(d) else 1
  {
    hide SampleBits, DeltaFirst, DeltaSecond, HasFirstHeader;
    var i :| 0 <= i < |DeltaPackets(m, d)| && items[0].packet == DeltaPackets(m, d)[i];
    FirstDeltaBits(m, d, DeltaFirst(m, d));
    if i > 0 {
      LaterDeltaIsDiff(m, d, i - 1);
    }
  }

  lemma DeltaAreDiff(m: Measurements, d: seq<int16>, items: seq<Item>)
    requires Holds(items, DeltaPackets(m, d))
    ensures AllDiff(items)
  {
    hide SampleBits, DeltaFirst, DeltaSecond, IsDiff;
    forall j | 0 <= j < |items|
      ensures IsDiff(items[j].packet)
    {
      assert items[j].packet in DeltaPackets(m, d);
      var i :| 0 <= i < |DeltaPackets(m, d)| && items[j].packet == DeltaPackets(m, d)[i];
      FirstDeltaBits(m, d, DeltaFirst(m, d));
      if i > 0 {
        LaterDeltaIsDiff(m, d, i - 1);
      }
    }
  }

  lemma DeltaAllReadable(m: Measurements, d: seq<int16>, items: seq<Item>)
    requires |d| <= 256 && Holds(items, DeltaPackets(m, d))
    ensures AllReadable(items)
  {
    hide DeltaPackets, Holds;
    forall i | 0 <= i < |DeltaPackets(m, d)|
      ensures Readable(DeltaPackets(m, d)[i])
    {
      DeltaReadable(m, d, i);
    }
    HeldAreReadable(items, DeltaPackets(m, d));
  }

  lemma DeltaFullCoverage(base: seq<real>, d: seq<int16>)
    requires |d| <= |base| <= 256
    ensures forall x :: x in DeltaRead(base, d)
                        ==> exists i :: 0 <= i < |DeltaSensorSets(d, |base|)| && x in DeltaSensorSets(d, |base|)[i]
  {
    hide ReadLength, DeltaSensorSets;
    forall x | x in DeltaRead(base, d)
      ensures exists i :: 0 <= i < |DeltaSensorSets(d, |base|)| && x in DeltaSensorSets(d, |base|)[i]
    {
      DeltaCoverage(d, |base|, x);
    }
  }

  /**
   What a receiver reads that has the base packets and the delta packets, in any order and with duplicates, the first
   one first if samples take two bytes: the base value plus the sample, for the sensors that are read.
   */
  lemma DeltaValues(m: Measurements, mb: Measurements, items: seq<Item>, baseItems: seq<Item>)
    requires |mb.temperature| <= 256
    requires var ps := DeltaPackets(m, Deltas(m.temperature, mb.temperature));
             Holds(items, ps) && WidthKnown(items, ps[0], SampleBytes(Deltas(m.temperature, mb.temperature)))
    requires Holds(baseItems, BasePackets(mb))
    ensures AllReadable(items) && AllReadable(baseItems)
    ensures AllValues(items, Some(baseItems)) == DeltaRead(mb.temperature, Deltas(m.temperature, mb.temperature))
  {
    hide Contributes, DeltaPackets, DeltaSensors, BasePackets, Holds, CollectionGet, Readable, AllReadable, ReadLength;
    hide Deltas, CollectedBits, BytesForBits, DeltaRead, Stored, SampleBits, WidthKnown;
    var base := mb.temperature;
    var d := Deltas(m.temperature, base);
    var ps, full := DeltaPackets(m, d), DeltaRead(base, d);
    BaseRoundTrip(mb, baseItems, None);
    DeltaAllReadable(m, d, items);
    HeldIsSome(items, ps);
    DeltaBits(m, d, items);
    forall i | 0 <= i < |ps|
      ensures Readable(ps[i]) && Contributes(items, Some(Stored(base, |base|)), ps[i], full, DeltaSensors(d, |base|, i))
    {
      DeltaPacketsContribute(m, base, d, items, i);
    }
    DeltaFullCoverage(base, d);
    AnyOrder(items, ps, Some(Stored(base, |base|)), full, DeltaSensorSets(d, |base|));
  }

  lemma OtherLength(t: seq<real>, base: seq<real>, d: seq<int16>)
    requires |d| <= |t| && |d| <= |base| <= 256 && ReadLength(d, |base|) != |d|
    ensures DeltaRead(base, d) != Stored(t, |d|)
  {
    hide ReadLength, SampleBytes, Rebuilt;
    var n := ReadLength(d, |base|);
    if n < |d| {
      assert n in Stored(t, |d|) && n !in DeltaRead(base, d);
    } else {
      assert |d| in DeltaRead(base, d) && |d| !in Stored(t, |d|);
    }
  }

  /** What is read right from one byte for each sample fits into one, and is not all if some delta needs two. */
  lemma RightFits(items: seq<Item>, t: seq<real>, base: seq<real>, count: nat)
    requires AllReadable(items) && AllDiff(items) && BytesForBits(CollectedBits(items)) == 1
    requires |base| <= 256 && count <= |Deltas(t, base)|
    requires CollectionGet(items, Some(Stored(base, |base|)), |items|, map[]) == Stored(t, count)
    ensures FitsOne(Deltas(t, base), count)
    ensures SampleBytes(Deltas(t, base)) == 2 ==> count < |Deltas(t, base)|
  {
    hide CollectionGet, SampleBytes, Stored, CollectedBits, Delta, Readable, IsDiff;
    var d := Deltas(t, base);
    WidthRule(d);
    RightMeansNarrow(items, t, base, count);
    forall k | 0 <= k < count
      ensures -128 <= d[k] < 128
    {
      assert d[k] == Delta(t[k], base[k]);
    }
    if k :| 0 <= k < |d| && IsWide(d, k) {
      assert !(-128 <= d[k] < 128);
    }
  }

  lemma ReadFromBase(items: seq<Item>, baseItems: seq<Item>, stored: Values)
    requires AllReadable(items) && AllReadable(baseItems)
    requires CollectionGet(baseItems, None, |baseItems|, map[]) == stored
    ensures AllValues(items, Some(baseItems)) == CollectionGet(items, Some(stored), |items|, map[])
  {
    hide CollectionGet;
  }

  lemma LateDeltaLoses(m: Measurements, mb: Measurements, d: seq<int16>, items: seq<Item>, baseItems: seq<Item>)
    requires |mb.temperature| <= 256 && d == Deltas(m.temperature, mb.temperature)
    requires Holds(items, DeltaPackets(m, d)) && !WidthKnown(items, DeltaPackets(m, d)[0], SampleBytes(d))
    requires Holds(baseItems, BasePackets(mb))
    ensures AllReadable(items) && AllReadable(baseItems)
    ensures AllValues(items, Some(baseItems)) != Stored(m.temperature, |d|)
  {
    HeldIsSome(items, DeltaPackets(m, d));
    var base := mb.temperature;
    assert WidthKnown(items, DeltaPackets(m, d)[0], SampleBytes(d)) || SampleBytes(d) == 2;
    hide *;
    LeastBounds(|m.temperature|, |base|);
    BaseRoundTrip(mb, baseItems, None);
    DeltaAllReadable(m, d, items);
    DeltaBits(m, d, items);
    DeltaAreDiff(m, d, items);
    ReadFromBase(items, baseItems, Stored(base, |base|));
    if AllValues(items, Some(baseItems)) == Stored(m.temperature, |d|) {
      RightFits(items, m.temperature, base, |d|);
    }
  }

  /**
   The round trip of a measurement through delta packets, in any order and with duplicates, gives back the stored
   temperatures exactly if no delta needs more than the byte it is given, the first packet is cut right, and it came
   first or samples take one byte.
   */
  lemma DeltaRoundTrip(m: Measurements, mb: Measurements, items: seq<Item>, baseItems: seq<Item>)
    requires |mb.temperature| <= 256
    requires Holds(items, DeltaPackets(m, Deltas(m.temperature, mb.temperature)))
    requires Holds(baseItems, BasePackets(mb))
    ensures AllReadable(items) && AllReadable(baseItems)
    ensures var d := Deltas(m.temperature, mb.temperature);
            AllValues(items, Some(baseItems)) == Stored(m.temperature, |d|)
            <==> Lossless(d, |d|) && CutRight(d, |mb.temperature|)
                 && WidthKnown(items, DeltaPackets(m, d)[0], SampleBytes(d))
  {
    hide Holds, DeltaPackets, BasePackets, AllValues, AllReadable, Lossless, ReadLength, DeltaRead, SampleBytes;
    hide CutRight, WidthKnown;
    var d := Deltas(m.temperature, mb.temperature);
    if !WidthKnown(items, DeltaPackets(m, d)[0], SampleBytes(d)) {
      LateDeltaLoses(m, mb, d, items, baseItems);
    } else {
      DeltaValues(m, mb, items, baseItems);
      ReadLengthIs(d, |mb.temperature|);
      if ReadLength(d, |mb.temperature|) == |d| {
        PaddingUnread(mb.temperature, d);
        RebuiltIsStored(m.temperature, mb.temperature, |d|);
      } else {
        OtherLength(m.temperature, mb.temperature, d);
      }
    }
  }

  /** Up to five sensors that are as warm as their base are cut off the packet. */
  lemma EqualTemperaturesAreLost()
    ensures Deltas([20.0], [20.0]) == [0] && ReadLength([0], 1) == 0
  {
    assert MaxDiff([]) == 0 && [0][..0] == [];
    assert MaxDiff([0]) == 0;
  }

  /** A delta of -32768 hides those before it here too: two sensors are cut off, one of them far from its base. */
  lemma ForgottenDeltaIsLost()
    ensures var d := Deltas([-2048.0, 0.0], [0.0, 0.0]);
            d == [-0x8000, 0] && ReadLength(d, 2) == 0
  {
    hide SampleBits;
    var d := Deltas([-2048.0, 0.0], [0.0, 0.0]);
    assert d == [-0x8000, 0];
    assert d[0] == -0x8000 && IsForgotten(d, 0);
    FewBits(d);
  }

  /** One delta of half a degree takes four bits, so four bytes of samples are kept, and the next base is read too. */
  lemma ExtraSensorIsRead()
    ensures Deltas([0.5], [0.0, 20.0]) == [8] && ReadLength([8], 2) == 2
  {
    assert MaxDiff([]) == 0 && [8][..0] == [];
    assert MaxDiff([8]) == 8;
  }

  /** Eight degrees above the base need nine bits with their sign, but get eight: the receiver reads eight below. */
  lemma EightDegreesAreLost()
    ensures var d := Deltas([8.0], [0.0]);
            SampleBytes(d) == 1 && !Lossless(d, 1) && Rebuilt(0.0, d[0], 1) == Hton2(Quantised(-8.0))
  {
    hide SampleBytes;
    var d := Deltas([8.0], [0.0]);
    assert d == [128];
    WidthRule(d);
    assert !IsWide(d, 0);
  }

  /** Sixteen degrees above the base and a delta of -32768 after it: one byte is used, and the base is read. */
  lemma ExtremeDeltaHidesWidth()
    ensures var t, base := [16.0, -2048.0, 0.0], [0.0, 0.0, 0.0];
            var d := Deltas(t, base);
            && SampleBytes(d) == 1 && !Lossless(d, 3)
            && Rebuilt(base[0], d[0], 1) == Hton2(Quantised(base[0])) != Hton2(Quantised(t[0]))
  {
    hide SampleBytes;
    var d := Deltas([16.0, -2048.0, 0.0], [0.0, 0.0, 0.0]);
    assert d == [256, -0x8000, 0];
    WidthRule(d);
    assert !IsWide(d, 0) && !IsWide(d, 1) && !IsWide(d, 2);
    SampleIsLossless(16.0, 0.0, 1);
  }

  lemma FourOfTwenty()
    ensures var t, base := [20.0, 20.0, 20.0, 20.0], [0.0, 0.0, 0.0, 0.0];
            var d := Deltas(t, base);
            && d == [320, 320, 320, 320] && SampleBytes(d) == 2 && Lossless(d, 4) && CutRight(d, 4)
            && SecondPackets(4, 2) == 1
  {
    hide SampleBytes;
    var d := Deltas([20.0, 20.0, 20.0, 20.0], [0.0, 0.0, 0.0, 0.0]);
    assert d == [320, 320, 320, 320];
    assert IsWide(d, 3);
    WidthRule(d);
  }

  lemma InEitherOrder(items: seq<Item>, ps: seq<seq<byte>>)
    requires |items| == |ps| == 2 && (items[0].packet == ps[0] || items[0].packet == ps[1])
    requires items[1].packet == if items[0].packet == ps[0] then ps[1] else ps[0]
    ensures Holds(items, ps)
  {
    forall p | p in ps
      ensures exists j :: 0 <= j < |items| && items[j].packet == p
    {
      assert items[0].packet == p || items[1].packet == p;
    }
  }

  /** Four sensors twenty degrees above their base need two packets: in the other order the values are lost. */
  lemma LateFirstIsLost(m: Measurements, mb: Measurements, items: seq<Item>, baseItems: seq<Item>)
    requires m.temperature == [20.0, 20.0, 20.0, 20.0] && mb.temperature == [0.0, 0.0, 0.0, 0.0]
    requires Holds(baseItems, BasePackets(mb)) && |items| == 2
    ensures var ps := DeltaPackets(m, Deltas(m.temperature, mb.temperature));
            |ps| == 2 && ps[0] != ps[1]
            && (items[0].packet == ps[0] && items[1].packet == ps[1] ==>
                  AllReadable(items) && AllReadable(baseItems)
                  && AllValues(items, Some(baseItems)) == Stored(m.temperature, 4))
            && (items[0].packet == ps[1] && items[1].packet == ps[0] ==>
                  AllReadable(items) && AllReadable(baseItems)
                  && AllValues(items, Some(baseItems)) != Stored(m.temperature, 4))
  {
    hide Holds, DeltaFirst, DeltaSecond, BasePackets, AllValues, AllReadable, Lossless, SampleBytes, CutRight, Deltas;
    hide HasFirstHeader, Stored;
    FourOfTwenty();
    var d := Deltas(m.temperature, mb.temperature);
    var ps := DeltaPackets(m, d);
    FirstDeltaBits(m, d, ps[0]);
    LaterDeltaIsDiff(m, d, 0);
    if items[0].packet in ps && items[1].packet == if items[0].packet == ps[0] then ps[1] else ps[0] {
      InEitherOrder(items, ps);
      DeltaRoundTrip(m, mb, items, baseItems);
    }
  }
}
