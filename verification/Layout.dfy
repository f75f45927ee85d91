/** The bytes of the packets that are built, by offset, as the structures of logger-huffman.h lay them out. */
module Layout {
  import opened Wrappers
  import opened Bits
  import opened Temperature
  import opened Packets
  import opened BaseBuilder
  import opened DeltaWidth
  import opened DeltaBuilder
  import opened HuffmanBuilder
  import opened HuffmanCodec
  import opened Readings
  import opened BaseReading
  import opened DeltaReading
  import opened HuffmanReading
  import opened HuffmanLimits
  import opened EndToEnd
  import opened FramingLaws

  // ------------------------------------------------------------- packet headers

  /** The first eight bytes of a first packet, but for the number of bits and of packets. */
  predicate StartsMeasurement(p: seq<byte>, typ: byte, m: Measurements) {
    && |p| >= 8 && p[0] == typ
    && p[2] + 256 * (p[3] as int) == 8 * |m.temperature| % 0x1_0000
    && p[4] == m.measure % 256 && p[6] == m.kosa && p[7] == m.kosaYear
  }

  /** The first four bytes of a later packet. */
  predicate Continues(p: seq<byte>, typ: byte, m: Measurements, number: nat) {
    |p| >= 4 && p[0] == typ && p[1] == m.kosa && p[2] == m.measure % 256 && p[3] == number
  }

  /** The measurement header of a packet with deltas. */
  predicate TenBytesAt8(p: seq<byte>, m: Measurements) {
    && |p| >= 18
    && p[8] + 256 * (p[9] as int) == m.measure && p[10] == 10 && p[11] == m.kosa && p[12] == m.kosaYear
    && p[13] == p[14] == p[15] == p[16] == p[17] == 0
  }

  lemma EightTimes(n: nat)
    ensures n % 0x1_0000 * 8 % 0x1_0000 == 8 * n % 0x1_0000
  {
    var k, r := n / 0x1_0000, n % 0x1_0000;
    var q, size := 8 * r / 0x1_0000, 8 * r % 0x1_0000;
    assert 8 * n == 0x1_0000 * (8 * k + q) + size;
  }

  lemma StartsWith(p: seq<byte>, m: Measurements, typ: byte, size: nat)
    requires |p| >= 8 && p[0] == typ && p[4] == m.measure % 256 && p[6] == m.kosa && p[7] == m.kosaYear
    requires size == |m.temperature| % 0x1_0000 * 8 % 0x1_0000 && p[2] == size % 256 && p[3] == size / 256
    ensures StartsMeasurement(p, typ, m)
  {
    EightTimes(|m.temperature|);
  }

  lemma FirstBytes(m: Measurements, typ: byte, bits: nat, rest: seq<byte>)
    requires bits < 16
    ensures var p := FirstHeader(m, typ, bits) + rest;
            && StartsMeasurement(p, typ, m) && p[1] == bits && p[5] == PacketCount(|m.temperature|, typ, bits)
            && p[8..] == rest
  {
    hide PacketCount, StartsMeasurement;
    var h, n := FirstHeader(m, typ, bits), |m.temperature|;
    var size := n % 0x1_0000 * 8 % 0x1_0000;
    var p := h + rest;
    assert h[0] == typ && h[1] == bits && h[2] == size % 256 && h[3] == size / 256 && h[4] == m.measure % 256;
    assert h[5] == PacketCount(n, typ, bits) && h[6] == m.kosa && h[7] == m.kosaYear;
    assert forall k :: 0 <= k < 8 ==> p[k] == h[k];
    assert |h| == 8;
    hide FirstHeader;
    StartsWith(p, m, typ, size);
  }

  lemma SecondBytes(m: Measurements, typ: byte, number: byte, rest: seq<byte>)
    ensures Continues(SecondHeader(m, typ, number) + rest, typ, m, number)
    ensures (SecondHeader(m, typ, number) + rest)[4..] == rest
  {
  }

  lemma DiffBytes(m: Measurements, head: seq<byte>, rest: seq<byte>)
    requires |head| == 8
    ensures TenBytesAt8(head + DiffHeader(m) + rest, m)
  {
    var p, h := head + DiffHeader(m) + rest, DiffHeader(m);
    assert p[8] == h[0] && p[9] == h[1] && p[10] == h[2] && p[11] == h[3] && p[12] == h[4];
    assert p[13] == h[5] && p[14] == h[6] && p[15] == h[7] && p[16] == h[8] && p[17] == h[9];
  }

  lemma NextByte(x: nat)
    ensures (x % 256 + 1) % 256 == (x + 1) % 256
  {
  }

  lemma PlainCount(n: nat, typ: byte, bits: nat)
    requires typ == 0x4a || typ == 0x4c
    ensures PacketCount(n, typ, bits) == (1 + (n + 4) / 5) % 256
  {
    NextByte(n / 5 + 1);
    assert (n + 4) / 5 == if n % 5 != 0 then n / 5 + 1 else n / 5;
  }

  /** One packet for six bytes of samples, and one for each further twenty begun. */
  function DeltaCount(n: nat, dataBytes: Width): nat {
    if dataBytes == 1 then if n <= 6 then 1 else 1 + (n - 6 + 19) / 20
    else if n <= 3 then 1 else 1 + (n - 3 + 9) / 10
  }

  lemma CountOfDelta(n: nat, dataBytes: Width)
    ensures SecondPackets(n, dataBytes) + 1 == DeltaCount(n, dataBytes)
  {
  }

  lemma CountInDelta(n: nat, bits: nat)
    ensures PacketCount(n, DELTA_1, bits) == DeltaCount(n, BytesForBits(bits)) % 256
  {
    hide SecondPackets, DeltaCount;
    CountOfDelta(n, BytesForBits(bits));
  }

  // -------------------------------------------------------------- base packets

  /** The header packet of a base measurement. */
  lemma BaseHeaderBytes(m: Measurements)
    ensures BasePackets(m) != []
    ensures var p := BasePackets(m)[0];
            && |p| == 24 && StartsMeasurement(p, 0x4a, m)
            && p[1] == 0 && p[5] == (1 + (|m.temperature| + 4) / 5) % 256
            && p[8] == 0 && p[9] == m.stamp.seconds && p[10] == m.stamp.minutes && p[11] == m.stamp.hours
            && p[12] == m.stamp.day && p[13] == m.stamp.month && p[14] == m.stamp.year
            && p[15] == m.kosa && p[16] == m.kosaYear && p[17] == 0 && p[18] == 0
            && p[19] == m.vcc && p[20] == m.vbat && p[21] == 0
            && p[22] + 256 * (p[23] as int) == m.measure
  {
    hide FirstHeader, BaseRest, PacketCount;
    var p, h := BasePackets(m)[0], MeasureHeader(m);
    FirstBytes(m, PKT_1, 0, h);
    PlainCount(|m.temperature|, PKT_1, 0);
    assert p[8..] == h && forall i :: 0 <= i < 16 ==> p[8 + i] == p[8..][i];
    assert p[8] == h[0] && p[9] == h[1] && p[10] == h[2] && p[11] == h[3] && p[12] == h[4] && p[13] == h[5];
    assert p[14] == h[6] && p[15] == h[7] && p[16] == h[8] && p[17] == h[9] && p[18] == h[10] && p[19] == h[11];
    assert p[20] == h[12] && p[21] == h[13] && p[22] == h[14] && p[23] == h[15];
  }

  lemma RecordBytes(m: Measurements, k: nat)
    requires k < |m.temperature|
    ensures var v := Trunc(16.0 * m.temperature[k]);
            Record(m, k) == [k % 256, v / 256 % 256, v % 256, 0]
  {
    hide Hton2, Quantised, Trunc, StoreInt16;
    StoredHighFirst(m.temperature[k]);
  }

  /** One packet for the header and one for each five sensors begun, in a byte. */
  function PacketsOfBase(m: Measurements): byte {
    (1 + (|m.temperature| + 4) / 5) % 256
  }

  lemma BaseStart(m: Measurements, i: nat)
    requires 1 <= i < 255
    ensures Continues(BasePacket(m, i), 0x4b, m, i + 1)
  {
    hide Records, SecondHeader, Continues;
    SecondBytes(m, PKT_2, i + 1, Records(m, 5 * (i - 1), Span(|m.temperature|, 5 * (i - 1), 5)));
  }

  /** As many packets are built as the header announces, but always one; the others are numbered from 2. */
  lemma BaseLaterBytes(m: Measurements, i: nat)
    ensures |BasePackets(m)| == if PacketsOfBase(m) == 0 then 1 else PacketsOfBase(m)
    ensures 1 <= i < |BasePackets(m)| ==>
              Continues(BasePackets(m)[i], 0x4b, m, i + 1) && BasePackets(m)[i] == BasePacket(m, i)
  {
    hide FirstHeader, MeasureHeader, PacketCount, BasePacket, SecondHeader, Continues;
    PlainCount(|m.temperature|, PKT_1, 0);
    BaseRestAt(m, PacketsOfBase(m), i);
    if 1 <= i < |BasePackets(m)| {
      BaseStart(m, i);
    }
  }

  lemma RecordInPacket(m: Measurements, i: nat, r: nat, s: nat)
    requires 1 <= i && r < 5 && s == 5 * (i - 1) + r < |m.temperature|
    ensures var p, at := BasePacket(m, i), 4 + 4 * r;
            && at + 4 <= |p| == 4 + 4 * Least(5, |m.temperature| - 5 * (i - 1))
            && p[at..at + 4] == Record(m, s)
  {
    hide Records, SecondHeader, Record;
    var from := 5 * (i - 1);
    var count := Span(|m.temperature|, from, 5);
    var p, at, data := BasePacket(m, i), 4 + 4 * r, Records(m, from, count);
    assert p[4..] == data;
    RecordAt(m, from, count, r);
    assert p[at..at + 4] == data[at - 4..at];
  }

  /** The record of sensor `s` in packet `i`: number, sixteenths of a degree with the high byte first, zero. */
  lemma BaseRecordBytes(m: Measurements, i: nat, r: nat, s: nat)
    requires 1 <= i < |BasePackets(m)| && r < 5 && s == 5 * (i - 1) + r < |m.temperature|
    ensures var p, at, v := BasePackets(m)[i], 4 + 4 * r, Trunc(16.0 * m.temperature[s]);
            && at + 4 <= |p| == 4 + 4 * Least(5, |m.temperature| - 5 * (i - 1))
            && p[at..at + 4] == [s % 256, v / 256 % 256, v % 256, 0]
  {
    hide BasePackets, Trunc, Records, SecondHeader, Record, Continues, BasePacket;
    BaseLaterBytes(m, i);
    RecordBytes(m, s);
    RecordInPacket(m, i, r, s);
  }

  // ------------------------------------------------------------- delta packets

  /** The bits in the first header are the fewest that say each delta that counts, or 15 after a last of -32768. */
  ghost predicate FewestBits(bits: nat, d: seq<int16>) {
    if EndsExtreme(d) then bits == 15 else forall n: nat :: bits <= n <==> FitIn(d, n)
  }

  /** With fewer deltas than fit, there are as many bytes of samples as there should be bits. */
  lemma DeltaFirstLength(m: Measurements, d: seq<int16>)
    ensures |DeltaFirst(m, d)| == if |d| >= (if SampleBits(d) > 8 then 3 else 6) then 24 else 18 + |d| * SampleBits(d)
  {
    hide SampleBits;
  }

  /** The headers of the first delta packet. */
  lemma DeltaHeaderBytes(m: Measurements, d: seq<int16>)
    ensures var p := DeltaPackets(m, d)[0];
            && StartsMeasurement(p, 0x48, m) && TenBytesAt8(p, m) && FewestBits(p[1], d)
            && p[5] == DeltaCount(|m.temperature|, if p[1] > 8 then 2 else 1) % 256
            && |p| == if |d| >= (if p[1] > 8 then 3 else 6) then 24 else 18 + |d| * p[1]
  {
    hide FirstHeader, DiffHeader, Samples, SampleBits, DeltaFirst, FitIn, EndsExtreme, DeltaCount, PacketCount;
    hide StartsMeasurement, TenBytesAt8;
    FirstOfDelta(m, d);
    var count, tail, end := DeltaFirstParts(m, d);
    var bits := SampleBits(d);
    var h, data := FirstHeader(m, DELTA_1, bits), Samples(d, 0, count, SampleBytes(d)) + tail;
    assert DeltaFirst(m, d) == h + (DiffHeader(m) + data) == h + DiffHeader(m) + data;
    FirstBytes(m, DELTA_1, bits, DiffHeader(m) + data);
    DiffBytes(m, h, data);
    LeastOfAll(d);
    CountInDelta(|m.temperature|, bits);
    DeltaFirstLength(m, d);
  }

  /** As many packets as the deltas need; the later ones are numbered from 2 and as long as their samples. */
  lemma DeltaLaterBytes(m: Measurements, d: seq<int16>, i: nat)
    requires 1 <= i < |DeltaPackets(m, d)|
    ensures |DeltaPackets(m, d)| == DeltaCount(|d|, SampleBytes(d))
    ensures Continues(DeltaPackets(m, d)[i], 0x49, m, (i + 1) % 256)
    ensures |DeltaPackets(m, d)[i]|
            == 4 + if SampleBytes(d) == 1 then Least(20, |d| - (20 * i - 14)) else 2 * Least(10, |d| - (10 * i - 7))
  {
    hide SecondHeader, Samples, SampleBits, Continues;
    CountOfDelta(|d|, SampleBytes(d));
    var ofs := DeltaOffset(SampleBytes(d), i - 1);
    SecondBytes(m, DELTA_2, (i + 1) % 256, Samples(d, ofs, Span(|d|, ofs, Over(20, SampleBytes(d))), SampleBytes(d)));
  }

  /** The bytes of a sample: its low byte, and after that its high byte if there are two. */
  predicate HasSample(p: seq<byte>, at: nat, x: int16, dataBytes: Width) {
    && at + dataBytes <= |p| && p[at] == x % 256
    && (dataBytes == 2 ==> p[at + 1] == x / 256 % 256)
  }

  lemma {:induction false} SampleBytesAt(d: seq<int16>, from: nat, count: nat, dataBytes: Width, i: nat)
    requires i < count && from + count <= |d|
    ensures HasSample(Samples(d, from, count, dataBytes), Times(i, dataBytes), d[from + i], dataBytes)
  {
    if i < count - 1 {
      SampleBytesAt(d, from, count - 1, dataBytes, i);
    }
  }

  lemma SampleAfter(h: seq<byte>, data: seq<byte>, tail: seq<byte>, at: nat, x: int16, dataBytes: Width)
    requires HasSample(data, at, x, dataBytes)
    ensures HasSample(h + data + tail, |h| + at, x, dataBytes)
  {
  }

  lemma FirstHolds(d: seq<int16>, s: nat, dataBytes: Width, count: nat, end: nat)
    requires s < |d| && dataBytes == SampleBytes(d) && (CountsUpTo(d, 0) ==> |d| >= 6) && s < 6 / dataBytes
    requires if |d| < Over(6, dataBytes) then
               end == Over(|d| * SampleBits(d), dataBytes) && (end > 0 ==> count == |d|)
             else end == count == Over(6, dataBytes)
    ensures s < count
  {
    FewBits(d);
    var bits := SampleBits(d);
    hide SampleBits, CountsUpTo;
    if |d| < Over(6, dataBytes) {
      EnoughBits(|d|, bits);
    }
  }

  lemma FirstShape(m: Measurements, d: seq<int16>, dataBytes: Width, p: seq<byte>)
    returns (h: seq<byte>, count: nat, tail: seq<byte>, end: nat)
    requires p == DeltaPackets(m, d)[0] && dataBytes == SampleBytes(d)
    ensures |h| == 18 && count <= |d| && p == h + Samples(d, 0, count, dataBytes) + tail
    ensures if |d| < Over(6, dataBytes) then
              end == Over(|d| * SampleBits(d), dataBytes) && (end > 0 ==> count == |d|)
            else end == count == Over(6, dataBytes)
  {
    FirstOfDelta(m, d);
    hide FirstHeader, DiffHeader, Samples, SampleBits, DeltaFirst, Over;
    count, tail, end := DeltaFirstParts(m, d);
    h := FirstHeader(m, DELTA_1, SampleBits(d)) + DiffHeader(m);
  }

  lemma DeltaFirstSample(m: Measurements, d: seq<int16>, s: nat, dataBytes: Width, p: seq<byte>)
    requires s < |d| && dataBytes == SampleBytes(d) && (CountsUpTo(d, 0) ==> |d| >= 6) && s < 6 / dataBytes
    requires p == DeltaPackets(m, d)[0]
    ensures HasSample(p, 18 + Times(s, dataBytes), d[s], dataBytes)
  {
    hide *;
    var h, count, tail, end := FirstShape(m, d, dataBytes, p);
    FirstHolds(d, s, dataBytes, count, end);
    SampleBytesAt(d, 0, count, dataBytes, s);
    SampleAfter(h, Samples(d, 0, count, dataBytes), tail, Times(s, dataBytes), d[s], dataBytes);
  }

  lemma DeltaLaterPlace(n: nat, s: nat, dataBytes: Width, i: nat, r: nat, ofs: nat, count: nat)
    requires s < n <= 256 && s == (if dataBytes == 1 then 6 + 20 * i else 3 + 10 * i) + r
    requires r < if dataBytes == 1 then 20 else 10
    requires ofs == DeltaOffset(dataBytes, i) && count == Span(n, ofs, Over(20, dataBytes))
    ensures i < SecondPackets(n, dataBytes) && s == ofs + r && r < count && ofs + count <= n
  {
    DeltaPacketPlaces(n, dataBytes, i);
  }

  lemma LaterShape(m: Measurements, d: seq<int16>, i: nat, dataBytes: Width, ofs: nat, count: nat, p: seq<byte>)
    returns (h: seq<byte>)
    requires i < SecondPackets(|d|, dataBytes) && dataBytes == SampleBytes(d) && p == DeltaPackets(m, d)[i + 1]
    requires ofs == DeltaOffset(dataBytes, i) && count == Span(|d|, ofs, Over(20, dataBytes))
    ensures |h| == 4 && p == h + Samples(d, ofs, count, dataBytes) + []
  {
    hide SampleBits, SecondHeader, Samples, DeltaFirst, DeltaOffset, Over;
    h := SecondHeader(m, DELTA_2, (i + 2) % 256);
    assert p == DeltaSecond(m, d, i);
  }

  lemma DeltaLaterSample(m: Measurements, d: seq<int16>, s: nat, dataBytes: Width, i: nat, r: nat)
    requires s < |d| <= 256 && dataBytes == SampleBytes(d)
    requires s == (if dataBytes == 1 then 6 + 20 * i else 3 + 10 * i) + r && r < if dataBytes == 1 then 20 else 10
    ensures i + 1 < |DeltaPackets(m, d)|
    ensures HasSample(DeltaPackets(m, d)[i + 1], 4 + Times(r, dataBytes), d[s], dataBytes)
  {
    var ofs := DeltaOffset(dataBytes, i);
    var count := Span(|d|, ofs, Over(20, dataBytes));
    hide *;
    DeltaLaterPlace(|d|, s, dataBytes, i, r, ofs, count);
    var p := DeltaPackets(m, d)[i + 1];
    var h := LaterShape(m, d, i, dataBytes, ofs, count, p);
    SampleBytesAt(d, ofs, count, dataBytes, r);
    SampleAfter(h, Samples(d, ofs, count, dataBytes), [], Times(r, dataBytes), d[s], dataBytes);
  }

  /**
   The delta of each sensor is in its packet: the first six bytes of samples in the first packet, unless that is cut to
   nothing, and then twenty bytes in each further one.
   */
  lemma DeltaSampleBytes(m: Measurements, d: seq<int16>, s: nat, i: nat, r: nat, dataBytes: Width)
    requires s < |d| <= 256 && dataBytes == SampleBytes(d)
    ensures (CountsUpTo(d, 0) ==> |d| >= 6) && s < 6 / dataBytes
            ==> HasSample(DeltaPackets(m, d)[0], 18 + Times(s, dataBytes), d[s], dataBytes)
    ensures s == (if dataBytes == 1 then 6 + 20 * i else 3 + 10 * i) + r && (r < if dataBytes == 1 then 20 else 10)
            ==> i + 1 < |DeltaPackets(m, d)|
                && HasSample(DeltaPackets(m, d)[i + 1], 4 + Times(r, dataBytes), d[s], dataBytes)
  {
    hide Samples, DeltaFirst, DeltaSecond, CountsUpTo, HasSample, SampleBytes, Times;
    if (CountsUpTo(d, 0) ==> |d| >= 6) && s < 6 / dataBytes {
      DeltaFirstSample(m, d, s, dataBytes, DeltaPackets(m, d)[0]);
    }
    if s == (if dataBytes == 1 then 6 + 20 * i else 3 + 10 * i) + r && r < if dataBytes == 1 then 20 else 10 {
      DeltaLaterSample(m, d, s, dataBytes, i, r);
    }
  }

  // ----------------------------------------------------------- Huffman packets

  lemma NumberVerbatim(m: Measurements, p: seq<byte>, data: seq<byte>, z: seq<byte>)
    requires |p| >= 8 && p[8..] == z && |z| >= 2 && |data| >= 10 && z[..2] == data[..2] && data[..10] == DiffHeader(m)
    ensures |p| >= 10 && p[8] + 256 * (p[9] as int) == m.measure
  {
    assert p[8] == z[..2][0] == data[..10][0] && p[9] == z[..2][1] == data[..10][1];
  }

  lemma HuffmanFirstBytes(m: Measurements, d: seq<int16>, c: nat, p: seq<byte>, plain: seq<byte>)
    requires |d| <= |m.temperature| && c <= |m.temperature| && p == HuffmanFirst(m, d, c)
    requires |p| >= 8 && plain == p[..8] + Decompressed(p[8..])
    ensures StartsMeasurement(p, 0x4c, m) && FewestBits(p[1], d) && p[5] == (1 + (|m.temperature| + 4) / 5) % 256
    ensures |p| >= 10 && p[8] + 256 * (p[9] as int) == m.measure
    ensures TenBytesAt8(plain, m)
  {
    hide FirstHeader, DiffHeader, ChunkBytes, SampleBits, FitIn, EndsExtreme, StartsMeasurement, TenBytesAt8;
    hide PacketCount, Decompressed, Compressed;
    var bits, chunk := SampleBits(d), ChunkBytes(m, d, 0, c);
    var h, data := FirstHeader(m, HUFF_1, bits), DiffHeader(m) + chunk;
    CompressionRoundTrip(data);
    var z := Compressed(data).value;
    FirstBytes(m, HUFF_1, bits, z);
    assert p == h + z && p[..8] == h && p[8..] == z;
    assert plain == h + DiffHeader(m) + chunk;
    DiffBytes(m, h, chunk);
    LeastOfAll(d);
    PlainCount(|m.temperature|, HUFF_1, bits);
    NumberVerbatim(m, p, data, z);
  }

  /** The headers of the first Huffman packet, and its measurement header once decompressed. */
  lemma HuffmanHeaderBytes(m: Measurements, base: seq<real>)
    requires HuffmanPackets(m, base).Ok?
    ensures HuffmanPackets(m, base).value != []
    ensures var p := HuffmanPackets(m, base).value[0];
            && StartsMeasurement(p, 0x4c, m) && FewestBits(p[1], Deltas(m.temperature, base))
            && p[5] == (1 + (|m.temperature| + 4) / 5) % 256
            && |p| >= 10 && p[8] + 256 * (p[9] as int) == m.measure
            && TenBytesAt8(p[..8] + Decompressed(p[8..]), m)
  {
    var n, d := |m.temperature|, Deltas(m.temperature, base);
    LeastBounds(n, |base|);
    var c := Chosen(m, d, n);
    ChosenChunks(m, base, d, c);
    var ps := HuffmanPackets(m, base).value;
    FirstOfChunks(m, d, c, PacketTotal(n, c), ps);
    assert |ps[0]| >= 8;
    var plain := ps[0][..8] + Decompressed(ps[0][8..]);
    hide *;
    HuffmanFirstBytes(m, d, c, ps[0], plain);
  }

  lemma HuffmanSecondBytes(m: Measurements, d: seq<int16>, c: nat, j: nat, p: seq<byte>)
    requires |d| <= |m.temperature| && 2 <= j < 256 && HuffmanSecond(m, d, c, j) == Ok(p)
    ensures Continues(p, 0x4d, m, j)
  {
    var rest := HuffmanSecondParts(m, d, c, j, p);
    hide *;
    SecondBytes(m, HUFF_2, j, rest);
  }

  lemma ChosenTotal(m: Measurements, base: seq<real>, d: seq<int16>, c: nat, ps: seq<seq<byte>>)
    requires |m.temperature| <= 256 && HuffmanPackets(m, base) == Ok(ps) && 1 <= |ps|
    requires d == Deltas(m.temperature, base) && c == Chosen(m, d, |m.temperature|)
    ensures |d| <= |m.temperature| && c <= |m.temperature| <= c * |ps| && |ps| < 256
    ensures Chunks(m, d, c, |ps|) == Ok(ps)
  {
    LeastBounds(|m.temperature|, |base|);
    hide *;
    ChosenChunks(m, base, d, c);
    ChosenPackets(m, base, |ps|);
    assert ps[..|ps|] == ps;
  }

  /** Each packet of the builder is a chunk of the chosen size. */
  lemma ChosenAt(m: Measurements, base: seq<real>, d: seq<int16>, c: nat, ps: seq<seq<byte>>, i: nat)
    requires |m.temperature| <= 256 && HuffmanPackets(m, base) == Ok(ps) && i < |ps|
    requires d == Deltas(m.temperature, base) && c == Chosen(m, d, |m.temperature|)
    ensures |d| <= |m.temperature| && c <= |m.temperature| <= c * |ps| && |ps| < 256
    ensures if i == 0 then ps[i] == HuffmanFirst(m, d, c) else HuffmanSecond(m, d, c, i + 1) == Ok(ps[i])
  {
    hide *;
    ChosenTotal(m, base, d, c, ps);
    ChunksAt(m, d, c, |ps|, i + 1);
  }

  lemma LaterBytes(m: Measurements, base: seq<real>, d: seq<int16>, c: nat, ps: seq<seq<byte>>, i: nat)
    requires |m.temperature| <= 256 && HuffmanPackets(m, base) == Ok(ps) && 1 <= i < |ps|
    requires d == Deltas(m.temperature, base) && c == Chosen(m, d, |m.temperature|)
    ensures Continues(ps[i], 0x4d, m, i + 1)
  {
    hide *;
    ChosenAt(m, base, d, c, ps, i);
    HuffmanSecondBytes(m, d, c, i + 1, ps[i]);
  }

  /** Later Huffman packets are numbered from 2. */
  lemma HuffmanLaterBytes(m: Measurements, base: seq<real>, i: nat)
    requires |m.temperature| <= 256 && HuffmanPackets(m, base).Ok? && 1 <= i < |HuffmanPackets(m, base).value|
    ensures Continues(HuffmanPackets(m, base).value[i], 0x4d, m, i + 1)
  {
    var d := Deltas(m.temperature, base);
    LeastBounds(|m.temperature|, |base|);
    var c, ps := Chosen(m, d, |m.temperature|), HuffmanPackets(m, base).value;
    hide *;
    LaterBytes(m, base, d, c, ps, i);
  }

  lemma ChunkNumber(n: nat, c: nat, total: nat, s: nat, j: nat, r: nat)
    requires n <= c * total && s < n && s == c * j + r && r < c
    ensures j < total && (j == 0 ==> s == r)
  {
    if j >= total {
      Scale(c, total, j);
    }
  }

  lemma ChunkPlaceOf(n: nat, c: nat, j: nat, r: nat)
    requires r < c && c * j + r < n
    ensures var count := ChunkSize(n, c, j + 1);
            r < count && c * j + count <= n
  {
  }

  lemma PaddedAt(d: seq<int16>, n: nat, s: nat)
    requires |d| <= n && s < n
    ensures Padded(d, n)[s] == if s < |d| then d[s] else 0
  {
  }

  /** The sample of sensor `r` of a chunk that begins at `ofs`. */
  lemma ChunkSample(m: Measurements, d: seq<int16>, ofs: nat, count: nat, r: nat, dataBytes: Width, h: seq<byte>,
                    chunk: seq<byte>, x: int16)
    requires |d| <= |m.temperature| && dataBytes == SampleBytes(d) && r < count && ofs + count <= |m.temperature|
    requires chunk == ChunkBytes(m, d, ofs, count) && x == if ofs + r < |d| then d[ofs + r] else 0
    ensures HasSample(h + chunk, |h| + Times(r, dataBytes), x, dataBytes)
  {
    var n := |m.temperature|;
    PaddedAt(d, n, ofs + r);
    var padded := Padded(d, n);
    assert chunk == Samples(padded, ofs, count, dataBytes);
    hide *;
    SampleBytesAt(padded, ofs, count, dataBytes, r);
    SampleAfter(h, chunk, [], Times(r, dataBytes), x, dataBytes);
    assert h + chunk + [] == h + chunk;
  }

  lemma FirstPlain(m: Measurements, d: seq<int16>, c: nat, p: seq<byte>, h: seq<byte>)
    requires |d| <= |m.temperature| && c <= |m.temperature| && p == HuffmanFirst(m, d, c)
    requires h == FirstHeader(m, HUFF_1, SampleBits(d)) + DiffHeader(m)
    ensures |p| >= 8 && p[..8] + Decompressed(p[8..]) == h + ChunkBytes(m, d, 0, c)
    ensures |h| == 18
  {
    hide HuffmanFirst, FirstHeader, DiffHeader, ChunkBytes, SampleBits, Decompressed;
    FirstUnzips(m, d, c, p);
    assert Unzipped(p, FIRST_HDR) == p[..8] + Decompressed(p[8..]);
  }

  lemma LaterPlain(m: Measurements, d: seq<int16>, c: nat, j: nat, p: seq<byte>, chunk: seq<byte>)
    requires |d| <= |m.temperature| && 2 <= j < 256 && HuffmanSecond(m, d, c, j) == Ok(p)
    requires chunk == ChunkOf(m, d, c, j)
    ensures |p| >= 4 && p[..4] + Decompressed(p[4..]) == SecondHeader(m, HUFF_2, j) + chunk
  {
    hide HuffmanSecond, SecondHeader, ChunkOf, Decompressed, PacketType, MeasuredType;
    SecondUnzips(m, d, c, j, p);
    assert Unzipped(p, SECOND_HDR) == p[..4] + Decompressed(p[4..]);
  }

  /** The packet has the sample when the part after its header is decompressed. */
  predicate HasZipped(p: seq<byte>, header: nat, at: nat, x: int16, dataBytes: Width) {
    header <= |p| && HasSample(p[..header] + Decompressed(p[header..]), at, x, dataBytes)
  }

  lemma Zipped(p: seq<byte>, header: nat, h: seq<byte>, data: seq<byte>, at: nat, x: int16, dataBytes: Width)
    requires header <= |p| && p[..header] + Decompressed(p[header..]) == h + data
    requires HasSample(h + data, at, x, dataBytes)
    ensures HasZipped(p, header, at, x, dataBytes)
  {
    hide HasSample, Decompressed;
  }

  lemma FirstChunkSample(m: Measurements, d: seq<int16>, c: nat, r: nat, dataBytes: Width, p: seq<byte>,
                         h: seq<byte>, chunk: seq<byte>, x: int16)
    requires |d| <= |m.temperature| && c <= |m.temperature| && dataBytes == SampleBytes(d) && r < c
    requires p == HuffmanFirst(m, d, c) && h == FirstHeader(m, HUFF_1, SampleBits(d)) + DiffHeader(m)
    requires chunk == ChunkBytes(m, d, 0, c) && x == if r < |d| then d[r] else 0
    ensures HasZipped(p, 8, 18 + Times(r, dataBytes), x, dataBytes)
  {
    hide *;
    FirstPlain(m, d, c, p, h);
    ChunkSample(m, d, 0, c, r, dataBytes, h, chunk, x);
    Zipped(p, 8, h, chunk, 18 + Times(r, dataBytes), x, dataBytes);
  }

  lemma LaterChunkSample(m: Measurements, d: seq<int16>, c: nat, j: nat, ofs: nat, count: nat, r: nat,
                         dataBytes: Width, p: seq<byte>, h: seq<byte>, chunk: seq<byte>, x: int16)
    requires |d| <= |m.temperature| && dataBytes == SampleBytes(d) && r < count && 1 <= j < 255
    requires ofs == c * j && ofs + count <= |m.temperature| && HuffmanSecond(m, d, c, j + 1) == Ok(p)
    requires count == ChunkSize(|m.temperature|, c, j + 1) && chunk == ChunkBytes(m, d, ofs, count)
    requires h == SecondHeader(m, HUFF_2, j + 1) && x == if ofs + r < |d| then d[ofs + r] else 0
    ensures HasZipped(p, 4, 4 + Times(r, dataBytes), x, dataBytes)
  {
    assert chunk == ChunkOf(m, d, c, j + 1) && |h| == 4;
    hide *;
    LaterPlain(m, d, c, j + 1, p, chunk);
    ChunkSample(m, d, ofs, count, r, dataBytes, h, chunk, x);
    Zipped(p, 4, h, chunk, 4 + Times(r, dataBytes), x, dataBytes);
  }

  lemma SampleOfFirst(m: Measurements, d: seq<int16>, c: nat, r: nat, dataBytes: Width, p: seq<byte>, x: int16)
    requires |d| <= |m.temperature| && c <= |m.temperature| && dataBytes == SampleBytes(d) && r < c
    requires p == HuffmanFirst(m, d, c) && x == if r < |d| then d[r] else 0
    ensures HasZipped(p, 8, 18 + Times(r, dataBytes), x, dataBytes)
  {
    hide *;
    FirstChunkSample(m, d, c, r, dataBytes, p, FirstHeader(m, HUFF_1, SampleBits(d)) + DiffHeader(m),
                     ChunkBytes(m, d, 0, c), x);
  }

  lemma SampleOfLater(m: Measurements, d: seq<int16>, c: nat, j: nat, ofs: nat, r: nat, s: nat, dataBytes: Width,
                      p: seq<byte>, x: int16)
    requires |d| <= |m.temperature| && dataBytes == SampleBytes(d) && r < c && 1 <= j < 255 && ofs == c * j
    requires HuffmanSecond(m, d, c, j + 1) == Ok(p)
    requires s == ofs + r && s < |m.temperature| && x == if s < |d| then d[s] else 0
    ensures HasZipped(p, 4, 4 + Times(r, dataBytes), x, dataBytes)
  {
    ChunkPlaceOf(|m.temperature|, c, j, r);
    hide *;
    var count := ChunkSize(|m.temperature|, c, j + 1);
    LaterChunkSample(m, d, c, j, ofs, count, r, dataBytes, p, SecondHeader(m, HUFF_2, j + 1),
                     ChunkBytes(m, d, ofs, count), x);
  }

  /** The delta of each sensor, 0 without a base, is in its packet: sensor `r` of packet `j`, both counted from 0. */
  lemma HuffmanSampleBytes(m: Measurements, base: seq<real>, d: seq<int16>, c: nat, ps: seq<seq<byte>>,
                           s: nat, j: nat, r: nat, dataBytes: Width)
    requires s < |m.temperature| <= 256 && HuffmanPackets(m, base) == Ok(ps)
    requires d == Deltas(m.temperature, base) && c == Chosen(m, d, |m.temperature|)
    requires dataBytes == SampleBytes(d) && s == c * j + r && r < c
    ensures j < |ps|
    ensures HasZipped(ps[j], if j == 0 then 8 else 4, (if j == 0 then 18 else 4) + Times(r, dataBytes),
                      if s < |d| then d[s] else 0, dataBytes)
  {
    hide *;
    HuffmanIsSome(m, base);
    ChosenAt(m, base, d, c, ps, 0);
    ChunkNumber(|m.temperature|, c, |ps|, s, j, r);
    ChosenAt(m, base, d, c, ps, j);
    if j == 0 {
      SampleOfFirst(m, d, c, r, dataBytes, ps[j], if s < |d| then d[s] else 0);
    } else {
      SampleOfLater(m, d, c, j, c * j, r, s, dataBytes, ps[j], if s < |d| then d[s] else 0);
    }
  }
}
