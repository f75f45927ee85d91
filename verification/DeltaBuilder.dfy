/** The plain delta packets (48, 49) of `LoggerBuilder`. */
module DeltaBuilder {
  import opened Bits
  import opened Temperature
  import opened Packets
  import opened DeltaWidth
  import opened BaseBuilder

  // ------------------------------------------------------------------ samples

  /** One delta in a packet: one byte keeps the low eight bits. */
  function Sample(d: int16, dataBytes: Width): (s: seq<byte>)
    ensures |s| == Times(1, dataBytes)
  {
    if dataBytes == 1 then [d % 256] else StoreInt16(d)
  }

  function Samples(d: seq<int16>, from: nat, count: nat, dataBytes: Width): (s: seq<byte>)
    requires count > 0 ==> from + count <= |d|
    ensures |s| == Times(count, dataBytes)
  {
    if count == 0 then [] else Samples(d, from, count - 1, dataBytes) + Sample(d[from + count - 1], dataBytes)
  }

  /** Write one sample into its place in the buffer, after the bytes `start + done`. */
  method SetSample(buffer: array<byte>, at: nat, d: int16, dataBytes: Width,
                   ghost start: seq<byte>, ghost done: seq<byte>, ghost rest: seq<byte>)
    requires buffer[..] == start + done + rest && at == |start + done| && dataBytes <= |rest|
    modifies buffer
    ensures buffer[..] == start + (done + Sample(d, dataBytes)) + rest[dataBytes..]
  {
    if dataBytes == 1 {
      buffer[at] := d % 256;
    } else {
      buffer[at] := StoreInt16(d)[0];
      buffer[at + 1] := StoreInt16(d)[1];
    }
  }

  lemma SamplesStep(d: seq<int16>, from: nat, c: nat, dataBytes: Width)
    ensures Samples(d, from, 0, dataBytes) == [] && Times(0, dataBytes) == 0
    ensures Times(c + 1, dataBytes) == Times(c, dataBytes) + Times(1, dataBytes) && Times(1, dataBytes) == dataBytes
    ensures from + c < |d|
            ==> Samples(d, from, c + 1, dataBytes) == Samples(d, from, c, dataBytes) + Sample(d[from + c], dataBytes)
  {
  }

  lemma TimesMonotone(a: nat, b: nat, dataBytes: Width)
    ensures a <= b ==> Times(a, dataBytes) <= Times(b, dataBytes)
  {
  }

  /** Write samples from `from` on, until `max` are written or none is left. */
  method SetSamples(buffer: array<byte>, at: nat, d: seq<int16>, from: nat, dataBytes: Width, max: nat,
                    ghost start: seq<byte>, ghost rest: seq<byte>)
    returns (size: nat)
    requires buffer[..] == start + rest && at == |start|
    requires Times(Span(|d|, from, max), dataBytes) <= |rest|
    modifies buffer
    ensures var count := Span(|d|, from, max);
            && size == Times(count, dataBytes)
            && buffer[..] == start + Samples(d, from, count, dataBytes) + rest[size..]
  {
    hide Sample, Samples, Times, Over;
    SamplesStep(d, from, 0, dataBytes);
    var ofs := from;
    var c := 0;
    size := 0;
    ghost var n := Span(|d|, from, max);
    assert n == max || (n < max && from + n >= |d|);
    assert rest[0..] == rest;
    hide Span, Least;
    while c < max
      invariant 0 <= c <= n && ofs == from + c
      invariant size == Times(c, dataBytes)
      invariant size <= |rest| && buffer[..] == start + Samples(d, from, c, dataBytes) + rest[size..]
      decreases max - c
    {
      if ofs >= |d| {
        break;
      }
      SamplesStep(d, from, c, dataBytes);
      TimesMonotone(c + 1, n, dataBytes);
      SetSample(buffer, at + size, d[ofs], dataBytes, start, Samples(d, from, c, dataBytes), rest[size..]);
      c := c + 1;
      ofs := ofs + 1;
      size := size + dataBytes;
      assert rest[size..] == rest[size - dataBytes..][dataBytes..];
    }
  }

  method SetDeltaMeasurementsDataFirstPacket(buffer: array<byte>, at: nat, d: seq<int16>, dataBytes: Width,
                                             maxSize: nat, ghost start: seq<byte>, ghost rest: seq<byte>)
    returns (size: nat)
    requires buffer[..] == start + rest && at == |start| && maxSize <= |rest|
    modifies buffer
    ensures var count := Span(|d|, 0, Over(maxSize, dataBytes));
            && size == Times(count, dataBytes) && size <= maxSize
            && buffer[..] == start + Samples(d, 0, count, dataBytes) + rest[size..]
  {
    size := SetSamples(buffer, at, d, 0, dataBytes, Over(maxSize, dataBytes), start, rest);
  }

  method SetDeltaMeasurementsData(buffer: array<byte>, at: nat, d: seq<int16>, packetIndex: nat, dataBytes: Width,
                                  firstPacketSize: nat, maxSecondPacketSize: nat,
                                  ghost start: seq<byte>, ghost rest: seq<byte>)
    returns (size: nat)
    requires buffer[..] == start + rest && at == |start|
    requires var ofs := Over(firstPacketSize + packetIndex * maxSecondPacketSize, dataBytes);
             Times(Span(|d|, ofs, Over(maxSecondPacketSize, dataBytes)), dataBytes) <= |rest|
    modifies buffer
    ensures var ofs := Over(firstPacketSize + packetIndex * maxSecondPacketSize, dataBytes);
            var count := Span(|d|, ofs, Over(maxSecondPacketSize, dataBytes));
            && size == Times(count, dataBytes)
            && buffer[..] == start + Samples(d, ofs, count, dataBytes) + rest[size..]
  {
    hide Times, Over, Samples;
    var ofs := Over(firstPacketSize + packetIndex * maxSecondPacketSize, dataBytes);
    size := SetSamples(buffer, at, d, ofs, dataBytes, Over(maxSecondPacketSize, dataBytes), start, rest);
  }

  // ------------------------------------------------------- plain delta packets

  function ZeroBytes(n: nat): (s: seq<byte>)
    ensures |s| == n
  {
    seq(n, i => 0)
  }

  /** `std::string::resize` */
  function Resize(s: seq<byte>, n: nat): (r: seq<byte>)
    ensures |r| == n
  {
    if n <= |s| then s[..n] else s + ZeroBytes(n - |s|)
  }

  /** The first packet with its room for six bytes of samples. */
  function DeltaFirstFull(m: Measurements, d: seq<int16>): (p: seq<byte>)
    ensures |p| == MAX_PACKET
  {
    var f := FirstCount(|d|, SampleBytes(d));
    FirstHeader(m, DELTA_1, SampleBits(d)) + DiffHeader(m) + Samples(d, 0, f, SampleBytes(d))
    + ZeroBytes(6 - Times(f, SampleBytes(d)))
  }

  /** With fewer samples than fit, the size is computed from bits per sample where bytes are meant. */
  function DeltaFirst(m: Measurements, d: seq<int16>): seq<byte> {
    var f := FirstCount(|d|, SampleBytes(d));
    if Over(6, SampleBytes(d)) > |d| then Resize(DeltaFirstFull(m, d), 24 - (6 - f * SampleBits(d)))
    else DeltaFirstFull(m, d)
  }

  /** The sample index with which the delta packet after `i` others but the first begins. */
  function DeltaOffset(dataBytes: Width, i: nat): nat
  {
    Over(6 + i * 20, dataBytes)
  }

  function DeltaSecond(m: Measurements, d: seq<int16>, i: nat): seq<byte> {
    var ofs := DeltaOffset(SampleBytes(d), i);
    SecondHeader(m, DELTA_2, (i + 2) % 256)
    + Samples(d, ofs, Span(|d|, ofs, Over(20, SampleBytes(d))), SampleBytes(d))
  }

  function DeltaPackets(m: Measurements, d: seq<int16>): (ps: seq<seq<byte>>)
    ensures |ps| == 1 + SecondPackets(|d|, SampleBytes(d))
  {
    [DeltaFirst(m, d)] + seq(SecondPackets(|d|, SampleBytes(d)), i requires i >= 0 => DeltaSecond(m, d, i))
  }

  lemma FirstFull(m: Measurements, d: seq<int16>, header: seq<byte>, packet: seq<byte>, size: nat)
    requires header == FirstHeader(m, DELTA_1, SampleBits(d)) + DiffHeader(m)
    requires var count := Span(|d|, 0, Over(6, SampleBytes(d)));
             size == Times(count, SampleBytes(d)) <= 6
             && packet == header + Samples(d, 0, count, SampleBytes(d)) + ZeroBytes(6)[size..]
    ensures packet == DeltaFirstFull(m, d)
  {
    hide FirstHeader, DiffHeader, SampleBits, Samples, Over, Times;
    assert ZeroBytes(6)[size..] == ZeroBytes(6 - size);
  }

  method BuildDeltaFirst(m: Measurements, d: seq<int16>, bitsPerSample: nat, inFirstPacket: nat, shorter: bool)
    returns (packet: seq<byte>)
    requires bitsPerSample == SampleBits(d)
    requires inFirstPacket == FirstCount(|d|, SampleBytes(d))
    requires shorter <==> Over(6, SampleBytes(d)) > |d|
    ensures packet == DeltaFirst(m, d)
  {
    hide FirstHeader, DiffHeader, SampleBits, Samples;
    var first := new byte[24](_ => 0);
    ghost var header := FirstHeader(m, DELTA_1, bitsPerSample) + DiffHeader(m);
    SetFirstHeader(first, m, DELTA_1, bitsPerSample);
    WriteStruct(first, FIRST_HDR, DiffHeader(m));
    assert first[..] == header + ZeroBytes(6);
    var size := SetDeltaMeasurementsDataFirstPacket(first, FIRST_HDR + HDR_DIFF, d, BytesForBits(bitsPerSample), 6,
                                                    header, ZeroBytes(6));
    packet := first[..];
    FirstFull(m, d, header, packet, size);
    if shorter {
      packet := Resize(packet, 24 - (6 - inFirstPacket * bitsPerSample));
    }
  }

  /** The buffer up to the end of the samples. */
  lemma SecondCut(m: Measurements, d: seq<int16>, i: nat, header: seq<byte>, data: seq<byte>, buffer: seq<byte>)
    requires header == SecondHeader(m, DELTA_2, (i + 2) % 256) && |data| <= 20
    requires var ofs := DeltaOffset(SampleBytes(d), i);
             data == Samples(d, ofs, Span(|d|, ofs, Over(20, SampleBytes(d))), SampleBytes(d))
    requires buffer == header + data + ZeroBytes(20)[|data|..]
    ensures buffer[..|data| + SECOND_HDR] == DeltaSecond(m, d, i)
    ensures |data| == 20 ==> buffer == DeltaSecond(m, d, i)
  {
    hide SecondHeader, SampleBytes, Samples, DeltaOffset, Over, Span;
    assert buffer[..|data| + SECOND_HDR] == header + data;
    assert |data| == 20 ==> buffer[..24] == buffer;
  }

  method BuildDeltaSecond(m: Measurements, d: seq<int16>, i: nat, dataBytes: Width) returns (packet: seq<byte>)
    requires dataBytes == SampleBytes(d)
    ensures packet == DeltaSecond(m, d, i)
  {
    hide SecondHeader, SampleBits, Samples;
    var second := new byte[24](_ => 0);
    ghost var header := SecondHeader(m, DELTA_2, (i + 2) % 256);
    SetSecondHeader(second, m, DELTA_2, (i + 2) % 256);
    assert second[..] == header + ZeroBytes(20);
    ghost var ofs := DeltaOffset(dataBytes, i);
    ghost var data := Samples(d, ofs, Span(|d|, ofs, Over(20, dataBytes)), dataBytes);
    var sz := SetDeltaMeasurementsData(second, SECOND_HDR, d, i, dataBytes, 6, 20, header, ZeroBytes(20));
    packet := second[..];
    SecondCut(m, d, i, header, data, packet);
    if sz < 24 - SECOND_HDR {
      packet := packet[..sz + SECOND_HDR];
    }
  }

  method BuildDelta(m: Measurements, baseTemperature: seq<real>) returns (packets: seq<seq<byte>>)
    requires AllCastable(m.temperature) && AllCastable(baseTemperature)
    ensures packets == DeltaPackets(m, Deltas(m.temperature, baseTemperature))
  {
    hide DeltaFirst, DeltaSecond, MaxDiff, SampleBits, Delta, Over, Times;
    var d, bitsPerSample := CalcDeltas(m.temperature, baseTemperature);
    var dataBytes := BytesForBits(bitsPerSample);
    var cnt := |d|;
    var measurementsInFirstPacket := Over(6, dataBytes);
    var firstPacketShorter24Bytes := false;
    if measurementsInFirstPacket > cnt {
      measurementsInFirstPacket := cnt;
      firstPacketShorter24Bytes := true;
    }
    var measurementsInSecondPackets := cnt - measurementsInFirstPacket;
    var secondPackets := Times(measurementsInSecondPackets, dataBytes) / 20;
    if measurementsInSecondPackets > Over(secondPackets * 20, dataBytes) {
      secondPackets := secondPackets + 1;
    }
    assert measurementsInFirstPacket == FirstCount(cnt, dataBytes) && secondPackets == SecondPackets(cnt, dataBytes);
    var first := BuildDeltaFirst(m, d, bitsPerSample, measurementsInFirstPacket, firstPacketShorter24Bytes);
    packets := [first];
    for i := 0 to secondPackets
      invariant |packets| == 1 + i && packets[0] == DeltaFirst(m, d)
      invariant forall k :: 0 <= k < i ==> packets[1 + k] == DeltaSecond(m, d, k)
    {
      var second := BuildDeltaSecond(m, d, i, dataBytes);
      packets := packets + [second];
    }
  }
}
