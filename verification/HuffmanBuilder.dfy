/** The Huffman encoded delta packets (4c, 4d) of `LoggerBuilder`. */
module HuffmanBuilder {
  import opened Wrappers
  import opened Bits
  import opened Temperature
  import opened Packets
  import opened BaseBuilder
  import opened DeltaWidth
  import opened DeltaBuilder
  import opened HuffmanCodec

  /** The deltas of all sensors: a sensor without a base has the delta 0 that a cleared buffer holds. */
  function Padded(d: seq<int16>, n: nat): (e: seq<int16>)
    requires |d| <= n
    ensures |e| == n
  {
    d + seq(n - |d|, i => 0)
  }

  /** The samples `from`, ..., `from + count - 1` of a measurement. */
  function ChunkBytes(m: Measurements, d: seq<int16>, from: nat, count: nat): (s: seq<byte>)
    requires |d| <= |m.temperature| && (count > 0 ==> from + count <= |m.temperature|)
    ensures |s| == Times(count, SampleBytes(d))
  {
    Samples(Padded(d, |m.temperature|), from, count, SampleBytes(d))
  }

  /** The number of packets when each takes `c` sensors. */
  function PacketTotal(n: nat, c: nat): (k: nat)
    requires c <= n
    ensures k >= 1
  {
    if c >= n then 1 else if c == 0 then 1 else (n + c - 1) / c
  }

  /** The sensors in packet number `k`. */
  function ChunkSize(n: nat, c: nat, k: nat): (size: nat)
    requires k >= 1
    ensures size <= c && (size > 0 ==> c * (k - 1) + size <= n)
  {
    Span(n, c * (k - 1), c)
  }

  function HuffmanFirst(m: Measurements, d: seq<int16>, c: nat): seq<byte>
    requires |d| <= |m.temperature| && c <= |m.temperature|
  {
    FirstHeader(m, HUFF_1, SampleBits(d)) + Compressed(DiffHeader(m) + ChunkBytes(m, d, 0, c)).value
  }

  function HuffmanSecond(m: Measurements, d: seq<int16>, c: nat, k: nat): Result<seq<byte>>
    requires |d| <= |m.temperature| && k >= 2
  {
    var z := Compressed(ChunkBytes(m, d, c * (k - 1), ChunkSize(|m.temperature|, c, k)));
    if z.Err? then Err(z.error) else Ok(SecondHeader(m, HUFF_2, k % 256) + z.value)
  }

  /** The packets 1 to `k`. */
  function Chunks(m: Measurements, d: seq<int16>, c: nat, k: nat): (r: Result<seq<seq<byte>>>)
    requires |d| <= |m.temperature| && c <= |m.temperature| && k >= 1
    ensures r.Ok? ==> |r.value| == k
  {
    if k == 1 then Ok([HuffmanFirst(m, d, c)])
    else
      var before := Chunks(m, d, c, k - 1);
      if before.Err? then before
      else
        var last := HuffmanSecond(m, d, c, k);
        if last.Err? then Err(last.error) else Ok(before.value + [last.value])
  }

  function AllChunks(m: Measurements, d: seq<int16>, c: nat): Result<seq<seq<byte>>>
    requires |d| <= |m.temperature| && c <= |m.temperature|
  {
    Chunks(m, d, c, PacketTotal(|m.temperature|, c))
  }

  function MaxSize(ps: seq<seq<byte>>): nat {
    if ps == [] then 0
    else
      var before, last := MaxSize(ps[..|ps| - 1]), |ps[|ps| - 1]|;
      if last > before then last else before
  }

  /** Halve the chunk until the packets fit, starting with `c` sensors in a packet. */
  function Halved(m: Measurements, d: seq<int16>, c: nat): Result<seq<seq<byte>>>
    requires |d| <= |m.temperature| && c <= |m.temperature|
    decreases c
  {
    var r := AllChunks(m, d, c);
    if r.Err? || MaxSize(r.value) <= MAX_PACKET || c / 2 == 0 then r else Halved(m, d, c / 2)
  }

  function HuffmanPackets(m: Measurements, baseTemperature: seq<real>): Result<seq<seq<byte>>> {
    Halved(m, Deltas(m.temperature, baseTemperature), |m.temperature|)
  }

  // ------------------------------------------------------------------ the loops

  lemma ZeroSample(dataBytes: Width)
    ensures Sample(0, dataBytes) == ZeroBytes(Times(1, dataBytes))
  {
  }

  lemma {:induction false} SamplesOfPadded(d: seq<int16>, n: nat, from: nat, count: nat, dataBytes: Width)
    requires |d| <= n && from + count <= n
    ensures var written := Span(|d|, from, count);
            && Times(written, dataBytes) <= Times(count, dataBytes)
            && Samples(Padded(d, n), from, count, dataBytes)
               == Samples(d, from, written, dataBytes)
                  + ZeroBytes(Times(count, dataBytes) - Times(written, dataBytes))
  {
    hide Sample, Samples, Times;
    SamplesStep(Padded(d, n), from, 0, dataBytes);
    SamplesStep(d, from, 0, dataBytes);
    if count > 0 {
      SamplesStep(Padded(d, n), from, count - 1, dataBytes);
      SamplesStep(d, from, count - 1, dataBytes);
      SamplesOfPadded(d, n, from, count - 1, dataBytes);
      if from + count <= |d| {
        assert Span(|d|, from, count) == count && Span(|d|, from, count - 1) == count - 1;
      } else {
        ZeroSample(dataBytes);
        assert Span(|d|, from, count) == Span(|d|, from, count - 1);
      }
    }
  }

  /** Keep the packet header and compress what follows it. */
  method CompressAfter(packet: seq<byte>, size: nat, ghost data: seq<byte>, ghost header: seq<byte>)
    returns (r: seq<byte>)
    requires |header| == size && packet == header + data && |data| >= 2
    ensures r == header + Compressed(data).value
  {
    assert packet[size..] == data && packet[..size] == header;
    var z := CompressLogger(packet[size..]);
    r := packet[..size] + z.value;
  }

  lemma OverTimes(c: nat, dataBytes: Width)
    ensures Over(Times(c, dataBytes), dataBytes) == c
  {
  }

  method BuildHuffmanFirst(m: Measurements, d: seq<int16>, bitsPerSample: nat, c: nat) returns (packet: seq<byte>)
    requires |d| <= |m.temperature| && c <= |m.temperature| && bitsPerSample == SampleBits(d)
    ensures packet == HuffmanFirst(m, d, c)
  {
    hide FirstHeader, DiffHeader, SampleBits, Samples, Times, Padded;
    var dataBytes := BytesForBits(bitsPerSample);
    var size := Times(c, dataBytes);
    ghost var header := FirstHeader(m, HUFF_1, bitsPerSample) + DiffHeader(m);
    var first := new byte[FIRST_HDR + HDR_DIFF + size](_ => 0);
    SetFirstHeader(first, m, HUFF_1, bitsPerSample);
    WriteStruct(first, FIRST_HDR, DiffHeader(m));
    assert first[..] == header + ZeroBytes(size);
    OverTimes(c, dataBytes);
    var written := SetDeltaMeasurementsDataFirstPacket(first, FIRST_HDR + HDR_DIFF, d, dataBytes, size,
                                                       header, ZeroBytes(size));
    SamplesOfPadded(d, |m.temperature|, 0, c, dataBytes);
    ghost var data := ChunkBytes(m, d, 0, c);
    assert first[..] == header + data;
    packet := CompressAfter(first[..], FIRST_HDR, DiffHeader(m) + data, FirstHeader(m, HUFF_1, bitsPerSample));
  }

  lemma OffsetOfChunk(c: nat, k: nat, dataBytes: Width)
    ensures Over(Times(c, dataBytes) + k * Times(c, dataBytes), dataBytes) == c * (k + 1)
  {
    if dataBytes == 2 {
      assert 2 * c + k * (2 * c) == 2 * (c * (k + 1));
    }
  }

  method BuildHuffmanSecond(m: Measurements, d: seq<int16>, dataBytes: Width, c: nat, ofs: nat, packetNo: nat)
    returns (packet: Result<seq<byte>>)
    requires |d| <= |m.temperature| && dataBytes == SampleBytes(d)
    requires packetNo >= 2 && ofs == c * (packetNo - 1) < |m.temperature|
    ensures packet == HuffmanSecond(m, d, c, packetNo)
  {
    hide SecondHeader, SampleBits, Samples, Times, Over, Padded, Compressed;
    var measurementCount := |m.temperature|;
    var mc;
    if ofs + c > measurementCount {
      mc := measurementCount - ofs;
    } else {
      mc := c;
    }
    assert mc == ChunkSize(measurementCount, c, packetNo);
    var size := Times(mc, dataBytes);
    ghost var header := SecondHeader(m, HUFF_2, packetNo % 256);
    var second := new byte[SECOND_HDR + size](_ => 0);
    SetSecondHeader(second, m, HUFF_2, packetNo % 256);
    assert second[..] == header + ZeroBytes(size);
    OffsetOfChunk(c, packetNo - 2, dataBytes);
    OverTimes(c, dataBytes);
    SamplesOfPadded(d, measurementCount, ofs, mc, dataBytes);
    assert Span(|d|, ofs, c) == Span(|d|, ofs, mc);
    var written := SetDeltaMeasurementsData(second, SECOND_HDR, d, packetNo - 2, dataBytes,
                                            Times(c, dataBytes), Times(c, dataBytes), header, ZeroBytes(size));
    assert second[..] == header + ChunkBytes(m, d, ofs, mc);
    assert second[SECOND_HDR..] == ChunkBytes(m, d, ofs, mc);
    var z := CompressLogger(second[SECOND_HDR..]);
    if z.Err? {
      return Err(z.error);
    }
    packet := Ok(second[..SECOND_HDR] + z.value);
  }

  lemma MaxSizeOfOne(p: seq<byte>)
    ensures MaxSize([p]) == |p|
  {
    assert [p][..0] == [];
  }

  lemma {:induction false} FailureStays(m: Measurements, d: seq<int16>, c: nat, k: nat, total: nat)
    requires |d| <= |m.temperature| && c <= |m.temperature| && 1 <= k <= total
    requires Chunks(m, d, c, k).Err?
    ensures Chunks(m, d, c, total) == Chunks(m, d, c, k)
  {
    hide HuffmanFirst, HuffmanSecond;
    if k < total {
      FailureStays(m, d, c, k, total - 1);
    }
  }

  lemma Scale(c: nat, a: nat, b: nat)
    requires a <= b
    ensures c * a <= c * b
  {
  }

  lemma TotalCovers(n: nat, c: nat)
    requires 0 < c < n
    ensures c * (PacketTotal(n, c) - 1) < n <= c * PacketTotal(n, c)
    ensures n + c <= c * (PacketTotal(n, c) + 1)
  {
    var q := (n + c - 1) / c;
    assert n + c - 1 == c * q + (n + c - 1) % c;
    assert c * (q - 1) == c * q - c && c * (q + 1) == c * q + c;
  }

  /** A packet whose first sensor exists is one of the packets. */
  lemma LaterPackets(n: nat, c: nat, k: nat)
    requires 0 < c < n && k >= 1 && c * (k - 1) < n
    ensures k <= PacketTotal(n, c)
  {
    var t := PacketTotal(n, c);
    TotalCovers(n, c);
    if k > t {
      Scale(c, t, k - 1);
    }
  }

  lemma TotalReached(n: nat, c: nat, k: nat)
    requires 0 < c < n && k >= 2 && n <= c * (k - 1) < n + c
    ensures k - 1 == PacketTotal(n, c)
  {
    var t := PacketTotal(n, c);
    TotalCovers(n, c);
    if k - 1 < t {
      Scale(c, k - 1, t - 1);
    } else if k - 1 > t {
      Scale(c, t + 1, k - 1);
    }
  }

  method BuildHuffmanChunk(m: Measurements, baseTemperature: seq<real>, firstCount: nat, otherCount: nat)
    returns (packets: Result<seq<seq<byte>>>, maxSize: nat)
    requires AllCastable(m.temperature) && AllCastable(baseTemperature)
    requires firstCount <= |m.temperature|
    requires if otherCount == 0 then firstCount == |m.temperature| else otherCount == firstCount < |m.temperature|
    ensures packets == AllChunks(m, Deltas(m.temperature, baseTemperature), firstCount)
    ensures packets.Ok? ==> maxSize == MaxSize(packets.value)
  {
    hide HuffmanFirst, HuffmanSecond, MaxDiff, SampleBits, Delta;
    var d, bitsPerSample := CalcDeltas(m.temperature, baseTemperature);
    var dataBytes := BytesForBits(bitsPerSample);
    var first := BuildHuffmanFirst(m, d, bitsPerSample, firstCount);
    maxSize := |first|;
    var all := [first];
    MaxSizeOfOne(first);
    if otherCount <= 0 {
      return Ok(all), maxSize;
    }
    var ofs := firstCount;
    var measurementCount := |m.temperature|;
    var packetNo := 2;
    while ofs < measurementCount
      invariant packetNo >= 2 && ofs == firstCount * (packetNo - 1) && ofs < measurementCount + firstCount
      invariant Chunks(m, d, firstCount, packetNo - 1) == Ok(all) && maxSize == MaxSize(all)
      decreases measurementCount + firstCount - ofs
    {
      LaterPackets(measurementCount, firstCount, packetNo);
      var second := BuildHuffmanSecond(m, d, dataBytes, otherCount, ofs, packetNo);
      if second.Err? {
        FailureStays(m, d, firstCount, packetNo, PacketTotal(measurementCount, firstCount));
        return Err(second.error), 0;
      }
      if |second.value| > maxSize {
        maxSize := |second.value|;
      }
      assert (all + [second.value])[..|all|] == all;
      all := all + [second.value];
      packetNo := packetNo + 1;
      ofs := ofs + otherCount;
    }
    TotalReached(measurementCount, firstCount, packetNo);
    packets := Ok(all);
  }

  method BuildHuffman(m: Measurements, baseTemperature: seq<real>) returns (packets: Result<seq<seq<byte>>>)
    requires AllCastable(m.temperature) && AllCastable(baseTemperature)
    ensures packets == HuffmanPackets(m, baseTemperature)
  {
    hide AllChunks, Deltas, MaxSize;
    var sz1: nat := |m.temperature|;
    var sz2: nat := 0;
    ghost var d := Deltas(m.temperature, baseTemperature);
    while true
      invariant sz1 <= |m.temperature|
      invariant if sz2 == 0 then sz1 == |m.temperature| else sz2 == sz1 < |m.temperature|
      invariant HuffmanPackets(m, baseTemperature) == Halved(m, d, sz1)
      decreases sz1
    {
      var maxPacketSize;
      packets, maxPacketSize := BuildHuffmanChunk(m, baseTemperature, sz1, sz2);
      if packets.Err? {
        break;
      }
      if maxPacketSize <= 24 {
        break;
      }
      if sz1 / 2 == 0 {
        break;
      }
      sz1 := sz1 / 2;
      sz2 := sz1;
    }
  }
}
