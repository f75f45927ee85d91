/** Halving ends with packets that fit, and for which measurements and numbers of sensors it is defined. */
module HuffmanLimits {
  import opened Bits
  import opened Huffman
  import opened HuffmanLaws
  import opened HuffmanCodec
  import opened Temperature
  import opened Packets
  import opened DeltaWidth
  import opened DeltaBuilder
  import opened HuffmanBuilder
  import opened HuffmanReading

  /** The chunk size at which `Halved` stops. */
  function Chosen(m: Measurements, d: seq<int16>, c: nat): (r: nat)
    requires |d| <= |m.temperature| && c <= |m.temperature|
    ensures r <= c
    decreases c
  {
    var r := AllChunks(m, d, c);
    if r.Err? || MaxSize(r.value) <= MAX_PACKET || c / 2 == 0 then c else Chosen(m, d, c / 2)
  }

  lemma {:induction false} HalvedStops(m: Measurements, d: seq<int16>, c: nat)
    requires |d| <= |m.temperature| && c <= |m.temperature|
    ensures Halved(m, d, c) == AllChunks(m, d, Chosen(m, d, c))
    decreases c
  {
    hide AllChunks, MaxSize;
    var r := AllChunks(m, d, c);
    if !(r.Err? || MaxSize(r.value) <= MAX_PACKET || c / 2 == 0) {
      HalvedStops(m, d, c / 2);
    }
  }

  // ------------------------------------------------------------- packet sizes

  lemma {:induction false} EncodedZeros(n: nat)
    ensures |Encoded(ZeroBytes(n))| == n
  {
    if n > 0 {
      EncodedZeros(n - 1);
      assert ZeroBytes(n)[..n - 1] == ZeroBytes(n - 1);
      CodeLength(0);
    }
  }

  /** The header after its two verbatim bytes takes at most 35 bits. */
  lemma HeaderBits(m: Measurements)
    ensures |Encoded(DiffHeader(m)[2..])| <= 35
  {
    var varying := [10, m.kosa, m.kosaYear];
    assert DiffHeader(m)[2..] == varying + ZeroBytes(5);
    EncodedAppend(varying, ZeroBytes(5));
    EncodedSize(varying);
    EncodedZeros(5);
  }

  lemma CompressedSize(data: seq<byte>)
    requires |data| >= 2
    ensures Compressed(data).Ok?
    ensures |Compressed(data).value| == 2 + (|Encoded(data[2..])| + 7) / 8
  {
    UnpackEncoded(data[2..]);
  }

  /** The first packet is ten bytes and at most 35 bits for the header and ten bits for each byte of samples. */
  lemma FirstSize(m: Measurements, d: seq<int16>, c: nat)
    requires |d| <= |m.temperature| && c <= |m.temperature|
    ensures |HuffmanFirst(m, d, c)| <= 10 + (35 + 10 * Times(c, SampleBytes(d)) + 7) / 8
  {
    hide Encoded, FirstHeader, DiffHeader, Compressed, SampleBytes, SampleBits, Samples, Times;
    var h, data := DiffHeader(m), ChunkBytes(m, d, 0, c);
    CompressedSize(h + data);
    assert (h + data)[2..] == h[2..] + data;
    EncodedAppend(h[2..], data);
    HeaderBits(m);
    EncodedSize(data);
  }

  lemma SecondSize(m: Measurements, d: seq<int16>, c: nat, k: nat)
    requires |d| <= |m.temperature| && k >= 2
    ensures var bytes := Times(ChunkSize(|m.temperature|, c, k), SampleBytes(d));
            && (HuffmanSecond(m, d, c, k).Ok? <==> bytes >= 2)
            && (bytes >= 2 ==> |HuffmanSecond(m, d, c, k).value| <= 6 + (10 * (bytes - 2) + 7) / 8)
  {
    hide Encoded, SecondHeader, SampleBytes, Samples, EncodedBytes;
    var data := ChunkBytes(m, d, c * (k - 1), ChunkSize(|m.temperature|, c, k));
    if |data| >= 2 {
      CompressedSize(data);
      EncodedSize(data[2..]);
    }
  }

  lemma SpanAtMost(n: nat, c: nat, k: nat, dataBytes: Width)
    requires k >= 1
    ensures Times(ChunkSize(n, c, k), dataBytes) <= Times(c, dataBytes)
  {
  }

  /** Chunks of at most seven bytes always fit. */
  lemma {:induction false} SmallChunksFit(m: Measurements, d: seq<int16>, c: nat, k: nat)
    requires |d| <= |m.temperature| && c <= |m.temperature| && k >= 1
    requires Times(c, SampleBytes(d)) <= 7 && Chunks(m, d, c, k).Ok?
    ensures MaxSize(Chunks(m, d, c, k).value) <= MAX_PACKET
  {
    hide HuffmanFirst, HuffmanSecond, SampleBytes, Times, ChunkSize;
    if k == 1 {
      FirstSize(m, d, c);
      MaxSizeOfOne(HuffmanFirst(m, d, c));
    } else {
      SmallChunksFit(m, d, c, k - 1);
      SecondSize(m, d, c, k);
      SpanAtMost(|m.temperature|, c, k, SampleBytes(d));
      var before := Chunks(m, d, c, k - 1).value;
      assert Chunks(m, d, c, k).value[..k - 1] == before;
    }
  }

  /** Halving stops before a chunk of one sensor is tried, and then the packets fit. */
  lemma {:induction false} ChosenFits(m: Measurements, d: seq<int16>, c: nat)
    requires |d| <= |m.temperature| && c <= |m.temperature|
    ensures var r := Chosen(m, d, c);
            && (AllChunks(m, d, r).Ok? ==> MaxSize(AllChunks(m, d, r).value) <= MAX_PACKET)
            && (r >= 2 || r == c) && (r == 0 <==> c == 0)
    decreases c
  {
    hide MaxSize, Chunks, SampleBytes;
    var r := AllChunks(m, d, c);
    if r.Ok? && MaxSize(r.value) > MAX_PACKET {
      if c <= 3 {
        SmallChunksFit(m, d, c, PacketTotal(|m.temperature|, c));
      } else {
        ChosenFits(m, d, c / 2);
      }
    }
  }

  lemma {:induction false} MaxSizeAtMost(ps: seq<seq<byte>>, bound: nat)
    ensures MaxSize(ps) <= bound <==> forall i :: 0 <= i < |ps| ==> |ps[i]| <= bound
  {
    if ps != [] {
      MaxSizeAtMost(ps[..|ps| - 1], bound);
      assert forall i :: 0 <= i < |ps| - 1 ==> ps[..|ps| - 1][i] == ps[i];
    }
  }

  /** Every packet that the Huffman builder makes is at most 24 bytes long. */
  lemma PacketsFit(m: Measurements, baseTemperature: seq<real>, i: nat)
    requires HuffmanPackets(m, baseTemperature).Ok? && i < |HuffmanPackets(m, baseTemperature).value|
    ensures |HuffmanPackets(m, baseTemperature).value[i]| <= 24
  {
    hide Deltas, AllChunks, Chosen, Halved;
    var d := Deltas(m.temperature, baseTemperature);
    HalvedStops(m, d, |m.temperature|);
    ChosenFits(m, d, |m.temperature|);
    MaxSizeAtMost(HuffmanPackets(m, baseTemperature).value, MAX_PACKET);
  }

  // ------------------------------------------------------------- definedness

  /** The last chunk is a single byte. */
  predicate OneByteTail(n: nat, c: nat, dataBytes: Width) {
    dataBytes == 1 && 2 <= c < n && n % c == 1
  }

  lemma {:induction false} DefinedUpTo(m: Measurements, d: seq<int16>, c: nat, k: nat)
    requires |d| <= |m.temperature| && 2 <= c <= |m.temperature| && 1 <= k <= PacketTotal(|m.temperature|, c)
    ensures Chunks(m, d, c, k).Ok?
            <==> k == 1 || k < PacketTotal(|m.temperature|, c)
                 || Times(ChunkSize(|m.temperature|, c, k), SampleBytes(d)) >= 2
  {
    hide HuffmanFirst, HuffmanSecond, SampleBytes, ChunkSize, PacketTotal;
    if k > 1 {
      DefinedUpTo(m, d, c, k - 1);
      SecondSize(m, d, c, k);
      if k < PacketTotal(|m.temperature|, c) {
        FullChunk(|m.temperature|, c, k);
      }
    }
  }

  lemma LastChunkSize(n: nat, c: nat)
    requires 2 <= c < n
    ensures ChunkSize(n, c, PacketTotal(n, c)) == 1 <==> n % c == 1
    ensures ChunkSize(n, c, PacketTotal(n, c)) >= 1 && PacketTotal(n, c) >= 2
  {
    LastChunk(n, c);
    var t := PacketTotal(n, c);
    var last := ChunkSize(n, c, t);
    assert n == c * (t - 1) + last;
    if last < c {
      Remainder(n, c, t - 1, last);
    } else {
      assert c * (t - 1) + c == c * t;
      Remainder(n, c, t, 0);
    }
    TotalCovers(n, c);
    Scale(c, t, if t <= 1 then 1 else t);
  }

  lemma OneChunk(m: Measurements, d: seq<int16>, c: nat)
    requires |d| <= |m.temperature| && c <= |m.temperature|
    ensures Chunks(m, d, c, 1).Ok?
  {
  }

  lemma AllDefined(m: Measurements, d: seq<int16>, c: nat)
    requires |d| <= |m.temperature| && c <= |m.temperature| && (c == |m.temperature| || c >= 2)
    ensures AllChunks(m, d, c).Ok? <==> !OneByteTail(|m.temperature|, c, SampleBytes(d))
  {
    hide SampleBytes, Chunks;
    var n := |m.temperature|;
    if 2 <= c < n {
      LastChunkSize(n, c);
      DefinedUpTo(m, d, c, PacketTotal(n, c));
    } else {
      assert PacketTotal(n, c) == 1;
      OneChunk(m, d, c);
    }
  }

  /** The bits that are encoded in packet `k`: what follows the packet header and two verbatim bytes. */
  function EncodedBits(m: Measurements, d: seq<int16>, c: nat, k: nat): nat
    requires |d| <= |m.temperature| && c <= |m.temperature| && k >= 1
  {
    if k == 1 then |Encoded(DiffHeader(m)[2..] + ChunkBytes(m, d, 0, c))|
    else
      var data := ChunkBytes(m, d, c * (k - 1), ChunkSize(|m.temperature|, c, k));
      if |data| < 2 then 0 else |Encoded(data[2..])|
  }

  /** Fourteen bytes are left in the first packet, eighteen in the others. */
  predicate FitsAt(m: Measurements, d: seq<int16>, c: nat)
    requires |d| <= |m.temperature| && c <= |m.temperature|
  {
    && EncodedBits(m, d, c, 1) <= 112
    && forall k :: 2 <= k <= PacketTotal(|m.temperature|, c) ==> EncodedBits(m, d, c, k) <= 144
  }

  lemma SizeOfFirst(m: Measurements, d: seq<int16>, c: nat)
    requires |d| <= |m.temperature| && c <= |m.temperature|
    ensures |HuffmanFirst(m, d, c)| == 10 + (EncodedBits(m, d, c, 1) + 7) / 8
  {
    hide Encoded, FirstHeader, DiffHeader, Compressed, ChunkBytes;
    var h, data := DiffHeader(m), ChunkBytes(m, d, 0, c);
    CompressedSize(h + data);
    assert (h + data)[2..] == h[2..] + data;
  }

  lemma SizeOfSecond(m: Measurements, d: seq<int16>, c: nat, k: nat)
    requires |d| <= |m.temperature| && c <= |m.temperature| && k >= 2 && HuffmanSecond(m, d, c, k).Ok?
    ensures |HuffmanSecond(m, d, c, k).value| == 6 + (EncodedBits(m, d, c, k) + 7) / 8
  {
    hide Encoded, SecondHeader, ChunkBytes, EncodedBytes, SampleBytes, Times;
    CompressedSize(ChunkBytes(m, d, c * (k - 1), ChunkSize(|m.temperature|, c, k)));
  }

  lemma FitsIs(m: Measurements, d: seq<int16>, c: nat)
    requires |d| <= |m.temperature| && c <= |m.temperature| && AllChunks(m, d, c).Ok?
    ensures MaxSize(AllChunks(m, d, c).value) <= MAX_PACKET <==> FitsAt(m, d, c)
  {
    hide HuffmanFirst, HuffmanSecond, EncodedBits, Chunks, MaxSize, PacketTotal;
    var t, ps := PacketTotal(|m.temperature|, c), AllChunks(m, d, c).value;
    MaxSizeAtMost(ps, MAX_PACKET);
    SizeOfFirst(m, d, c);
    ChunksAt(m, d, c, t, 1);
    forall k | 2 <= k <= t
      ensures |ps[k - 1]| <= MAX_PACKET <==> EncodedBits(m, d, c, k) <= 144
    {
      ChunksAt(m, d, c, t, k);
      SizeOfSecond(m, d, c, k);
    }
    if FitsAt(m, d, c) {
      forall i | 0 <= i < |ps|
        ensures |ps[i]| <= MAX_PACKET
      {
        if i > 0 {
          assert EncodedBits(m, d, c, i + 1) <= 144;
        }
      }
    }
  }

  /** Some halving of `c` leaves one byte over, and no larger one fits. */
  predicate LeavesByte(m: Measurements, d: seq<int16>, c: nat)
    requires |d| <= |m.temperature| && c <= |m.temperature|
    decreases c
  {
    || OneByteTail(|m.temperature|, c, SampleBytes(d))
    || (!FitsAt(m, d, c) && c / 2 > 0 && LeavesByte(m, d, c / 2))
  }

  lemma AllChunksSmall(m: Measurements, d: seq<int16>, c: nat)
    requires |d| <= |m.temperature| && c <= |m.temperature| && c <= 3
    ensures AllChunks(m, d, c).Ok? ==> MaxSize(AllChunks(m, d, c).value) <= MAX_PACKET
  {
    hide SampleBytes, MaxSize, Chunks;
    if AllChunks(m, d, c).Ok? {
      SmallChunksFit(m, d, c, PacketTotal(|m.temperature|, c));
    }
  }

  lemma {:induction false} HalvedDefined(m: Measurements, d: seq<int16>, c: nat)
    requires |d| <= |m.temperature| && c <= |m.temperature| && (c == |m.temperature| || c >= 2)
    ensures Halved(m, d, c).Err? <==> LeavesByte(m, d, c)
    decreases c
  {
    hide AllChunks, MaxSize, SampleBytes, FitsAt, OneByteTail;
    AllDefined(m, d, c);
    if AllChunks(m, d, c).Ok? {
      FitsIs(m, d, c);
      if c <= 3 {
        AllChunksSmall(m, d, c);
      } else {
        HalvedDefined(m, d, c / 2);
      }
    }
  }

  /**
   The builder reads past the end of a chunk exactly if, in the halvings of the number of sensors, one that leaves a
   single byte over comes before one whose encoded bits fit.
   */
  lemma HuffmanDefined(m: Measurements, baseTemperature: seq<real>)
    ensures HuffmanPackets(m, baseTemperature).Err?
            <==> LeavesByte(m, Deltas(m.temperature, baseTemperature), |m.temperature|)
  {
    hide Deltas, Halved, LeavesByte;
    HalvedDefined(m, Deltas(m.temperature, baseTemperature), |m.temperature|);
  }

  // ---------------------------------------------- numbers of sensors that are safe

  /** No halving of `c` that can be tried leaves one over. */
  predicate SafeFrom(n: nat, c: nat)
    decreases c
  {
    c <= 7 || (n % (c / 2) != 1 && SafeFrom(n, c / 2))
  }

  lemma SevenFit(m: Measurements, d: seq<int16>, c: nat)
    requires |d| <= |m.temperature| && c <= |m.temperature| && c <= 7 && SampleBytes(d) == 1
    requires AllChunks(m, d, c).Ok?
    ensures FitsAt(m, d, c)
  {
    hide SampleBytes, MaxSize, Chunks, FitsAt;
    SmallChunksFit(m, d, c, PacketTotal(|m.temperature|, c));
    FitsIs(m, d, c);
  }

  lemma {:induction false} WideIsDefined(m: Measurements, d: seq<int16>, c: nat)
    requires |d| <= |m.temperature| && c <= |m.temperature| && SampleBytes(d) == 2
    ensures !LeavesByte(m, d, c)
    decreases c
  {
    hide SampleBytes, FitsAt;
    if c / 2 > 0 {
      WideIsDefined(m, d, c / 2);
    }
  }

  lemma {:induction false} SafeIsDefined(m: Measurements, d: seq<int16>, c: nat)
    requires |d| <= |m.temperature| && c <= |m.temperature| && SafeFrom(|m.temperature|, c)
    requires c == |m.temperature| || (c >= 2 && |m.temperature| % c != 1)
    ensures !LeavesByte(m, d, c)
    decreases c
  {
    hide SampleBytes, AllChunks, FitsAt;
    if SampleBytes(d) == 2 {
      WideIsDefined(m, d, c);
    } else if c <= 7 {
      AllDefined(m, d, c);
      SevenFit(m, d, c);
    } else {
      SafeIsDefined(m, d, c / 2);
    }
  }

  // ------------------------------------------------------------ where it fails

  lemma {:induction false} LiteralSamples(d: seq<int16>, from: nat, count: nat)
    requires count > 0 ==> from + count <= |d|
    requires forall i :: 0 <= i < |d| ==> !InTable(d[i] % 256)
    ensures |Encoded(Samples(d, from, count, 1))| == 10 * count
  {
    if count > 0 {
      LiteralSamples(d, from, count - 1);
      var x := d[from + count - 1] % 256;
      EncodedAppend(Samples(d, from, count - 1, 1), [x]);
      assert Encoded([x]) == Code(x) by { assert [x][..0] == []; }
      CodeLength(x);
    }
  }

  lemma TenIsLiteral()
    ensures !InTable(10)
  {
  }

  /** A header with plume and year outside the table takes its 35 bits. */
  lemma LiteralHeader(m: Measurements)
    requires !InTable(m.kosa) && !InTable(m.kosaYear)
    ensures |Encoded(DiffHeader(m)[2..])| == 35
  {
    hide Code, InTable;
    var varying := [10, m.kosa, m.kosaYear];
    assert DiffHeader(m)[2..] == varying + ZeroBytes(5);
    EncodedAppend(varying, ZeroBytes(5));
    EncodedZeros(5);
    CodeLength(10);
    CodeLength(m.kosa);
    CodeLength(m.kosaYear);
    assert !InTable(10) by { TenIsLiteral(); }
    EncodedNothing();
    EncodedSnoc([], 10);
    EncodedSnoc([10], m.kosa);
    EncodedSnoc([10, m.kosa], m.kosaYear);
    assert [] + [10] == [10] && [10] + [m.kosa] == [10, m.kosa] && [10, m.kosa] + [m.kosaYear] == varying;
  }

  /** Everything that varies is outside the table, and samples are single bytes. */
  predicate Literal(m: Measurements, d: seq<int16>) {
    && !InTable(m.kosa) && !InTable(m.kosaYear)
    && |d| == |m.temperature| && SampleBytes(d) == 1
    && forall i :: 0 <= i < |d| ==> !InTable(d[i] % 256)
  }

  lemma LiteralDoesNotFit(m: Measurements, d: seq<int16>, c: nat)
    requires Literal(m, d) && 8 <= c <= |m.temperature|
    ensures !FitsAt(m, d, c)
  {
    hide SampleBytes, Samples, Encoded, DiffHeader, InTable;
    assert Padded(d, |m.temperature|) == d;
    LiteralHeader(m);
    LiteralSamples(d, 0, c);
    EncodedAppend(DiffHeader(m)[2..], ChunkBytes(m, d, 0, c));
  }

  lemma LiteralWidth(m: Measurements, d: seq<int16>)
    requires Literal(m, d)
    ensures SampleBytes(d) == 1 && |d| == |m.temperature|
  {
  }

  lemma {:induction false} UnsafeLeavesByte(m: Measurements, d: seq<int16>, c: nat)
    requires Literal(m, d) && c <= |m.temperature| && !SafeFrom(|m.temperature|, c)
    ensures LeavesByte(m, d, c)
    decreases c
  {
    hide Literal, FitsAt;
    LiteralDoesNotFit(m, d, c);
    assert SampleBytes(d) == 1 && |d| == |m.temperature| by { LiteralWidth(m, d); }
    if |m.temperature| % (c / 2) != 1 {
      UnsafeLeavesByte(m, d, c / 2);
    }
  }

  /** Sensors that are all 6.25 degrees above their base, on a plume outside the table. */
  function Worst(n: nat): (m: Measurements)
    ensures |m.temperature| == n
  {
    Measurements(Stamp(0, 0, 0, 1, 1, 20), 0, 0, 1, 100, 20, seq(n, i => 6.25))
  }

  function NoDegrees(n: nat): (base: seq<real>)
    ensures |base| == n && forall i :: 0 <= i < n ==> base[i] == 0.0
  {
    seq(n, i => 0.0)
  }

  lemma WorstFails(n: nat)
    requires !SafeFrom(n, n)
    ensures HuffmanPackets(Worst(n), NoDegrees(n)).Err?
  {
    hide HuffmanPackets, LeavesByte, SampleBytes;
    var m := Worst(n);
    var d := Deltas(m.temperature, NoDegrees(n));
    assert forall i :: 0 <= i < n ==> d[i] == 100;
    WidthRule(d);
    UnsafeLeavesByte(m, d, n);
    HuffmanDefined(m, NoDegrees(n));
  }

  /** All measurements of `n` sensors are encoded, whatever their base, exactly if no halving leaves one over. */
  lemma SafeCounts(n: nat)
    ensures SafeFrom(n, n)
            <==> forall m: Measurements, base: seq<real> :: |m.temperature| == n ==> HuffmanPackets(m, base).Ok?
  {
    hide HuffmanPackets, LeavesByte, SafeFrom, Worst;
    if SafeFrom(n, n) {
      forall m: Measurements, base: seq<real> | |m.temperature| == n
        ensures HuffmanPackets(m, base).Ok?
      {
        HuffmanDefined(m, base);
        SafeIsDefined(m, Deltas(m.temperature, base), n);
      }
    } else {
      WorstFails(n);
      assert HuffmanPackets(Worst(n), NoDegrees(n)).Err?;
    }
  }

  /** For example 28 sensors are safe, and 27 are not. */
  lemma TwentyEightSensors(m: Measurements, base: seq<real>)
    requires |m.temperature| == 28
    ensures HuffmanPackets(m, base).Ok? && HuffmanPackets(Worst(27), NoDegrees(27)).Err?
  {
    hide HuffmanPackets;
    assert SafeFrom(28, 7) && SafeFrom(28, 14) && SafeFrom(28, 28) && !SafeFrom(27, 27);
    SafeCounts(28);
    WorstFails(27);
  }
}
