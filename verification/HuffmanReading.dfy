/** Huffman encoded delta packets in any order give back the stored temperatures. */
module HuffmanReading {
  import opened Wrappers
  import opened Bits
  import opened Temperature
  import opened Packets
  import opened BaseBuilder
  import opened DeltaWidth
  import opened DeltaBuilder
  import opened HuffmanBuilder
  import opened HuffmanCodec
  import opened Readings
  import opened Assembly
  import opened BaseReading
  import opened NarrowReading
  import opened DeltaReading
  import opened HuffmanOffsets

  // ------------------------------------------------------ the packets of a chunk size

  lemma {:induction false} ChunksAt(m: Measurements, d: seq<int16>, c: nat, k: nat, j: nat)
    requires |d| <= |m.temperature| && c <= |m.temperature| && 1 <= j <= k && Chunks(m, d, c, k).Ok?
    ensures var ps := Chunks(m, d, c, k).value;
            |ps| == k && ps[0] == HuffmanFirst(m, d, c)
            && (j >= 2 ==> HuffmanSecond(m, d, c, j) == Ok(ps[j - 1]))
  {
    hide HuffmanFirst, HuffmanSecond;
    if k > 1 {
      ChunksAt(m, d, c, k - 1, if j == k then 1 else j);
    }
  }

  /** What a later packet decompresses to. */
  function ChunkOf(m: Measurements, d: seq<int16>, c: nat, j: nat): seq<byte>
    requires |d| <= |m.temperature| && j >= 1
  {
    ChunkBytes(m, d, c * (j - 1), ChunkSize(|m.temperature|, c, j))
  }

  lemma FirstUnzips(m: Measurements, d: seq<int16>, c: nat, p: seq<byte>)
    requires |d| <= |m.temperature| && c <= |m.temperature| && p == HuffmanFirst(m, d, c)
    ensures PacketType(p) == HUFF_1 && HasFirstHeader(p) && DataBits(p) == SampleBits(d) && Readable(p)
    ensures Unzipped(p, FIRST_HDR)
            == FirstHeader(m, HUFF_1, SampleBits(d)) + DiffHeader(m) + ChunkBytes(m, d, 0, c)
    ensures SampleSize(p) == Times(c, SampleBytes(d))
  {
    hide FirstHeader, DiffHeader, SampleBits, ChunkBytes, Compressed, Decompressed;
    var h, data := FirstHeader(m, HUFF_1, SampleBits(d)), DiffHeader(m) + ChunkBytes(m, d, 0, c);
    CompressionRoundTrip(data);
    var z := Compressed(data).value;
    assert p == h + z && p[..FIRST_HDR] == h && p[FIRST_HDR..] == z;
    FirstHeaderFields(m, HUFF_1, SampleBits(d), z);
  }

  lemma SecondUnzips(m: Measurements, d: seq<int16>, c: nat, j: nat, p: seq<byte>)
    requires |d| <= |m.temperature| && 2 <= j < 256 && HuffmanSecond(m, d, c, j) == Ok(p)
    ensures PacketType(p) == HUFF_2 && MeasuredType(p) == HUFF_2 && HasSecondHeader(p)
    ensures PacketNumber(p) == j && Readable(p)
    ensures Unzipped(p, SECOND_HDR) == SecondHeader(m, HUFF_2, j) + ChunkOf(m, d, c, j)
    ensures SampleSize(p) == |ChunkOf(m, d, c, j)|
  {
    hide SecondHeader, SampleBits, ChunkBytes, Compressed, Decompressed;
    var h, data := SecondHeader(m, HUFF_2, j), ChunkOf(m, d, c, j);
    CompressionRoundTrip(data);
    var z := Compressed(data).value;
    assert p == h + z && p[..SECOND_HDR] == h && p[SECOND_HDR..] == z;
    SecondHeaderFields(m, HUFF_2, j, z);
  }

  // ----------------------------------------------------------- offsets found

  /** The collection holds the packets 1 to `k` of a measurement in chunks of `c`. */
  ghost predicate Collected(m: Measurements, d: seq<int16>, c: nat, k: nat, items: seq<Item>)
    requires |d| <= |m.temperature| && c <= |m.temperature|
  {
    && 1 <= k <= PacketTotal(|m.temperature|, c) && k < 256
    && Chunks(m, d, c, k).Ok?
    && Holds(items, Chunks(m, d, c, k).value)
  }

  /** The size of packet `j`'s samples. */
  function SizeOf(n: nat, c: nat, dataBytes: Width, j: byte): int {
    if j == 0 then 0 else Times(ChunkSize(n, c, j), dataBytes)
  }

  function Sizes(n: nat, c: nat, dataBytes: Width): byte -> int {
    (j: byte) => SizeOf(n, c, dataBytes, j)
  }

  lemma CountedAs(m: Measurements, d: seq<int16>, c: nat, k: nat, j: nat, last: nat)
    requires |d| <= |m.temperature| && c <= |m.temperature| && 1 <= j <= k < 256 && 1 <= last
    requires Chunks(m, d, c, k).Ok? && c == ChunkSize(|m.temperature|, c, 1)
    ensures var p := Chunks(m, d, c, k).value[j - 1];
            && Readable(p)
            && CountedNumber(p, last) == (if j <= last then Some(j) else None)
            && SampleSize(p) == SizeOf(|m.temperature|, c, SampleBytes(d), j)
  {
    hide HuffmanFirst, HuffmanSecond, Chunks, SampleSize, SampleBytes, PacketType, HasSecondHeader, ChunkBytes;
    ChunksAt(m, d, c, k, j);
    var p := Chunks(m, d, c, k).value[j - 1];
    if j == 1 {
      FirstUnzips(m, d, c, p);
    } else {
      SecondUnzips(m, d, c, j, p);
    }
  }

  lemma WholeChunk(n: nat, c: nat)
    requires c <= n
    ensures c == ChunkSize(n, c, 1)
  {
  }

  /** Every packet before the last is full. */
  lemma FullChunk(n: nat, c: nat, j: nat)
    requires 0 < c <= n && 1 <= j < PacketTotal(n, c)
    ensures ChunkSize(n, c, j) == c && c * j < n
  {
    TotalCovers(n, c);
    Scale(c, j, PacketTotal(n, c) - 1);
    assert c * j == c * (j - 1) + c;
  }

  lemma LastChunk(n: nat, c: nat)
    requires 0 < c <= n
    ensures var t := PacketTotal(n, c);
            c * (t - 1) < n && ChunkSize(n, c, t) == n - c * (t - 1) && 1 <= ChunkSize(n, c, t) <= c
  {
    if c < n {
      TotalCovers(n, c);
      var t := PacketTotal(n, c);
      assert c * t == c * (t - 1) + c;
    }
  }

  lemma {:induction false} SumOfChunks(n: nat, c: nat, dataBytes: Width, p: nat, q: nat)
    requires 0 < c <= n && 1 <= p <= PacketTotal(n, c) && q <= 256
    ensures SumBelow(Range(1, p), Sizes(n, c, dataBytes), q)
            == if q == 0 then 0 else if q <= p then Times(c * (q - 1), dataBytes) else Times(c * (p - 1), dataBytes)
  {
    if q > 0 {
      SumOfChunks(n, c, dataBytes, p, q - 1);
      if 1 < q <= p {
        FullChunk(n, c, q - 1);
        assert c * (q - 1) == c * (q - 2) + c;
      }
    }
  }

  lemma NumbersOfCollected(m: Measurements, d: seq<int16>, c: nat, k: nat, items: seq<Item>, p: nat)
    requires |d| <= |m.temperature| && c <= |m.temperature| && Collected(m, d, c, k, items) && 2 <= p <= k
    ensures AllReadable(items) && Numbers(items, p - 1) == Range(1, p)
    ensures Consistent(items, p - 1, Sizes(|m.temperature|, c, SampleBytes(d)))
  {
    hide Chunks, CountedNumber, SampleSize, Readable, SizeOf, HuffmanFirst, SampleBytes, Numbers;
    var n := |m.temperature|;
    var ps := Chunks(m, d, c, k).value;
    WholeChunk(n, c);
    CountedAs(m, d, c, k, 1, p - 1);
    forall i | 0 <= i < |items|
      ensures Readable(items[i].packet)
      ensures CountedNumber(items[i].packet, p - 1).Some? ==>
                var x := CountedNumber(items[i].packet, p - 1).value;
                1 <= x < p && SampleSize(items[i].packet) == SizeOf(n, c, SampleBytes(d), x)
    {
      assert items[i].packet in ps;
      var j :| 0 <= j < k && ps[j] == items[i].packet;
      CountedAs(m, d, c, k, j + 1, p - 1);
    }
    forall x: byte
      ensures x in Numbers(items, p - 1) <==> x in Range(1, p)
    {
      InNumbers(items, p - 1, x);
      if 1 <= x < p {
        CountedAs(m, d, c, k, x, p - 1);
        assert ps[x - 1] in ps;
        var i :| 0 <= i < |items| && items[i].packet == ps[x - 1];
      }
    }
  }

  lemma CollectedBounds(m: Measurements, d: seq<int16>, c: nat, k: nat, items: seq<Item>)
    requires |d| <= |m.temperature| && c <= |m.temperature| && Collected(m, d, c, k, items)
    ensures 1 <= k <= PacketTotal(|m.temperature|, c) && k < 256
  {
  }

  /** In any collection of the packets 1 to `k`, packet `p` finds the size of all chunks before its own. */
  lemma OffsetFound(m: Measurements, d: seq<int16>, c: nat, k: nat, items: seq<Item>, p: nat, before: nat)
    requires AllReadable(items) && 2 <= p <= k && before == c * (p - 1)
    requires |d| <= |m.temperature| && 0 < c <= |m.temperature| && Collected(m, d, c, k, items)
    ensures HuffmanOffset(items, p) == Times(before, SampleBytes(d))
  {
    hide Collected, Numbers, HuffmanOffset, SizeOf, SampleBytes, PacketTotal, Chunks;
    var n := |m.temperature|;
    CollectedBounds(m, d, c, k, items);
    NumbersOfCollected(m, d, c, k, items, p);
    OffsetWhenConsistent(items, p, Sizes(n, c, SampleBytes(d)));
    SumOfChunks(n, c, SampleBytes(d), p, 256);
  }

  // ------------------------------------------------------ reading the packets

  lemma FirstIsRead(m: Measurements, d: seq<int16>, c: nat, items: seq<Item>, baseT: Values, p: seq<byte>,
                    plain: seq<byte>, dataBytes: Width)
    requires |d| <= |m.temperature| && c <= |m.temperature| && p == HuffmanFirst(m, d, c)
    requires AllReadable(items) && BytesForBits(CollectedBits(items)) == dataBytes == SampleBytes(d)
    requires plain == FirstHeader(m, HUFF_1, SampleBits(d)) + DiffHeader(m) + ChunkBytes(m, d, 0, c)
    ensures Readable(p) && IsRead(items, baseT, p, plain, FIRST_HDR + HDR_DIFF, dataBytes, 0, c)
  {
    hide HuffmanFirst, FirstHeader, DiffHeader, ChunkBytes, SampleBits, ItemGet, ByDiff, DiffLoop, CollectedBits;
    hide Readable, PacketType, SampleBytes, Times;
    FirstUnzips(m, d, c, p);
    OverTimes(c, dataBytes);
    forall v: Values
      ensures ItemGet(items, Some(baseT), p, v).0
              == DiffLoop(plain, FIRST_HDR + HDR_DIFF, dataBytes, baseT, v, 0, c, 0)
    {
      GetHuff1(items, Some(baseT), p, v);
      FirstByDiff(plain, dataBytes, baseT, v, c);
    }
  }

  lemma QuotientOfTimes(x: nat, dataBytes: Width)
    ensures Quotient(Times(x, dataBytes), dataBytes) == x
    ensures x > 0 ==> Times(x, dataBytes) > 0
  {
  }

  lemma ChunkPlace(n: nat, c: nat, j: nat, ofs: nat, count: nat)
    requires n <= 256 && 0 < c <= n && 2 <= j <= PacketTotal(n, c) && ofs == c * (j - 1) && count == ChunkSize(n, c, j)
    ensures 0 < ofs < n && ofs + count <= n && 0 < count < 256
  {
    if j < PacketTotal(n, c) {
      FullChunk(n, c, j);
      FullChunk(n, c, j - 1);
    } else {
      LastChunk(n, c);
      FullChunk(n, c, j - 1);
    }
    assert c * (j - 1) >= c by { Scale(c, 1, j - 1); }
  }

  lemma SecondIsRead(m: Measurements, d: seq<int16>, c: nat, k: nat, j: nat, items: seq<Item>, baseT: Values,
                     p: seq<byte>, plain: seq<byte>, dataBytes: Width, ofs: nat, count: nat)
    requires |d| <= |m.temperature| <= 256 && 0 < c <= |m.temperature| && Collected(m, d, c, k, items) && 2 <= j <= k
    requires HuffmanSecond(m, d, c, j) == Ok(p)
    requires AllReadable(items) && BytesForBits(CollectedBits(items)) == dataBytes == SampleBytes(d)
    requires ofs == c * (j - 1) && count == ChunkSize(|m.temperature|, c, j)
    requires plain == SecondHeader(m, HUFF_2, j) + ChunkBytes(m, d, ofs, count)
    ensures Readable(p) && ofs + count <= |m.temperature|
    ensures IsRead(items, baseT, p, plain, SECOND_HDR, dataBytes, ofs, ofs + count)
  {
    hide HuffmanSecond, SecondHeader, ChunkBytes, SampleBits, ItemGet, ByDiff, DiffLoop, CollectedBits, Collected;
    hide Readable, PacketType, SampleBytes, Times, HuffmanOffset, AllReadable, PacketTotal;
    hide MeasuredType, HasSecondHeader;
    var n := |m.temperature|;
    CollectedBounds(m, d, c, k, items);
    SecondUnzips(m, d, c, j, p);
    OffsetFound(m, d, c, k, items, j, ofs);
    ChunkPlace(n, c, j, ofs, count);
    QuotientOfTimes(ofs, dataBytes);
    forall v: Values
      ensures ItemGet(items, Some(baseT), p, v).0
              == DiffLoop(plain, SECOND_HDR, dataBytes, baseT, v, ofs, ofs + count, 0)
    {
      GetHuff2(items, Some(baseT), p, v);
      LaterByDiff(plain, Times(ofs, dataBytes), dataBytes, baseT, v, ofs, count);
    }
  }

  // ------------------------------------------------------- the whole collection

  /** The sensors that packet `j` of a measurement in chunks of `c` reports, for a base of `b` sensors. */
  function ChunkSensors(n: nat, c: nat, j: nat, b: nat): set<byte>
    requires j >= 1
  {
    Range(c * (j - 1), Least(c * (j - 1) + ChunkSize(n, c, j), b))
  }

  /** The sensors read from packets 1 to `k`. */
  function ReadCount(n: nat, c: nat, k: nat, b: nat): nat {
    Least(Least(n, c * k), b)
  }

  lemma PaddedRebuilt(base: seq<real>, d: seq<int16>, n: nat, dataBytes: Width, count: nat, from: nat, to: nat)
    requires |d| == Least(n, |base|) && count <= |d| && to <= count
    ensures var full := RebuiltValues(base, d, dataBytes, count);
            Range(from, to) <= full.Keys
            && forall k :: k in Range(from, to) ==> full[k] == Rebuilt(base[k], Padded(d, n)[k], dataBytes)
  {
  }

  lemma OffsetOfFirst(c: nat)
    ensures c * (1 - 1) == 0
  {
  }

  lemma NoChunkOfNothing(n: nat, c: nat, k: nat, j: nat)
    requires c <= n && 2 <= j <= k <= PacketTotal(n, c)
    ensures 0 < c
  {
  }

  lemma PacketContributes(m: Measurements, base: seq<real>, d: seq<int16>, c: nat, k: nat, j: nat, items: seq<Item>,
                          full: Values, dataBytes: Width, p: seq<byte>, ofs: nat, count: nat)
    requires |d| == Least(|m.temperature|, |base|) && |m.temperature| <= 256 && |base| <= 256
    requires c <= |m.temperature| && Collected(m, d, c, k, items) && 1 <= j <= k
    requires AllReadable(items) && BytesForBits(CollectedBits(items)) == dataBytes == SampleBytes(d)
    requires p == Chunks(m, d, c, k).value[j - 1] && ofs == c * (j - 1) && count == ChunkSize(|m.temperature|, c, j)
    requires ofs + count <= |m.temperature| && Range(ofs, Least(ofs + count, |base|)) <= full.Keys
    requires forall b :: b in Range(ofs, Least(ofs + count, |base|))
                         ==> full[b] == Rebuilt(base[b], Padded(d, |m.temperature|)[b], dataBytes)
    ensures Readable(p)
    ensures Contributes(items, Some(Stored(base, |base|)), p, full, Range(ofs, Least(ofs + count, |base|)))
  {
    CollectedBounds(m, d, c, k, items);
    ChunksAt(m, d, c, k, j);
    var n, baseT := |m.temperature|, Stored(base, |base|);
    var data := ChunkBytes(m, d, ofs, count);
    assert data == Samples(Padded(d, n), ofs, count, dataBytes);
    OffsetOfFirst(c);
    hide *;
    if j == 1 {
      WholeChunk(n, c);
      var h := FirstHeader(m, HUFF_1, SampleBits(d)) + DiffHeader(m);
      FirstIsRead(m, d, c, items, baseT, p, h + data, dataBytes);
      ReadContributes(items, base, Padded(d, n), dataBytes, ofs, count, h, p, h + data, full);
    } else {
      var h := SecondHeader(m, HUFF_2, j);
      NoChunkOfNothing(n, c, k, j);
      SecondIsRead(m, d, c, k, j, items, baseT, p, h + data, dataBytes, ofs, count);
      ReadContributes(items, base, Padded(d, n), dataBytes, ofs, count, h, p, h + data, full);
    }
  }

  lemma PacketPlace(n: nat, c: nat, k: nat, j: nat)
    requires c <= n <= 256 && (c > 0 || n == 0) && 1 <= j <= k <= PacketTotal(n, c)
    ensures c * (j - 1) + ChunkSize(n, c, j) <= Least(n, c * k)
  {
    if c > 0 {
      if j < PacketTotal(n, c) {
        FullChunk(n, c, j);
      } else {
        LastChunk(n, c);
      }
      assert c * (j - 1) + c == c * j;
      Scale(c, j, k);
    }
  }

  function SensorSets(n: nat, c: nat, k: nat, b: nat): (s: seq<set<byte>>)
    ensures |s| == k && forall i :: 0 <= i < k ==> s[i] == ChunkSensors(n, c, i + 1, b)
  {
    seq(k, i requires i >= 0 => ChunkSensors(n, c, i + 1, b))
  }

  lemma EverySensorHasChunk(n: nat, c: nat, k: nat, b: nat, x: byte)
    requires x < ReadCount(n, c, k, b)
    ensures exists i :: 0 <= i < k && x in SensorSets(n, c, k, b)[i]
  {
    assert c > 0;
    var q := x / c;
    assert x == c * q + x % c;
    if q >= k {
      Scale(c, k, q);
    }
    assert x in ChunkSensors(n, c, q + 1, b);
    assert x in SensorSets(n, c, k, b)[q];
  }

  /** A collection of packets 1 to `k`, and the values `full` that are to be read from it with the base `base`. */
  ghost predicate Setting(m: Measurements, base: seq<real>, d: seq<int16>, c: nat, k: nat, items: seq<Item>,
                          ps: seq<seq<byte>>, full: Values, dataBytes: Width, count: nat)
  {
    && |d| == Least(|m.temperature|, |base|) && |m.temperature| <= 256 && |base| <= 256
    && c <= |m.temperature| && (c > 0 || |m.temperature| == 0)
    && count == ReadCount(|m.temperature|, c, k, |base|) && full == RebuiltValues(base, d, dataBytes, count)
    && AllReadable(items) && BytesForBits(CollectedBits(items)) == dataBytes == SampleBytes(d)
    && Collected(m, d, c, k, items) && ps == Chunks(m, d, c, k).value && Holds(items, ps)
  }

  lemma SettingFacts(m: Measurements, base: seq<real>, d: seq<int16>, c: nat, k: nat, items: seq<Item>,
                     ps: seq<seq<byte>>, full: Values, dataBytes: Width, count: nat)
    requires Setting(m, base, d, c, k, items, ps, full, dataBytes, count)
    ensures |d| == Least(|m.temperature|, |base|) <= |m.temperature| <= 256 && |base| <= 256
    ensures c <= |m.temperature| && (c > 0 || |m.temperature| == 0)
    ensures BytesForBits(CollectedBits(items)) == dataBytes == SampleBytes(d)
    ensures 1 <= k <= PacketTotal(|m.temperature|, c) && |ps| == k
    ensures count == ReadCount(|m.temperature|, c, k, |base|) <= |d|
    ensures Holds(items, ps)
  {
    hide Chunks, Holds, AllReadable, PacketTotal, SampleBytes, CollectedBits;
  }

  lemma WithinCount(n: nat, c: nat, k: nat, b: nat, end: nat)
    requires end <= Least(n, c * k)
    ensures end <= n && Least(end, b) <= ReadCount(n, c, k, b)
  {
  }

  lemma OneContributes(m: Measurements, base: seq<real>, d: seq<int16>, c: nat, k: nat, items: seq<Item>,
                       ps: seq<seq<byte>>, full: Values, dataBytes: Width, count: nat, i: nat,
                       n: nat, ofs: nat, size: nat)
    requires AllReadable(items) && i < |ps| && n == |m.temperature| && ofs == c * i && size == ChunkSize(n, c, i + 1)
    requires ofs + size <= Least(n, c * k)
    requires Setting(m, base, d, c, k, items, ps, full, dataBytes, count)
    ensures Readable(ps[i])
    ensures Contributes(items, Some(Stored(base, |base|)), ps[i], full, Range(ofs, Least(ofs + size, |base|)))
  {
    hide Chunks, Holds, AllReadable, Contributes, CollectedBits, SampleBytes, RebuiltValues, ReadCount, Collected;
    hide Readable, Range, ChunkSize, PacketTotal, Stored;
    SettingFacts(m, base, d, c, k, items, ps, full, dataBytes, count);
    WithinCount(n, c, k, |base|, ofs + size);
    PaddedRebuilt(base, d, n, dataBytes, count, ofs, Least(ofs + size, |base|));
    PacketContributes(m, base, d, c, k, i + 1, items, full, dataBytes, ps[i], ofs, size);
  }

  lemma SensorsAt(n: nat, c: nat, i: nat, b: nat)
    ensures ChunkSensors(n, c, i + 1, b) == Range(c * i, Least(c * i + ChunkSize(n, c, i + 1), b))
  {
  }

  lemma EachContributes(m: Measurements, base: seq<real>, d: seq<int16>, c: nat, k: nat, items: seq<Item>,
                        ps: seq<seq<byte>>, full: Values, dataBytes: Width, count: nat, i: nat, s: set<byte>)
    requires AllReadable(items) && i < |ps| && s == ChunkSensors(|m.temperature|, c, i + 1, |base|)
    requires Setting(m, base, d, c, k, items, ps, full, dataBytes, count)
    ensures Readable(ps[i])
    ensures Contributes(items, Some(Stored(base, |base|)), ps[i], full, s)
  {
    hide *;
    SettingFacts(m, base, d, c, k, items, ps, full, dataBytes, count);
    var n := |m.temperature|;
    SensorsAt(n, c, i, |base|);
    PacketPlace(n, c, k, i + 1);
    OneContributes(m, base, d, c, k, items, ps, full, dataBytes, count, i, n, c * i, ChunkSize(n, c, i + 1));
  }

  lemma ChunkIsDiff(m: Measurements, d: seq<int16>, c: nat, k: nat, j: nat)
    requires |d| <= |m.temperature| && c <= |m.temperature| && 1 <= j <= k < 256 && Chunks(m, d, c, k).Ok?
    ensures var p := Chunks(m, d, c, k).value[j - 1];
            && IsDiff(p)
            && (if j == 1 then p == HuffmanFirst(m, d, c) && HasFirstHeader(p) && DataBits(p) == SampleBits(d)
                else !HasFirstHeader(p))
  {
    hide HuffmanFirst, HuffmanSecond, Chunks, SampleBits;
    ChunksAt(m, d, c, k, j);
    var p := Chunks(m, d, c, k).value[j - 1];
    if j == 1 {
      FirstUnzips(m, d, c, p);
    } else {
      SecondUnzips(m, d, c, j, p);
    }
  }

  /** The width that is read is the right one for two bytes only if the first packet comes first. */
  lemma CollectedWidth(m: Measurements, d: seq<int16>, c: nat, k: nat, items: seq<Item>)
    requires |d| <= |m.temperature| && c <= |m.temperature| && Collected(m, d, c, k, items)
    ensures items != [] && AllDiff(items)
    ensures BytesForBits(CollectedBits(items))
            == if WidthKnown(items, HuffmanFirst(m, d, c), SampleBytes(d)) then SampleBytes(d) else 1
    ensures Holds(items, Chunks(m, d, c, k).value)
  {
    hide Chunks, HuffmanFirst, Holds, SampleBits, IsDiff, HasFirstHeader;
    var ps := Chunks(m, d, c, k).value;
    HeldIsSome(items, ps);
    ChunkIsDiff(m, d, c, k, 1);
    forall i | 0 <= i < |items|
      ensures IsDiff(items[i].packet)
      ensures HasFirstHeader(items[i].packet) <==> items[i].packet == HuffmanFirst(m, d, c)
    {
      HeldPacket(items, ps, i);
      var j :| 0 <= j < |ps| && ps[j] == items[i].packet;
      ChunkIsDiff(m, d, c, k, j + 1);
    }
  }

  lemma ChunksCombine(m: Measurements, base: seq<real>, d: seq<int16>, c: nat, k: nat, items: seq<Item>,
                      ps: seq<seq<byte>>, full: Values, dataBytes: Width, count: nat, sets: seq<set<byte>>)
    requires AllReadable(items)
    requires |sets| == |ps| && forall i :: 0 <= i < |ps| ==> sets[i] == ChunkSensors(|m.temperature|, c, i + 1, |base|)
    requires forall b :: b in full ==> exists i :: 0 <= i < |sets| && b in sets[i]
    requires Setting(m, base, d, c, k, items, ps, full, dataBytes, count)
    ensures CollectionGet(items, Some(Stored(base, |base|)), |items|, map[]) == full
  {
    hide *;
    SettingFacts(m, base, d, c, k, items, ps, full, dataBytes, count);
    forall i | 0 <= i < |ps|
      ensures Readable(ps[i]) && Contributes(items, Some(Stored(base, |base|)), ps[i], full, sets[i])
    {
      EachContributes(m, base, d, c, k, items, ps, full, dataBytes, count, i, sets[i]);
    }
    AnyOrder(items, ps, Some(Stored(base, |base|)), full, sets);
  }

  lemma KeysOfRebuilt(base: seq<real>, d: seq<int16>, dataBytes: Width, count: nat, b: byte)
    requires count <= |base| && count <= |d|
    ensures b in RebuiltValues(base, d, dataBytes, count) <==> b < count
  {
  }

  lemma SetsCover(n: nat, c: nat, k: nat, base: seq<real>, d: seq<int16>, dataBytes: Width, count: nat)
    requires count == ReadCount(n, c, k, |base|) && |d| == Least(n, |base|)
    ensures count <= |d| && count <= |base|
    ensures forall b :: b in RebuiltValues(base, d, dataBytes, count)
                        ==> exists i :: 0 <= i < k && b in SensorSets(n, c, k, |base|)[i]
  {
    assert count <= |d| && count <= |base|;
    hide SensorSets, RebuiltValues, ReadCount;
    forall b | b in RebuiltValues(base, d, dataBytes, count)
      ensures exists i :: 0 <= i < k && b in SensorSets(n, c, k, |base|)[i]
    {
      KeysOfRebuilt(base, d, dataBytes, count, b);
      EverySensorHasChunk(n, c, k, |base|, b);
    }
  }

  lemma CollectedReadable(m: Measurements, d: seq<int16>, c: nat, k: nat, items: seq<Item>)
    requires |d| <= |m.temperature| && c <= |m.temperature| && Collected(m, d, c, k, items)
    ensures AllReadable(items)
  {
    hide Chunks, Readable, HuffmanFirst, Holds;
    var ps := Chunks(m, d, c, k).value;
    WholeChunk(|m.temperature|, c);
    forall i | 0 <= i < |ps|
      ensures Readable(ps[i])
    {
      CountedAs(m, d, c, k, i + 1, 1);
    }
    HeldAreReadable(items, ps);
  }

  /**
   What a receiver reads that has the base packets and the Huffman packets 1 to `k`, in any order and with duplicates,
   the first one first if samples take two bytes: the base value plus the sample for the sensors of `k` chunks.
   */
  lemma ChunksAreRead(m: Measurements, mb: Measurements, d: seq<int16>, c: nat, k: nat,
                      items: seq<Item>, baseItems: seq<Item>)
    requires |m.temperature| <= 256 && |mb.temperature| <= 256 && d == Deltas(m.temperature, mb.temperature)
    requires c <= |m.temperature| && (c > 0 || |m.temperature| == 0) && Collected(m, d, c, k, items)
    requires WidthKnown(items, HuffmanFirst(m, d, c), SampleBytes(d))
    requires Holds(baseItems, BasePackets(mb))
    ensures AllReadable(items) && AllReadable(baseItems)
    ensures AllValues(items, Some(baseItems))
            == RebuiltValues(mb.temperature, d, SampleBytes(d), ReadCount(|m.temperature|, c, k, |mb.temperature|))
  {
    var base, n, dataBytes := mb.temperature, |m.temperature|, SampleBytes(d);
    CollectedBounds(m, d, c, k, items);
    CollectedReadable(m, d, c, k, items);
    CollectedWidth(m, d, c, k, items);
    BaseRoundTrip(mb, baseItems, None);
    ReadFromBase(items, baseItems, Stored(base, |base|));
    var count := ReadCount(n, c, k, |base|);
    SetsCover(n, c, k, base, d, dataBytes, count);
    var full, ps := RebuiltValues(base, d, dataBytes, count), Chunks(m, d, c, k).value;
    assert Setting(m, base, d, c, k, items, ps, full, dataBytes, count);
    hide *;
    ChunksCombine(m, base, d, c, k, items, ps, full, dataBytes, count, SensorSets(n, c, k, |base|));
  }
}
