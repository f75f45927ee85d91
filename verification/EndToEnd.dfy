/** A measurement sent as Huffman packets, from the temperatures to the values that the receiver reads. */
module EndToEnd {
  import opened Wrappers
  import opened Bits
  import opened Temperature
  import opened Packets
  import opened BaseBuilder
  import opened DeltaWidth
  import opened HuffmanBuilder
  import opened Readings
  import opened Assembly
  import opened BaseReading
  import opened DeltaReading
  import opened HuffmanReading
  import opened HuffmanLimits

  lemma {:induction false} ChunksPrefix(m: Measurements, d: seq<int16>, c: nat, k: nat, total: nat)
    requires |d| <= |m.temperature| && c <= |m.temperature| && 1 <= k <= total && Chunks(m, d, c, total).Ok?
    ensures Chunks(m, d, c, k).Ok? && Chunks(m, d, c, k).value == Chunks(m, d, c, total).value[..k]
  {
    hide HuffmanFirst, HuffmanSecond;
    if k < total {
      ChunksPrefix(m, d, c, k, total - 1);
    }
  }

  lemma ScaleLeft(a: nat, b: nat, x: nat)
    requires a <= b
    ensures a * x <= b * x
  {
  }

  /** The chosen chunks are few enough for their number to fit into a byte. */
  lemma FewChunks(n: nat, c: nat)
    requires c <= n <= 256 && (c >= 2 || c == n)
    ensures PacketTotal(n, c) < 256 && n <= c * PacketTotal(n, c)
  {
    var t := PacketTotal(n, c);
    if 2 <= c < n {
      TotalCovers(n, c);
      ScaleLeft(2, c, t - 1);
    } else {
      assert t == 1 && c * 1 == c;
    }
  }

  lemma FirstOfChunks(m: Measurements, d: seq<int16>, c: nat, total: nat, ps: seq<seq<byte>>)
    requires |d| <= |m.temperature| && c <= |m.temperature| && total >= 1 && Chunks(m, d, c, total) == Ok(ps)
    ensures |ps| == total && ps[0] == HuffmanFirst(m, d, c)
  {
    ChunksAt(m, d, c, total, 1);
  }

  /** What the builder's packets are: all chunks of the chosen size. */
  lemma ChosenChunks(m: Measurements, baseTemperature: seq<real>, d: seq<int16>, c: nat)
    requires HuffmanPackets(m, baseTemperature).Ok? && d == Deltas(m.temperature, baseTemperature)
    requires c == Chosen(m, d, |m.temperature|)
    ensures c <= |m.temperature| && (c >= 2 || c == |m.temperature|) && (c == 0 <==> |m.temperature| == 0)
    ensures Chunks(m, d, c, PacketTotal(|m.temperature|, c)) == HuffmanPackets(m, baseTemperature)
  {
    hide Deltas, Chosen, Halved, Chunks, MaxSize, PacketTotal;
    HalvedStops(m, d, |m.temperature|);
    ChosenFits(m, d, |m.temperature|);
  }

  lemma ChosenPackets(m: Measurements, baseTemperature: seq<real>, k: nat)
    requires |m.temperature| <= 256 && HuffmanPackets(m, baseTemperature).Ok?
    requires 1 <= k <= |HuffmanPackets(m, baseTemperature).value|
    ensures var n, d := |m.temperature|, Deltas(m.temperature, baseTemperature);
            var ps := HuffmanPackets(m, baseTemperature).value;
            var c := Chosen(m, d, n);
            && (c > 0 || n == 0) && k <= |ps| == PacketTotal(n, c) && k < 256
            && Chunks(m, d, c, k) == Ok(ps[..k]) && ps[0] == HuffmanFirst(m, d, c)
            && (k == |ps| ==> n <= c * k)
  {
    var n, d := |m.temperature|, Deltas(m.temperature, baseTemperature);
    var ps := HuffmanPackets(m, baseTemperature).value;
    var c := Chosen(m, d, n);
    hide *;
    ChosenChunks(m, baseTemperature, d, c);
    FewChunks(n, c);
    FirstOfChunks(m, d, c, PacketTotal(n, c), ps);
    ChunksPrefix(m, d, c, k, PacketTotal(n, c));
  }

  lemma CollectedChunks(m: Measurements, d: seq<int16>, c: nat, k: nat, items: seq<Item>)
    requires |d| <= |m.temperature| && c <= |m.temperature| && 1 <= k <= PacketTotal(|m.temperature|, c) && k < 256
    requires Chunks(m, d, c, k).Ok? && Holds(items, Chunks(m, d, c, k).value)
    ensures Collected(m, d, c, k, items)
  {
  }

  /** What is read when the samples take two bytes and another packet than the first came first. */
  lemma LateHuffmanLoses(m: Measurements, mb: Measurements, d: seq<int16>, c: nat, k: nat, count: nat,
                         items: seq<Item>, baseItems: seq<Item>)
    requires |m.temperature| <= 256 && |mb.temperature| <= 256 && d == Deltas(m.temperature, mb.temperature)
    requires c <= |m.temperature| && Collected(m, d, c, k, items)
    requires !WidthKnown(items, HuffmanFirst(m, d, c), SampleBytes(d))
    requires Holds(baseItems, BasePackets(mb)) && count <= |d|
    ensures AllReadable(items) && AllReadable(baseItems)
    ensures AllValues(items, Some(baseItems)) == Stored(m.temperature, count) ==> FitsOne(d, count) && count < |d|
  {
    var base := mb.temperature;
    assert !WidthKnown(items, HuffmanFirst(m, d, c), SampleBytes(d)) && items != [] ==> SampleBytes(d) == 2;
    hide *;
    LeastBounds(|m.temperature|, |base|);
    BaseRoundTrip(mb, baseItems, None);
    CollectedReadable(m, d, c, k, items);
    CollectedWidth(m, d, c, k, items);
    ReadFromBase(items, baseItems, Stored(base, |base|));
    if AllValues(items, Some(baseItems)) == Stored(m.temperature, count) {
      RightFits(items, m.temperature, base, count);
    }
  }

  /**
   A receiver that has the base packets and the packets 1 to `k` of a measurement, in any order and any number of times,
   reads values for the sensors of these `k` packets, and they are the stored temperatures exactly if every delta fits
   into the bytes chosen for it. If these are two, the first packet must have come first: otherwise each sample is
   read from one byte, and some sensor of the measurement is wrong.
   */
  lemma HuffmanRoundTrip(m: Measurements, mb: Measurements, k: nat, items: seq<Item>, baseItems: seq<Item>)
    requires |m.temperature| <= 256 && |mb.temperature| <= 256
    requires HuffmanPackets(m, mb.temperature).Ok? && 1 <= k <= |HuffmanPackets(m, mb.temperature).value|
    requires Holds(items, HuffmanPackets(m, mb.temperature).value[..k]) && Holds(baseItems, BasePackets(mb))
    ensures AllReadable(items) && AllReadable(baseItems)
    ensures var n, b, d := |m.temperature|, |mb.temperature|, Deltas(m.temperature, mb.temperature);
            var count, ps := ReadCount(n, Chosen(m, d, n), k, b), HuffmanPackets(m, mb.temperature).value;
            var known := WidthKnown(items, ps[0], SampleBytes(d));
            && (known ==>
                  && AllValues(items, Some(baseItems)) == RebuiltValues(mb.temperature, d, SampleBytes(d), count)
                  && (AllValues(items, Some(baseItems)) == Stored(m.temperature, count) <==> Lossless(d, count)))
            && (!known && AllValues(items, Some(baseItems)) == Stored(m.temperature, count)
                ==> FitsOne(d, count) && count < |d|)
            && (k == |ps| ==>
                  && count == |d| == Least(n, b)
                  && (AllValues(items, Some(baseItems)) == Stored(m.temperature, |d|) <==> known && Lossless(d, |d|)))
  {
    var n, b, d := |m.temperature|, |mb.temperature|, Deltas(m.temperature, mb.temperature);
    var c := Chosen(m, d, n);
    ChosenPackets(m, mb.temperature, k);
    var count := ReadCount(n, c, k, b);
    assert count <= |d| && (n <= c * k ==> count == |d|);
    hide *;
    CollectedChunks(m, d, c, k, items);
    if WidthKnown(items, HuffmanFirst(m, d, c), SampleBytes(d)) {
      ChunksAreRead(m, mb, d, c, k, items, baseItems);
      RebuiltIsStored(m.temperature, mb.temperature, count);
    } else {
      LateHuffmanLoses(m, mb, d, c, k, count, items, baseItems);
    }
  }
}
