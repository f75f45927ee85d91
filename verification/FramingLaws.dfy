/** When packets sent as one buffer are found again, and what is stored for them. */
module FramingLaws {
  import opened Wrappers
  import opened Bits
  import opened Temperature
  import opened Packets
  import opened BaseBuilder
  import opened DeltaWidth
  import opened DeltaBuilder
  import opened HuffmanBuilder
  import opened Readings
  import opened Assembly
  import opened BaseReading
  import opened DeltaReading
  import opened HuffmanCodec
  import opened HuffmanReading
  import opened HuffmanLimits
  import opened Framing

  // ----------------------------------------------------- packets in one buffer

  function Concat(ps: seq<seq<byte>>): seq<byte> {
    if ps == [] then [] else ps[0] + Concat(ps[1..])
  }

  /** In a longer buffer the packet is as long as its type says. */
  predicate Fixed(p: seq<byte>) {
    |p| == TypeSize(PacketType(p), |p| + 1)
  }

  /** As the last of a buffer the packet is not longer than its type says. */
  predicate Ending(p: seq<byte>) {
    |p| == TypeSize(PacketType(p), |p|)
  }

  predicate Framable(ps: seq<seq<byte>>) {
    && (forall i :: 0 <= i < |ps| - 1 ==> Fixed(ps[i]))
    && (ps != [] ==> Ending(ps[|ps| - 1]))
  }

  predicate Typed(p: seq<byte>) {
    PacketType(p) != UNKNOWN
  }

  lemma FrameOfFirst(p: seq<byte>, rest: seq<byte>)
    requires Typed(p)
    ensures PacketType(p + rest) == PacketType(p)
    ensures Frame(p + rest) == p <==> if rest == [] then Ending(p) else Fixed(p)
  {
    var f := Frame(p + rest);
    if rest == [] {
      assert p + rest == p;
      assert p[..|p|] == p;
    } else if |f| == |p| {
      assert (p + rest)[..|p|] == p;
    }
  }

  lemma NothingTyped()
    ensures PacketType([]) == UNKNOWN
  {
  }

  lemma TypedIsNotEmpty(p: seq<byte>)
    requires Typed(p)
    ensures p != []
  {
  }

  lemma FirstOfFrames(b: seq<byte>)
    requires PacketType(b) != UNKNOWN
    ensures Frames(b) != [] && Frames(b)[0] == Frame(b)
    ensures |Frame(b)| < |b| ==> Frames(b)[1..] == Frames(b[|Frame(b)|..])
    ensures |Frame(b)| >= |b| ==> Frames(b) == [Frame(b)] && Frame(b) == b
  {
  }

  lemma FramableStep(ps: seq<seq<byte>>)
    requires |ps| >= 2
    ensures Framable(ps) <==> Fixed(ps[0]) && Framable(ps[1..])
  {
    hide Fixed, Ending;
    if Fixed(ps[0]) && Framable(ps[1..]) {
      forall i | 0 <= i < |ps| - 1
        ensures Fixed(ps[i])
      {
        if i > 0 {
          assert ps[1..][i - 1] == ps[i];
        }
      }
    }
    if Framable(ps) {
      assert forall i :: 0 <= i < |ps| - 2 ==> ps[1..][i] == ps[i + 1];
    }
  }

  /** Splitting the concatenation of packets gives the packets back exactly if they have the sizes of their types. */
  lemma {:induction false} FramesOfConcat(ps: seq<seq<byte>>)
    requires forall i :: 0 <= i < |ps| ==> Typed(ps[i])
    ensures Frames(Concat(ps)) == ps <==> Framable(ps)
  {
    hide Frame, Ending, Fixed, PacketType;
    if ps == [] {
      NothingTyped();
    } else {
      var p, rest, b := ps[0], Concat(ps[1..]), Concat(ps);
      FrameOfFirst(p, rest);
      FirstOfFrames(b);
      FramesOfConcat(ps[1..]);
      if |ps| == 1 {
        assert rest == [] && b == p;
      } else {
        assert rest != [] by { TypedIsNotEmpty(ps[1]); assert ps[1] <= rest; }
        FramableStep(ps);
        if Frame(b) == p {
          assert b[|p|..] == rest;
        }
      }
    }
  }

  /** The size of the packet at the beginning of a buffer, by its first byte. */
  function FrameSize(b: seq<byte>): nat
    requires b != []
  {
    if b[0] == 0 then Least(16, |b|) else if 0x48 <= b[0] <= 0x4b then Least(24, |b|) else |b|
  }

  lemma SizeOfFrame(b: seq<byte>)
    ensures PacketType(b) == 1 <==> b == [] || (b[0] != 0 && !(0x48 <= b[0] <= 0x4d))
    ensures PacketType(b) != 1 ==> PacketType(b) == b[0] && Frame(b) == b[..FrameSize(b)] && FrameSize(b) <= |b|
  {
  }

  lemma NothingFramed()
    ensures Frames([]) == []
  {
  }

  /** A byte that begins no packet ends the splitting; Huffman packets take the whole buffer. */
  lemma FirstByteDecides(b: seq<byte>)
    ensures Frames(b) == [] <==> b == [] || (b[0] != 0 && !(0x48 <= b[0] <= 0x4d))
    ensures Frames(b) == [] ==> LastPart(b) == b && PacketType(b) == 1
    ensures Frames(b) != [] ==>
              var n := FrameSize(b);
              && n <= |b| && PacketType(b) == b[0]
              && Frames(b) == [b[..n]] + Frames(b[n..])
              && LastPart(b) == if n == |b| then b else LastPart(b[n..])
  {
    SizeOfFrame(b);
    hide FrameSize, Frame, PacketType;
    NothingFramed();
    if PacketType(b) != 1 {
      var n := FrameSize(b);
      if n == |b| {
        assert b[..n] == b && b[n..] == [] && [b] + [] == [b];
      }
    }
  }

  /** Put on its own, a Huffman packet of any size is one packet, with all its bytes. */
  lemma HuffmanFrame(b: seq<byte>)
    requires b != [] && (b[0] == 0x4c || b[0] == 0x4d)
    ensures Frames(b) == [b] && LastPart(b) == b
  {
    FirstByteDecides(b);
    NothingFramed();
    assert b[..|b|] == b && b[|b|..] == [] && [b] + [] == [b];
  }

  // ----------------------------------------------------------- stored packets

  /** The packets of one measurement: a first packet, then packets with second headers, all of one plume. */
  predicate OneMeasurement(ps: seq<seq<byte>>, kosa: byte, year: byte) {
    && ps != [] && AllWhole(ps)
    && HasFirstHeader(ps[0]) && FirstKosa(ps[0]) == kosa && FirstYear(ps[0]) == year && Stamped(ps[0]) == ps[0]
    && HasDiffHeader(ps[0])
    && forall i :: 1 <= i < |ps| ==> HasSecondHeader(ps[i]) && SecondKosa(ps[i]) == kosa
  }

  /** The items for packets whose plumes were all made in one year. */
  function AllLabelled(ps: seq<seq<byte>>, year: byte, loaded: Option<ItemId>): (items: seq<Item>)
    requires AllWhole(ps)
    ensures |items| == |ps| && forall i :: 0 <= i < |ps| ==> items[i] == Labelled(ps[i], year, loaded)
  {
    seq(|ps|, i requires 0 <= i < |ps| => Labelled(ps[i], year, loaded))
  }

  lemma YearOfHead(items: seq<Item>, known: Known, kosa: byte, year: byte)
    requires HeadYear(items) == Some(year)
    ensures YearOfLater(items, known, kosa) == year
  {
  }

  lemma HeadStays(items: seq<Item>, item: Item)
    requires HeadYear(items).Some?
    ensures HeadYear(items + [item]) == HeadYear(items)
  {
  }

  lemma {:induction false} LabelledAs(items: seq<Item>, known: Known, ps: seq<seq<byte>>, year: byte)
    requires AllWhole(ps)
    requires HeadYear(items) == Some(year)
    ensures PutPackets(items, known, ps) == items + AllLabelled(ps, year, known.loaded)
    decreases |ps|
  {
    hide Labelled, Whole, HeadYear, YearOfLater;
    if ps != [] {
      var item := NewItem(items, known, ps[0]);
      assert item == Labelled(ps[0], year, known.loaded) by { YearOfHead(items, known, PlumeOf(ps[0]), year); }
      HeadStays(items, item);
      LabelledAs(items + [item], known, ps[1..], year);
      assert AllLabelled(ps, year, known.loaded) == [item] + AllLabelled(ps[1..], year, known.loaded);
    }
  }

  lemma FirstLabel(p: seq<byte>, known: Known, year: byte)
    requires Whole(p) && HasFirstHeader(p) && Stamped(p) == p
    ensures NewItem([], known, p) == Labelled(p, year, known.loaded) && Labelled(p, year, known.loaded).packet == p
  {
  }

  /** The first packet of a buffer gives its year to all packets after it, whatever the collector knows. */
  lemma FirstLabelsAll(known: Known, ps: seq<seq<byte>>, kosa: byte, year: byte)
    requires OneMeasurement(ps, kosa, year)
    ensures PutPackets([], known, ps) == AllLabelled(ps, year, known.loaded)
  {
    hide Labelled;
    var first := NewItem([], known, ps[0]);
    assert first == Labelled(ps[0], year, known.loaded) && first.packet == ps[0] by { FirstLabel(ps[0], known, year); }
    LabelledAs([first], known, ps[1..], year);
    assert [] + [first] == [first];
    assert AllLabelled(ps, year, known.loaded) == [first] + AllLabelled(ps[1..], year, known.loaded);
  }

  lemma MeasurementParts(ps: seq<seq<byte>>, kosa: byte, year: byte)
    requires ps != [] && Whole(ps[0]) && HasFirstHeader(ps[0]) && FirstKosa(ps[0]) == kosa && FirstYear(ps[0]) == year
    requires Stamped(ps[0]) == ps[0] && HasDiffHeader(ps[0]) && (|ps| > 1 ==> Fixed(ps[0])) && Ending(ps[0])
    requires forall i :: 1 <= i < |ps| ==> Whole(ps[i]) && HasSecondHeader(ps[i]) && SecondKosa(ps[i]) == kosa
    requires forall i :: 1 <= i < |ps| ==> Ending(ps[i]) && (i < |ps| - 1 ==> Fixed(ps[i]))
    ensures OneMeasurement(ps, kosa, year) && Framable(ps)
  {
    hide Whole, Fixed, Ending, HasFirstHeader, HasSecondHeader;
  }

  lemma BaseAt(m: Measurements, i: nat)
    requires |m.temperature| <= 256 && i < |BasePackets(m)|
    ensures BasePackets(m)[i] == if i == 0 then FirstHeader(m, PKT_1, 0) + MeasureHeader(m) else BasePacket(m, i)
  {
    hide BasePacket, FirstHeader, MeasureHeader;
    CountOfBasePackets(m);
    BaseRestAt(m, PacketCount(|m.temperature|, PKT_1, 0), i);
  }

  lemma BaseFirstWhole(m: Measurements)
    ensures var p := FirstHeader(m, PKT_1, 0) + MeasureHeader(m);
            && Whole(p) && HasFirstHeader(p) && Fixed(p) && Ending(p) && Stamped(p) == p && HasDiffHeader(p)
            && FirstKosa(p) == m.kosa && FirstYear(p) == m.kosaYear
            && PacketsField(p) == PacketCount(|m.temperature|, PKT_1, 0)
  {
    hide PacketCount;
    var p := FirstHeader(m, PKT_1, 0) + MeasureHeader(m);
    assert p[15] == MeasureHeader(m)[7] && p[16] == MeasureHeader(m)[8];
    FirstHeaderFields(m, PKT_1, 0, MeasureHeader(m));
  }

  lemma BaseRestWhole(m: Measurements, i: nat)
    requires |m.temperature| <= 256 && 1 <= i < |BasePackets(m)|
    ensures var p := BasePacket(m, i);
            && Whole(p) && HasSecondHeader(p) && SecondKosa(p) == m.kosa && Typed(p) && Ending(p)
            && (i < |BasePackets(m)| - 1 ==> Fixed(p))
  {
    hide BasePackets, Records;
    CountOfBasePackets(m);
    var count := Span(|m.temperature|, 5 * (i - 1), 5);
    SecondHeaderFields(m, PKT_2, (i + 1) % 256, Records(m, 5 * (i - 1), count));
  }

  lemma BaseIsOneMeasurement(m: Measurements)
    requires |m.temperature| <= 256
    ensures OneMeasurement(BasePackets(m), m.kosa, m.kosaYear) && Framable(BasePackets(m))
  {
    hide BasePackets, OneMeasurement, Framable, BasePacket, FirstHeader, MeasureHeader;
    CountOfBasePackets(m);
    var ps := BasePackets(m);
    BaseFirstWhole(m);
    forall i | 1 <= i < |ps|
      ensures Whole(ps[i]) && HasSecondHeader(ps[i]) && SecondKosa(ps[i]) == m.kosa && Typed(ps[i]) && Ending(ps[i])
      ensures i < |ps| - 1 ==> Fixed(ps[i])
    {
      BaseAt(m, i);
      BaseRestWhole(m, i);
    }
    BaseAt(m, 0);
    MeasurementParts(ps, m.kosa, m.kosaYear);
  }

  /** The deltas fill the first packet, or have no more bits, in all, than that has bytes for them. */
  predicate FillsFirst(d: seq<int16>) {
    |d| >= Over(6, SampleBytes(d)) || |d| * SampleBits(d) <= 6
  }

  /** The first delta packet is not longer than a packet may be exactly if the deltas fill it, or have few bits. */
  lemma DeltaFirstSize(m: Measurements, d: seq<int16>)
    ensures |DeltaFirst(m, d)| <= MAX_PACKET <==> FillsFirst(d)
    ensures |d| >= Over(6, SampleBytes(d)) ==> |DeltaFirst(m, d)| == MAX_PACKET
  {
    hide SampleBits;
  }

  lemma OnlyMeasurement(ps: seq<seq<byte>>, kosa: byte, year: byte)
    requires |ps| == 1 && Whole(ps[0]) && HasFirstHeader(ps[0]) && Stamped(ps[0]) == ps[0] && HasDiffHeader(ps[0])
    requires FirstKosa(ps[0]) == kosa && FirstYear(ps[0]) == year
    ensures OneMeasurement(ps, kosa, year)
  {
  }

  lemma NotFramed(ps: seq<seq<byte>>)
    requires |ps| == 1 && !Ending(ps[0])
    ensures !Framable(ps)
  {
  }

  lemma FirstHeaderPlume(m: Measurements, typ: byte, bits: nat, rest: seq<byte>)
    requires bits < 16 && IsFirst(typ)
    ensures var p := FirstHeader(m, typ, bits) + rest;
            FirstKosa(p) == m.kosa && FirstYear(p) == m.kosaYear
  {
    hide PacketCount;
  }

  lemma DeltaFirstWhole(m: Measurements, d: seq<int16>)
    ensures var p := DeltaFirst(m, d);
            && Whole(p) && HasFirstHeader(p) && Stamped(p) == p && HasDiffHeader(p)
            && FirstKosa(p) == m.kosa && FirstYear(p) == m.kosaYear
            && PacketsField(p) == PacketCount(|m.temperature|, DELTA_1, SampleBits(d))
            && (Ending(p) <==> |p| <= MAX_PACKET) && (Fixed(p) <==> |p| == MAX_PACKET)
            && (SecondPackets(|d|, SampleBytes(d)) > 0 ==> |p| == MAX_PACKET)
  {
    hide SampleBits, Samples, FirstHeader, PacketCount;
    var count, tail, end := DeltaFirstParts(m, d);
    var rest := DiffHeader(m) + Samples(d, 0, count, SampleBytes(d)) + tail;
    assert DeltaFirst(m, d) == FirstHeader(m, DELTA_1, SampleBits(d)) + rest;
    FirstHeaderFields(m, DELTA_1, SampleBits(d), rest);
    FirstHeaderPlume(m, DELTA_1, SampleBits(d), rest);
  }

  lemma DeltaSecondWhole(m: Measurements, d: seq<int16>, i: nat, dataBytes: Width)
    requires |d| <= 256 && dataBytes == SampleBytes(d) && i < SecondPackets(|d|, dataBytes)
    ensures var p := DeltaSecond(m, d, i);
            && Whole(p) && HasSecondHeader(p) && SecondKosa(p) == m.kosa && Ending(p)
            && (i + 1 < SecondPackets(|d|, dataBytes) ==> Fixed(p))
  {
    hide SampleBits, Samples;
    var ofs := DeltaOffset(dataBytes, i);
    var count := Span(|d|, ofs, Over(20, dataBytes));
    DeltaPacketPlaces(|d|, dataBytes, i);
    DeltaPacketPlaces(|d|, dataBytes, i + 1);
    SecondHeaderFields(m, DELTA_2, (i + 2) % 256, Samples(d, ofs, count, dataBytes));
  }

  /** The delta packets have the sizes of their types exactly if the deltas fill the first packet, or have few bits. */
  lemma DeltaIsOneMeasurement(m: Measurements, d: seq<int16>)
    requires |d| <= 256
    ensures OneMeasurement(DeltaPackets(m, d), m.kosa, m.kosaYear)
    ensures Framable(DeltaPackets(m, d)) <==> FillsFirst(d)
  {
    hide OneMeasurement, DeltaFirst, DeltaSecond, FirstHeader, SecondPackets, SampleBytes, FillsFirst;
    var ps := DeltaPackets(m, d);
    DeltaFirstSize(m, d);
    DeltaFirstWhole(m, d);
    forall i | 1 <= i < |ps|
      ensures Whole(ps[i]) && HasSecondHeader(ps[i]) && SecondKosa(ps[i]) == m.kosa && Ending(ps[i])
      ensures i < |ps| - 1 ==> Fixed(ps[i])
    {
      DeltaSecondWhole(m, d, i - 1, SampleBytes(d));
    }
    assert ps[0] == DeltaFirst(m, d);
    if |ps[0]| <= MAX_PACKET {
      MeasurementParts(ps, m.kosa, m.kosaYear);
    } else {
      NotFramed(ps);
      OnlyMeasurement(ps, m.kosa, m.kosaYear);
    }
  }

  lemma SameCount(n: nat, bits: nat)
    ensures PacketCount(n, HUFF_1, bits) == PacketCount(n, HUFF_1, 0) == PacketCount(n, PKT_1, 0)
  {
  }

  lemma HuffmanFirstUnzips(m: Measurements, d: seq<int16>, c: nat, p: seq<byte>)
    requires |d| <= |m.temperature| && c <= |m.temperature| && p == HuffmanFirst(m, d, c)
    ensures Whole(p) && HasDiffHeader(p)
  {
    hide HuffmanFirst, Unzipped, ChunkBytes, SampleBits, FirstHeader, DiffHeader;
    FirstUnzips(m, d, c, p);
  }

  lemma HuffmanFirstWhole(m: Measurements, d: seq<int16>, c: nat, p: seq<byte>)
    requires |d| <= |m.temperature| && c <= |m.temperature| && p == HuffmanFirst(m, d, c)
    ensures Whole(p) && HasFirstHeader(p) && Stamped(p) == p && HasDiffHeader(p)
    ensures FirstKosa(p) == m.kosa && FirstYear(p) == m.kosaYear
    ensures PacketsField(p) == PacketCount(|m.temperature|, HUFF_1, 0)
  {
    HuffmanFirstUnzips(m, d, c, p);
    hide HasDiffHeader, PacketCount, SampleBits, FirstHeader, Compressed, DiffHeader;
    CompressedSize(DiffHeader(m) + ChunkBytes(m, d, 0, c));
    var z := Compressed(DiffHeader(m) + ChunkBytes(m, d, 0, c)).value;
    FirstHeaderFields(m, HUFF_1, SampleBits(d), z);
    FirstHeaderPlume(m, HUFF_1, SampleBits(d), z);
    SameCount(|m.temperature|, SampleBits(d));
  }

  lemma SecondHeaderWhole(m: Measurements, typ: byte, number: byte, rest: seq<byte>)
    requires IsSecond(typ)
    ensures var p := SecondHeader(m, typ, number) + rest;
            Whole(p) && HasSecondHeader(p) && SecondKosa(p) == m.kosa
  {
    SecondHeaderFields(m, typ, number, rest);
  }

  lemma HuffmanSecondParts(m: Measurements, d: seq<int16>, c: nat, j: nat, p: seq<byte>) returns (rest: seq<byte>)
    requires |d| <= |m.temperature| && 2 <= j < 256 && HuffmanSecond(m, d, c, j) == Ok(p)
    ensures p == SecondHeader(m, HUFF_2, j) + rest && IsSecond(HUFF_2)
  {
    hide Compressed, SecondHeader, ChunkBytes;
    var z := Compressed(ChunkOf(m, d, c, j));
    assert z.Ok? && HuffmanSecond(m, d, c, j).value == SecondHeader(m, HUFF_2, j % 256) + z.value;
    hide *;
    rest := z.value;
  }

  lemma HuffmanSecondWhole(m: Measurements, d: seq<int16>, c: nat, j: nat, p: seq<byte>)
    requires |d| <= |m.temperature| && 2 <= j < 256 && HuffmanSecond(m, d, c, j) == Ok(p)
    ensures Whole(p) && HasSecondHeader(p) && SecondKosa(p) == m.kosa
  {
    var rest := HuffmanSecondParts(m, d, c, j, p);
    hide *;
    SecondHeaderWhole(m, HUFF_2, j, rest);
  }

  lemma HuffmanIsOneMeasurement(m: Measurements, d: seq<int16>, c: nat, k: nat)
    requires |d| <= |m.temperature| && c <= |m.temperature| && 1 <= k < 256 && Chunks(m, d, c, k).Ok?
    ensures OneMeasurement(Chunks(m, d, c, k).value, m.kosa, m.kosaYear)
    ensures PacketsField(Chunks(m, d, c, k).value[0]) == PacketCount(|m.temperature|, HUFF_1, 0)
  {
    hide Chunks, HuffmanFirst, HuffmanSecond, Whole, HasFirstHeader, PacketType, PacketCount, SecondKosa;
    var ps := Chunks(m, d, c, k).value;
    ChunksAt(m, d, c, k, 1);
    HuffmanFirstWhole(m, d, c, ps[0]);
    forall i | 1 <= i < |ps|
      ensures Whole(ps[i]) && HasSecondHeader(ps[i]) && SecondKosa(ps[i]) == m.kosa
    {
      ChunksAt(m, d, c, k, i + 1);
      HuffmanSecondWhole(m, d, c, i + 1, ps[i]);
    }
  }

  lemma SomeChunks(m: Measurements, d: seq<int16>, c: nat)
    requires |d| <= |m.temperature| && c <= |m.temperature| && AllChunks(m, d, c).Ok?
    ensures |AllChunks(m, d, c).value| >= 1
  {
    hide HuffmanFirst, HuffmanSecond;
  }

  lemma HuffmanIsSome(m: Measurements, baseTemperature: seq<real>)
    requires HuffmanPackets(m, baseTemperature).Ok?
    ensures |HuffmanPackets(m, baseTemperature).value| >= 1
  {
    hide AllChunks, Deltas, Chosen, MaxSize;
    HalvedStops(m, Deltas(m.temperature, baseTemperature), |m.temperature|);
    var d := Deltas(m.temperature, baseTemperature);
    SomeChunks(m, d, Chosen(m, d, |m.temperature|));
  }

  // ------------------------------------------------- what is stored, by offset

  /** The first byte is that of a first packet, and the packet has its header. */
  predicate BeginsPlume(p: seq<byte>) {
    |p| >= 8 && (p[0] == 0x4a || p[0] == 0x48 || p[0] == 0x4c)
  }

  /** Packets that can be stored: as long as the headers that are read from them. */
  lemma StorableSizes(p: seq<byte>, loaded: Option<ItemId>)
    ensures p == [] ==> !Storable(p, loaded)
    ensures p != [] && p[0] == 0x4a ==> (Storable(p, loaded) <==> |p| >= 24)
    ensures p != [] && p[0] == 0x48 ==> (Storable(p, loaded) <==> |p| >= if loaded.Some? then 18 else 8)
    ensures p != [] && p[0] == 0x4c ==>
              (Storable(p, loaded) <==> |p| >= 8 && (loaded.Some? ==> |Decompressed(p[8..])| >= 10))
    ensures p != [] && (p[0] == 0x4b || p[0] == 0x49 || p[0] == 0x4d) ==> (Storable(p, loaded) <==> |p| >= 4)
    ensures p != [] && !(0x48 <= p[0] <= 0x4d) ==> !Storable(p, loaded)
  {
    hide Decompressed;
  }

  /** The item for a first packet: plume, number and year from its header, which a plain packet gets once more. */
  lemma FirstIsStored(items: seq<Item>, known: Known, p: seq<byte>)
    requires Storable(p, known.loaded) && BeginsPlume(p)
    ensures var item := NewItem(items, known, p);
            && item.id.kosa == p[6] && item.id.measure == p[4] && item.id.packet == 1 && item.id.kosaYear == p[7]
            && |item.packet| == |p|
            && (p[0] != 0x4a ==> item.packet == p)
            && forall i :: 0 <= i < |p| ==>
                 item.packet[i] == if p[0] == 0x4a && (i == 15 || i == 16) then p[i - 9] else p[i]
    ensures Announced(0, [p]) == p[5]
  {
    assert [p][1..] == [];
  }

  /**
   The item for a later packet: plume, number and packet from its header, but from the loaded record for packets with
   deltas. The year is that of the first item if that has a first header, or else the collected or the loaded one.
   */
  lemma LaterIsStored(items: seq<Item>, known: Known, p: seq<byte>)
    requires Storable(p, known.loaded) && !BeginsPlume(p)
    ensures p[0] == 0x4b || p[0] == 0x49 || p[0] == 0x4d
    ensures var item, loaded := NewItem(items, known, p), known.loaded;
            && item.packet == p && item.id.packet == p[3]
            && (p[0] != 0x4b && loaded.Some? ==>
                  item.id.kosa == loaded.value.kosa && item.id.measure == loaded.value.measure
                  && item.id.kosaYear == loaded.value.kosaYear)
            && (p[0] == 0x4b || loaded.None? ==>
                  && item.id.kosa == p[1] && item.id.measure == p[2]
                  && (items != [] && BeginsPlume(items[0].packet) ==> item.id.kosaYear == items[0].packet[7])
                  && (items == [] || !BeginsPlume(items[0].packet) ==>
                        && (known.collected(p[1]).Some? ==> item.id.kosaYear == known.collected(p[1]).value)
                        && (known.collected(p[1]).None? && loaded.Some? ==> item.id.kosaYear == loaded.value.kosaYear)
                        && (known.collected(p[1]).None? && loaded.None? ==> item.id.kosaYear == 0)))
    ensures Announced(0, [p]) == 0
  {
    hide Decompressed;
    assert [p][1..] == [];
  }

  // -------------------------------------------------------------- whole buffers

  lemma BasePacketParts(m: Measurements, i: nat, number: byte) returns (rest: seq<byte>)
    requires 1 <= i && number == i + 1
    ensures BasePacket(m, i) == SecondHeader(m, PKT_2, number) + rest && IsSecond(PKT_2)
  {
    hide Records, SecondHeader;
    rest := Records(m, 5 * (i - 1), Span(|m.temperature|, 5 * (i - 1), 5));
  }

  lemma LabelOfSecond(m: Measurements, number: byte, rest: seq<byte>, p: seq<byte>, loaded: Option<ItemId>)
    requires p == SecondHeader(m, PKT_2, number) + rest
    ensures Whole(p) && Labelled(p, m.kosaYear, loaded) == Item(ItemId(m.kosa, m.measure % 256, number, m.kosaYear), p)
  {
    SecondHeaderFields(m, PKT_2, number, rest);
  }

  lemma BaseLabel(m: Measurements, i: nat, loaded: Option<ItemId>)
    requires |m.temperature| <= 256 && 1 <= i < |BasePackets(m)| == 1 + (|m.temperature| + 4) / 5
    ensures Whole(BasePacket(m, i))
    ensures Labelled(BasePacket(m, i), m.kosaYear, loaded)
            == Item(ItemId(m.kosa, m.measure % 256, i + 1, m.kosaYear), BasePacket(m, i))
  {
    var rest := BasePacketParts(m, i, i + 1);
    hide *;
    LabelOfSecond(m, i + 1, rest, BasePacket(m, i), loaded);
  }

  lemma MeasurementTyped(ps: seq<seq<byte>>, kosa: byte, year: byte)
    requires OneMeasurement(ps, kosa, year)
    ensures ps != [] && AllWhole(ps) && forall i :: 0 <= i < |ps| ==> Typed(ps[i])
  {
  }

  /** The packets of a measurement can be stored, with or without a loaded record. */
  lemma MeasurementStorable(ps: seq<seq<byte>>, kosa: byte, year: byte, loaded: Option<ItemId>)
    requires OneMeasurement(ps, kosa, year)
    ensures AllStorable(ps, loaded)
  {
  }

  lemma LabelOfFirst(m: Measurements, loaded: Option<ItemId>)
    ensures var p := FirstHeader(m, PKT_1, 0) + MeasureHeader(m);
            Whole(p) && Labelled(p, m.kosaYear, loaded) == Item(ItemId(m.kosa, m.measure % 256, 1, m.kosaYear), p)
  {
    BaseFirstWhole(m);
    hide PacketCount;
  }

  /** A buffer with all base packets stores exactly these, numbered from 1, with the plume and year of the first. */
  lemma BaseInOneBuffer(m: Measurements, known: Known)
    requires |m.temperature| <= 256
    ensures Frames(Concat(BasePackets(m))) == BasePackets(m)
    ensures AllWhole(BasePackets(m)) && AllStorable(BasePackets(m), known.loaded)
    ensures var items := PutPackets([], known, BasePackets(m));
            && |items| == |BasePackets(m)| == 1 + (|m.temperature| + 4) / 5
            && forall i :: 0 <= i < |items| ==>
                 items[i] == Item(ItemId(m.kosa, m.measure % 256, i + 1, m.kosaYear), BasePackets(m)[i])
  {
    hide BasePackets, BasePacket, Concat, Frames, Framable, OneMeasurement, Whole, Labelled, PutPackets;
    hide FirstHeader, MeasureHeader;
    BaseIsOneMeasurement(m);
    var ps := BasePackets(m);
    MeasurementTyped(ps, m.kosa, m.kosaYear);
    MeasurementStorable(ps, m.kosa, m.kosaYear, known.loaded);
    FramesOfConcat(ps);
    FirstLabelsAll(known, ps, m.kosa, m.kosaYear);
    CountOfBasePackets(m);
    forall i | 0 <= i < |ps|
      ensures Labelled(ps[i], m.kosaYear, known.loaded)
              == Item(ItemId(m.kosa, m.measure % 256, i + 1, m.kosaYear), ps[i])
    {
      BaseAt(m, i);
      if i == 0 {
        LabelOfFirst(m, known.loaded);
      } else {
        BaseLabel(m, i, known.loaded);
      }
    }
  }

  /** Delta packets sent as one buffer are found again exactly if the deltas fill the first packet, or have few bits. */
  lemma DeltaInOneBuffer(m: Measurements, d: seq<int16>, known: Known)
    requires |d| <= 256
    ensures AllWhole(DeltaPackets(m, d)) && AllStorable(DeltaPackets(m, d), known.loaded)
    ensures Frames(Concat(DeltaPackets(m, d))) == DeltaPackets(m, d) <==> FillsFirst(d)
    ensures PutPackets([], known, DeltaPackets(m, d)) == AllLabelled(DeltaPackets(m, d), m.kosaYear, known.loaded)
  {
    hide DeltaPackets, DeltaFirst, Concat, Frames, Framable, OneMeasurement, Whole, FillsFirst;
    DeltaIsOneMeasurement(m, d);
    MeasurementTyped(DeltaPackets(m, d), m.kosa, m.kosaYear);
    MeasurementStorable(DeltaPackets(m, d), m.kosa, m.kosaYear, known.loaded);
    FramesOfConcat(DeltaPackets(m, d));
    FirstLabelsAll(known, DeltaPackets(m, d), m.kosa, m.kosaYear);
  }

  lemma OneDeltaOf128()
    ensures SampleBits([128]) == 8 && SampleBytes([128]) == 1
  {
    assert MaxDiff([]) == 0 && [128][..0] == [];
    assert MaxDiff([128]) == 128;
  }

  /** One sensor eight degrees above its base gets a packet of 26 bytes, of which 24 are taken for the packet. */
  lemma EightDegreesAreTooLong(m: Measurements)
    requires m.temperature == [8.0]
    ensures var d := Deltas(m.temperature, [0.0]);
            && |DeltaFirst(m, d)| == 26
            && Frames(Concat(DeltaPackets(m, d))) != DeltaPackets(m, d)
  {
    hide DeltaPackets, Concat, Frames, SampleBytes, SampleBits;
    var d := Deltas(m.temperature, [0.0]);
    assert d == [128];
    OneDeltaOf128();
    DeltaInOneBuffer(m, d, Known((kosa: byte) => None, None));
  }

  /** From the temperatures through one buffer and back. */
  lemma BaseBufferRoundTrip(m: Measurements, known: Known)
    requires |m.temperature| <= 256
    ensures AllStorable(Frames(Concat(BasePackets(m))), known.loaded)
    ensures var items := PutPackets([], known, Frames(Concat(BasePackets(m))));
            AllReadable(items) && AllValues(items, None) == Stored(m.temperature, |m.temperature|)
  {
    hide BasePackets, Concat, Frames, Whole, PutPackets, Stored, CollectionGet, Readable;
    BaseInOneBuffer(m, known);
    var items, ps := PutPackets([], known, BasePackets(m)), BasePackets(m);
    assert forall j :: 0 <= j < |items| ==> items[j].packet == ps[j];
    BaseRoundTrip(m, items, None);
  }

  // -------------------------------------------------------- packets one by one

  lemma FrameOfOne(p: seq<byte>)
    requires Typed(p)
    ensures Frames(p) == [p] <==> Ending(p)
  {
    FramesOfConcat([p]);
    assert Concat([p]) == p + Concat([]) == p;
  }

  lemma {:induction false} FramedEach(ps: seq<seq<byte>>)
    requires forall i :: 0 <= i < |ps| ==> Frames(ps[i]) == [ps[i]]
    ensures AllFrames(ps) == ps
  {
    hide Frames;
    if ps != [] {
      var n := |ps| - 1;
      FramedEach(ps[..n]);
      assert ps == ps[..n] + [ps[n]];
    }
  }

  lemma WholeIsTyped(p: seq<byte>)
    requires Whole(p)
    ensures Typed(p)
  {
  }

  /** The base packets, put as one buffer each, are found again. */
  lemma BaseFramed(m: Measurements)
    requires |m.temperature| <= 256
    ensures AllFrames(BasePackets(m)) == BasePackets(m)
  {
    hide BasePackets, BasePacket, Frames, FirstHeader, MeasureHeader, Ending, Typed, Whole, Fixed;
    var ps := BasePackets(m);
    forall i | 0 <= i < |ps|
      ensures Frames(ps[i]) == [ps[i]]
    {
      BaseAt(m, i);
      if i == 0 {
        BaseFirstWhole(m);
        WholeIsTyped(ps[0]);
      } else {
        BaseRestWhole(m, i);
      }
      FrameOfOne(ps[i]);
    }
    FramedEach(ps);
  }

  lemma FramedOne(p: seq<byte>)
    ensures AllFrames([p]) == Frames(p)
  {
    assert [p][..0] == [] && AllFrames([]) == [];
  }

  lemma ZeroAfterPacket(m: Measurements, d: seq<int16>)
    requires !FillsFirst(d)
    ensures var p := DeltaFirst(m, d);
            |p| > 24 && p[0] == 0x48 && p[24] == 0
  {
    DeltaFirstSize(m, d);
    DeltaFirstWhole(m, d);
    hide SampleBits, Samples, DeltaFirst, FirstHeader, DiffHeader, PacketCount;
    var count, tail, end := DeltaFirstParts(m, d);
    var h := FirstHeader(m, DELTA_1, SampleBits(d));
    assert DeltaFirst(m, d) == h + (DiffHeader(m) + Samples(d, 0, count, SampleBytes(d)) + tail);
    FirstHeaderFields(m, DELTA_1, SampleBits(d), DiffHeader(m) + Samples(d, 0, count, SampleBytes(d)) + tail);
    var front := |h + DiffHeader(m) + Samples(d, 0, count, SampleBytes(d))|;
    assert front <= 24 && tail[24 - front] == 0;
  }

  lemma RawIsNotStorable(b: seq<byte>, loaded: Option<ItemId>)
    requires b != [] && b[0] == 0
    ensures Frames(b) != [] && !Storable(Frames(b)[0], loaded)
  {
    FirstByteDecides(b);
    hide Frames, LastPart;
    var f := b[..FrameSize(b)];
    assert Frames(b)[0] == f && f[0] == 0;
  }

  /** A first delta packet that is too long leaves a zero byte over, which is taken for a raw packet. */
  lemma TooLongIsError(m: Measurements, d: seq<int16>, loaded: Option<ItemId>)
    requires !FillsFirst(d)
    ensures !AllStorable(Frames(DeltaFirst(m, d)), loaded)
  {
    ZeroAfterPacket(m, d);
    var p := DeltaFirst(m, d);
    hide DeltaFirst, Frames, LastPart, Storable, FillsFirst, PacketType;
    FirstByteDecides(p);
    assert p[24..][0] == 0;
    RawIsNotStorable(p[24..], loaded);
    assert Frames(p)[1] == Frames(p[24..])[0];
  }

  /** Delta packets, put as one buffer each, are found again exactly if the deltas fill the first or have few bits. */
  lemma DeltaFramed(m: Measurements, d: seq<int16>, loaded: Option<ItemId>)
    requires |d| <= 256
    ensures AllFrames(DeltaPackets(m, d)) == DeltaPackets(m, d) <==> FillsFirst(d)
    ensures AllStorable(AllFrames(DeltaPackets(m, d)), loaded) <==> FillsFirst(d)
  {
    hide DeltaFirst, DeltaSecond, Frames, Whole, SampleBytes, SecondPackets, Ending, Typed, Fixed, FillsFirst;
    var ps := DeltaPackets(m, d);
    FirstOfDelta(m, d);
    DeltaFirstSize(m, d);
    DeltaFirstWhole(m, d);
    WholeIsTyped(ps[0]);
    FrameOfOne(ps[0]);
    if FillsFirst(d) {
      forall i | 1 <= i < |ps|
        ensures Frames(ps[i]) == [ps[i]]
      {
        DeltaSecondWhole(m, d, i - 1, SampleBytes(d));
        WholeIsTyped(ps[i]);
        FrameOfOne(ps[i]);
      }
      FramedEach(ps);
      DeltaIsOneMeasurement(m, d);
      MeasurementStorable(ps, m.kosa, m.kosaYear, loaded);
    } else {
      assert |ps| == 1 && ps == [ps[0]];
      FramedOne(ps[0]);
      TooLongIsError(m, d, loaded);
    }
  }

  lemma HuffmanTyped(m: Measurements, d: seq<int16>, c: nat, k: nat, j: nat)
    requires |d| <= |m.temperature| && c <= |m.temperature| && 1 <= j <= k < 256 && Chunks(m, d, c, k).Ok?
    ensures var p := Chunks(m, d, c, k).value[j - 1];
            p != [] && (p[0] == 0x4c || p[0] == 0x4d)
  {
    hide HuffmanFirst, HuffmanSecond, Chunks, SampleBits;
    ChunksAt(m, d, c, k, j);
    var p := Chunks(m, d, c, k).value[j - 1];
    if j == 1 {
      FirstUnzips(m, d, c, p);
    } else {
      SecondUnzips(m, d, c, j, p);
    }
  }
}
