/** Packets of many plumes, interleaved: each plume has one group, and which of them can be read. */
module Delivery {
  import opened Wrappers
  import opened Bits
  import opened Temperature
  import opened Packets
  import opened BaseBuilder
  import opened DeltaWidth
  import opened DeltaBuilder
  import opened HuffmanBuilder
  import opened Readings
  import opened Assembly
  import opened BaseReading
  import opened NarrowReading
  import opened DeltaReading
  import opened HuffmanReading
  import opened HuffmanLimits
  import opened EndToEnd
  import opened Framing
  import opened FramingLaws
  import opened Collector
  import opened CollectorLaws
  import opened Owners
  import opened YearRecovery
  import opened PlumeGroups

  // -------------------------------------------------- reading in the collector

  lemma PacketOfLabelled(p: seq<byte>, year: byte, loaded: Option<ItemId>)
    requires Whole(p) && Stamped(p) == p
    ensures Labelled(p, year, loaded).packet == p
  {
  }

  lemma InMeasurement(ps: seq<seq<byte>>, kosa: byte, year: byte, p: seq<byte>)
    requires OneMeasurement(ps, kosa, year) && p in ps
    ensures Whole(p) && Stamped(p) == p
  {
  }

  /** Just these packets arrived, each at least once. */
  ghost predicate SamePackets(arrived: seq<seq<byte>>, sent: seq<seq<byte>>) {
    (forall p :: p in arrived ==> p in sent) && forall p :: p in sent ==> p in arrived
  }

  /** Storing the packets changes nothing in them. */
  predicate Unstamped(ps: seq<seq<byte>>) {
    forall p :: p in ps ==> Whole(p) && Stamped(p) == p
  }

  lemma ArrivedIsSent(arrived: seq<Arrival>, sent: seq<seq<byte>>, a: Arrival)
    requires SamePackets(PacketsOf(arrived), sent) && a in arrived
    ensures a.packet in sent
  {
    var i :| 0 <= i < |arrived| && arrived[i] == a;
    assert PacketsOf(arrived)[i] in PacketsOf(arrived);
  }

  lemma SentHasArrived(arrived: seq<seq<byte>>, sent: seq<seq<byte>>, p: seq<byte>)
    requires SamePackets(arrived, sent) && p in sent
    ensures p in arrived
  {
  }

  lemma SentIsHeld(arrived: seq<Arrival>, sent: seq<seq<byte>>, years: byte -> byte, items: seq<Item>)
    requires AllArrive(arrived) && SamePackets(PacketsOf(arrived), sent) && Unstamped(sent)
    requires items == Dated(arrived, years)
    ensures Holds(items, sent) && |items| == |arrived|
    ensures forall i :: 0 <= i < |items| ==> items[i].packet == arrived[i].packet
  {
    hide Whole, Stamped, SamePackets;
    var ps := PacketsOf(arrived);
    forall i | 0 <= i < |items|
      ensures items[i].packet == ps[i] && ps[i] in sent
    {
      ArrivedIsSent(arrived, sent, arrived[i]);
      PacketOfLabelled(ps[i], years(PlumeOf(ps[i])), arrived[i].loaded);
    }
    forall p | p in sent
      ensures exists j :: 0 <= j < |items| && items[j].packet == p
    {
      assert p in ps by { SentHasArrived(ps, sent, p); }
      var j :| 0 <= j < |ps| && ps[j] == p;
      assert items[j].packet == p;
    }
  }

  lemma SomethingArrived(arrivals: seq<Arrival>, kosa: byte)
    requires AllArrive(arrivals) && OfPlume(arrivals, kosa) != []
    ensures arrivals != []
  {
  }

  /**
   Packets of any number of plumes are put one by one, and the years are found. A plume of which just the packets
   `sent` arrived has one group, which holds these. With deltas in the first that arrived, reading the group is
   defined exactly if a packet of the plume arrived first of all; with deltas in none it always is.
   */
  lemma GroupHoldsSent(arrivals: seq<Arrival>, moves: nat -> bool, years: byte -> byte, kosa: byte,
                       sent: seq<seq<byte>>)
    returns (j: nat)
    requires AllArrive(arrivals) && TrueYears(arrivals, years) && AllDated(arrivals, years)
    requires OfPlume(arrivals, kosa) != [] && SamePackets(PacketsOf(OfPlume(arrivals, kosa)), sent) && Unstamped(sent)
    ensures arrivals != [] && j < |Groups(arrivals, moves)|
    ensures var g, arrived := Groups(arrivals, moves)[j], OfPlume(arrivals, kosa);
            && g.plume.id.kosa == kosa && Holds(g.plume.items, sent)
            && g.plume.items != [] && g.plume.items[0].packet == arrived[0].packet
            && (IsDiff(arrived[0].packet) ==> (ReadDefined(g) <==> PlumeOf(arrivals[0].packet) == kosa))
            && ((forall p :: p in sent ==> !IsDiff(p)) ==> ReadDefined(g))
  {
    hide Arrives, Whole, Stamped, Run, OfPlume, Dated, AllDated, TrueYears, Groups, FirstOwns, ReadDefined, IsDiff;
    hide PlumeOf, SamePackets, Unstamped;
    var arrived := OfPlume(arrivals, kosa);
    j := OneGroupPerPlume(arrivals, years, kosa);
    GroupsOfRun(arrivals, moves);
    var g := Groups(arrivals, moves)[j];
    assert g.plume == Run(arrivals)[j];
    SentIsHeld(arrived, sent, years, g.plume.items);
    SomethingArrived(arrivals, kosa);
    FirstGroup(arrivals, years);
    OnlyFirstIsRead(Groups(arrivals, moves), j);
    forall i | 0 <= i < |g.plume.items|
      ensures g.plume.items[i].packet in sent
    {
      ArrivedIsSent(arrived, sent, arrived[i]);
    }
  }

  lemma MeasurementUnstamped(ps: seq<seq<byte>>, kosa: byte, year: byte)
    requires OneMeasurement(ps, kosa, year)
    ensures Unstamped(ps)
  {
    forall p | p in ps
      ensures Whole(p) && Stamped(p) == p
    {
      InMeasurement(ps, kosa, year, p);
    }
  }

  lemma SentSome(arrived: seq<Arrival>, sent: seq<seq<byte>>)
    requires SamePackets(PacketsOf(arrived), sent) && sent != []
    ensures arrived != []
  {
    assert sent[0] in PacketsOf(arrived);
  }

  lemma DiffItem(items: seq<Item>, i: nat)
    requires AllDiff(items) && i < |items|
    ensures IsDiff(items[i].packet)
  {
    hide IsDiff;
  }

  lemma KnownWidth(items: seq<Item>, first: seq<byte>, dataBytes: Width)
    requires items != []
    ensures WidthKnown(items, first, dataBytes) <==> dataBytes == 1 || items[0].packet == first
  {
  }

  lemma NoBaseDiffs(m: Measurements)
    requires |m.temperature| <= 256
    ensures forall p :: p in BasePackets(m) ==> !IsDiff(p)
  {
    hide BasePackets, BasePacket, FirstHeader, MeasureHeader, PacketType;
    forall p | p in BasePackets(m)
      ensures !IsDiff(p)
    {
      var i :| 0 <= i < |BasePackets(m)| && BasePackets(m)[i] == p;
      BaseAt(m, i);
      if i == 0 {
        FirstHeaderFields(m, PKT_1, 0, MeasureHeader(m));
      } else {
        CountOfBasePackets(m);
        var rest := BasePacketParts(m, i, i + 1);
        SecondHeaderFields(m, PKT_2, i + 1, rest);
      }
    }
  }

  lemma ValuesWithoutBase(items: seq<Item>)
    requires AllReadable(items)
    ensures AllValues(items, None) == CollectionGet(items, None, |items|, map[])
  {
    hide CollectionGet;
  }

  /** A group of base packets can always be read, and gives the stored temperatures. */
  lemma BaseThroughCollector(arrivals: seq<Arrival>, moves: nat -> bool, years: byte -> byte, m: Measurements)
    returns (j: nat)
    requires AllArrive(arrivals) && TrueYears(arrivals, years) && AllDated(arrivals, years)
    requires |m.temperature| <= 256 && SamePackets(PacketsOf(OfPlume(arrivals, m.kosa)), BasePackets(m))
    ensures j < |Groups(arrivals, moves)|
    ensures var g := Groups(arrivals, moves)[j];
            && g.plume.id.kosa == m.kosa && ReadDefined(g) && AllReadable(g.plume.items)
            && AllValues(g.plume.items, None) == Stored(m.temperature, |m.temperature|)
  {
    hide *;
    BaseIsOneMeasurement(m);
    MeasurementTyped(BasePackets(m), m.kosa, m.kosaYear);
    MeasurementUnstamped(BasePackets(m), m.kosa, m.kosaYear);
    SentSome(OfPlume(arrivals, m.kosa), BasePackets(m));
    j := GroupHoldsSent(arrivals, moves, years, m.kosa, BasePackets(m));
    NoBaseDiffs(m);
    BaseRoundTrip(m, Groups(arrivals, moves)[j].plume.items, None);
    ValuesWithoutBase(Groups(arrivals, moves)[j].plume.items);
  }

  /**
   The same for plain delta packets: the deltas must be lossless and the first packet cut right, and that must arrive
   before the others of its plume, or samples take one byte.
   */
  lemma DeltaThroughCollector(arrivals: seq<Arrival>, moves: nat -> bool, years: byte -> byte,
                              m: Measurements, mb: Measurements, baseItems: seq<Item>) returns (j: nat)
    requires AllArrive(arrivals) && TrueYears(arrivals, years) && AllDated(arrivals, years)
    requires |mb.temperature| <= 256 && Holds(baseItems, BasePackets(mb))
    requires var d := Deltas(m.temperature, mb.temperature);
             SamePackets(PacketsOf(OfPlume(arrivals, m.kosa)), DeltaPackets(m, d))
    ensures arrivals != [] && j < |Groups(arrivals, moves)|
    ensures var g, d := Groups(arrivals, moves)[j], Deltas(m.temperature, mb.temperature);
            && g.plume.id.kosa == m.kosa && AllReadable(g.plume.items) && AllReadable(baseItems)
            && OfPlume(arrivals, m.kosa) != []
            && (ReadDefined(g) <==> PlumeOf(arrivals[0].packet) == m.kosa)
            && (ReadDefined(g) ==>
                  (AllValues(g.plume.items, Some(baseItems)) == Stored(m.temperature, |d|)
                   <==> Lossless(d, |d|) && CutRight(d, |mb.temperature|)
                        && (SampleBytes(d) == 1 || OfPlume(arrivals, m.kosa)[0].packet == DeltaPackets(m, d)[0])))
  {
    LeastBounds(|m.temperature|, |mb.temperature|);
    hide *;
    var d := Deltas(m.temperature, mb.temperature);
    assert |d| == Least(|m.temperature|, |mb.temperature|);
    DeltaIsOneMeasurement(m, d);
    MeasurementUnstamped(DeltaPackets(m, d), m.kosa, m.kosaYear);
    SentSome(OfPlume(arrivals, m.kosa), DeltaPackets(m, d));
    j := GroupHoldsSent(arrivals, moves, years, m.kosa, DeltaPackets(m, d));
    var items := Groups(arrivals, moves)[j].plume.items;
    DeltaAreDiff(m, d, items);
    DiffItem(items, 0);
    DeltaRoundTrip(m, mb, items, baseItems);
    KnownWidth(items, DeltaPackets(m, d)[0], SampleBytes(d));
  }

  lemma HuffmanUnstamped(m: Measurements, baseTemperature: seq<real>, k: nat)
    requires |m.temperature| <= 256 && HuffmanPackets(m, baseTemperature).Ok?
    requires 1 <= k <= |HuffmanPackets(m, baseTemperature).value|
    ensures Unstamped(HuffmanPackets(m, baseTemperature).value[..k])
  {
    hide Deltas, Chosen, HuffmanPackets, Chunks, PacketTotal, Unstamped;
    var d := Deltas(m.temperature, baseTemperature);
    var c := Chosen(m, d, |m.temperature|);
    ChosenPackets(m, baseTemperature, k);
    HuffmanIsOneMeasurement(m, d, c, k);
    hide *;
    MeasurementUnstamped(HuffmanPackets(m, baseTemperature).value[..k], m.kosa, m.kosaYear);
  }

  lemma HuffmanFirstIsDiff(m: Measurements, d: seq<int16>, c: nat)
    requires |d| <= |m.temperature| && c <= |m.temperature|
    ensures IsDiff(HuffmanFirst(m, d, c))
  {
    hide HuffmanFirst, PacketType;
    FirstUnzips(m, d, c, HuffmanFirst(m, d, c));
  }

  lemma HuffmanHeadIsDiff(m: Measurements, baseTemperature: seq<real>)
    requires |m.temperature| <= 256 && HuffmanPackets(m, baseTemperature).Ok?
    ensures HuffmanPackets(m, baseTemperature).value != []
    ensures IsDiff(HuffmanPackets(m, baseTemperature).value[0])
  {
    var n, d := |m.temperature|, Deltas(m.temperature, baseTemperature);
    LeastBounds(n, |baseTemperature|);
    hide *;
    HuffmanIsSome(m, baseTemperature);
    ChosenPackets(m, baseTemperature, 1);
    HuffmanFirstIsDiff(m, d, Chosen(m, d, n));
  }

  /** The items are Huffman packets 1 to `k` of a measurement, so all have deltas. */
  lemma HuffmanAreDiff(m: Measurements, baseTemperature: seq<real>, k: nat, items: seq<Item>)
    requires |m.temperature| <= 256 && HuffmanPackets(m, baseTemperature).Ok?
    requires 1 <= k <= |HuffmanPackets(m, baseTemperature).value|
    requires Holds(items, HuffmanPackets(m, baseTemperature).value[..k])
    ensures AllDiff(items)
  {
    var n, d := |m.temperature|, Deltas(m.temperature, baseTemperature);
    LeastBounds(n, |baseTemperature|);
    hide *;
    ChosenPackets(m, baseTemperature, k);
    CollectedChunks(m, d, Chosen(m, d, n), k, items);
    CollectedWidth(m, d, Chosen(m, d, n), k, items);
  }

  /**
   Packets of any number of plumes are put one by one, and the years are found. A plume whose arrived packets are the
   Huffman packets 1 to `k` of a measurement, in any order and any number of times, has one group.
   Reading it is defined exactly if the plume's packet arrived first of all: the items of other groups point to
   collections that no longer exist. What is then read are the stored temperatures, exactly if the deltas are lossless,
   if the first packet arrived before the others of its plume or samples take one byte, and otherwise never are all.
   */
  lemma HuffmanThroughCollector(arrivals: seq<Arrival>, moves: nat -> bool, years: byte -> byte,
                                m: Measurements, mb: Measurements, k: nat, baseItems: seq<Item>) returns (j: nat)
    requires AllArrive(arrivals) && TrueYears(arrivals, years) && AllDated(arrivals, years)
    requires |m.temperature| <= 256 && |mb.temperature| <= 256
    requires HuffmanPackets(m, mb.temperature).Ok? && 1 <= k <= |HuffmanPackets(m, mb.temperature).value|
    requires SamePackets(PacketsOf(OfPlume(arrivals, m.kosa)), HuffmanPackets(m, mb.temperature).value[..k])
    requires Holds(baseItems, BasePackets(mb))
    ensures j < |Groups(arrivals, moves)| && Groups(arrivals, moves)[j].plume.id.kosa == m.kosa
    ensures arrivals != [] && OfPlume(arrivals, m.kosa) != []
    ensures ReadDefined(Groups(arrivals, moves)[j]) <==> PlumeOf(arrivals[0].packet) == m.kosa
    ensures AllReadable(Groups(arrivals, moves)[j].plume.items) && AllReadable(baseItems)
    ensures var n, d := |m.temperature|, Deltas(m.temperature, mb.temperature);
            var count := ReadCount(n, Chosen(m, d, n), k, |mb.temperature|);
            var ps := HuffmanPackets(m, mb.temperature).value;
            var read := AllValues(Groups(arrivals, moves)[j].plume.items, Some(baseItems));
            var known := SampleBytes(d) == 1 || OfPlume(arrivals, m.kosa)[0].packet == ps[0];
            ReadDefined(Groups(arrivals, moves)[j]) ==>
              && (known ==> (read == Stored(m.temperature, count) <==> Lossless(d, count)))
              && (k == |ps| ==> (read == Stored(m.temperature, |d|) <==> known && Lossless(d, |d|)))
  {
    hide *;
    var sent := HuffmanPackets(m, mb.temperature).value[..k];
    HuffmanUnstamped(m, mb.temperature, k);
    SentSome(OfPlume(arrivals, m.kosa), sent);
    j := GroupHoldsSent(arrivals, moves, years, m.kosa, sent);
    var items := Groups(arrivals, moves)[j].plume.items;
    HuffmanAreDiff(m, mb.temperature, k, items);
    DiffItem(items, 0);
    HuffmanRoundTrip(m, mb, k, items, baseItems);
    KnownWidth(items, HuffmanPackets(m, mb.temperature).value[0], SampleBytes(Deltas(m.temperature, mb.temperature)));
  }

  lemma FirstPush(item: Item, expected: byte, moves: nat -> bool)
    ensures AddKosa([], item, expected, moves) == [KosaPackets(Plume(item.id, [item]), [true], expected)]
  {
    assert AllOwned(1, true) == [true];
  }

  lemma OtherPlume(g: KosaPackets, id: ItemId)
    requires g.plume.id.kosa != id.kosa
    ensures Find(Plumes([g]), id) == 1
  {
  }

  lemma FirstItem(plumes: seq<Plume>, a: Arrival)
    requires Arrives(a) && HasFirstHeader(a.packet)
    ensures var item := Arriving(plumes, a);
            item.id.kosa == FirstKosa(a.packet) && item.id.kosaYear == FirstYear(a.packet)
            && item.packet == Stamped(a.packet) && Announced(0, [a.packet]) == PacketsField(a.packet)
  {
    assert [a.packet][1..] == [];
  }

  lemma NoneYet(moves: nat -> bool)
    ensures AllArrive([]) && Groups([], moves) == []
  {
  }

  lemma NewPlumeIsLast(koses: seq<KosaPackets>, item: Item, expected: byte, moves: nat -> bool)
    requires Find(Plumes(koses), item.id) == |koses| > 0
    ensures var r := AddKosa(koses, item, expected, moves);
            |r| == |koses| + 1 && r[|koses|].plume == Plume(item.id, [item])
  {
  }

  lemma TwoPlumes(p: seq<byte>, q: seq<byte>, moves: nat -> bool)
    requires Whole(p) && Whole(q) && HasFirstHeader(p) && HasFirstHeader(q) && FirstKosa(p) != FirstKosa(q)
    requires IsDiff(q) && PacketsField(q) > 0 && Stamped(q) == q
    ensures AllArrive([Arrival(p, None), Arrival(q, None)])
    ensures var groups := Groups([Arrival(p, None), Arrival(q, None)], moves);
            && |groups| == 2 && ReadDefined(groups[0]) && !ReadDefined(groups[1])
            && groups[0].expectedPackets == PacketsField(q) && groups[1].expectedPackets == 0
  {
    var a, b, countP, countQ := Arrival(p, None), Arrival(q, None), PacketsField(p), PacketsField(q);
    hide *;
    NoneYet(moves);
    GroupsStep([], a, moves);
    assert [] + [a] == [a] && [a] + [b] == [a, b];
    var one := Groups([a], moves);
    FirstItem(Plumes([]), a);
    var item := Arriving(Plumes([]), a);
    FirstPush(item, countP, moves);
    GroupsStep([a], b, moves);
    FirstItem(Plumes(one), b);
    var other := Arriving(Plumes(one), b);
    OtherPlume(one[0], other.id);
    NewPlumeExpects(one, other, countQ, moves);
    NewPlumeIsLast(one, other, countQ, moves);
    GroupsOfRun([a, b], moves);
    OnlyFirstIsRead(Groups([a, b], moves), 0);
    OnlyFirstIsRead(Groups([a, b], moves), 1);
  }

  lemma HuffmanHead(m: Measurements, base: seq<real>)
    requires |m.temperature| <= 256 && HuffmanPackets(m, base).Ok?
    ensures HuffmanPackets(m, base).value != []
    ensures var p := HuffmanPackets(m, base).value[0];
            && Whole(p) && HasFirstHeader(p) && Stamped(p) == p && IsDiff(p)
            && FirstKosa(p) == m.kosa && PacketsField(p) == 1 + (|m.temperature| + 4) / 5
  {
    var n, d := |m.temperature|, Deltas(m.temperature, base);
    LeastBounds(n, |base|);
    hide *;
    HuffmanIsSome(m, base);
    HuffmanHeadIsDiff(m, base);
    ChosenPackets(m, base, 1);
    HuffmanFirstWhole(m, d, Chosen(m, d, n), HuffmanPackets(m, base).value[0]);
    SameCount(n, 0);
    CountOfBasePackets(m);
  }

  /** Two loggers send one packet each: the second group cannot be read, and its packet count goes to the first. */
  lemma SecondPlumeIsLost(m: Measurements, n: Measurements, base: seq<real>, moves: nat -> bool)
    requires |m.temperature| <= 256 && |n.temperature| <= 256 && m.kosa != n.kosa
    requires HuffmanPackets(m, base).Ok? && HuffmanPackets(n, base).Ok?
    ensures HuffmanPackets(m, base).value != [] && HuffmanPackets(n, base).value != []
    ensures var p, q := HuffmanPackets(m, base).value[0], HuffmanPackets(n, base).value[0];
            && AllArrive([Arrival(p, None), Arrival(q, None)])
            && var groups := Groups([Arrival(p, None), Arrival(q, None)], moves);
               && |groups| == 2 && ReadDefined(groups[0]) && !ReadDefined(groups[1])
               && groups[0].expectedPackets == 1 + (|n.temperature| + 4) / 5 && groups[1].expectedPackets == 0
  {
    hide HuffmanPackets, Groups, ReadDefined, IsDiff, Whole, Stamped, HasFirstHeader, PacketsField, FirstKosa;
    HuffmanHead(m, base);
    HuffmanHead(n, base);
    TwoPlumes(HuffmanPackets(m, base).value[0], HuffmanPackets(n, base).value[0], moves);
  }

  lemma {:induction false} AnnouncedSnoc(expected: byte, ps: seq<seq<byte>>, p: seq<byte>)
    requires AllWhole(ps) && Whole(p)
    ensures AllWhole(ps + [p])
    ensures Announced(expected, ps + [p]) == if HasFirstHeader(p) then PacketsField(p) else Announced(expected, ps)
    decreases |ps|
  {
    hide Whole, PacketType, PacketsField;
    if ps == [] {
      assert [] + [p] == [p] && [p][1..] == [];
    } else {
      assert (ps + [p])[1..] == ps[1..] + [p];
      AnnouncedSnoc(if HasFirstHeader(ps[0]) then PacketsField(ps[0]) else expected, ps[1..], p);
    }
  }

  /** All arrivals are of one plume and one year, and first packets announce some packets. */
  predicate OnePlume(arrivals: seq<Arrival>, kosa: byte, years: byte -> byte) {
    forall i :: 0 <= i < |arrivals| ==>
      && Arrives(arrivals[i]) && PlumeOf(arrivals[i].packet) == kosa && TrueYear(arrivals[i], years)
      && (HasFirstHeader(arrivals[i].packet) ==> PacketsField(arrivals[i].packet) > 0)
  }

  lemma NothingAnnounced(expected: byte)
    ensures AllWhole([]) && Announced(expected, []) == expected
  {
  }

  /** An item of the same plume and year is added to the only group. */
  lemma GrowOne(g: KosaPackets, item: Item, expected: byte, moves: nat -> bool)
    requires g.plume.items != [] && KeyOf(item) == Key(g.plume.id.kosa, g.plume.id.kosaYear)
    ensures var r := AddKosa([g], item, expected, moves);
            |r| == 1 && r[0].plume == Plume(g.plume.id, g.plume.items + [item])
            && r[0].expectedPackets == if expected > 0 then expected else g.expectedPackets
  {
  }

  lemma OnePlumeBefore(arrivals: seq<Arrival>, a: Arrival, kosa: byte, years: byte -> byte)
    requires AllArrive(arrivals + [a]) && OnePlume(arrivals + [a], kosa, years)
    ensures AllArrive(arrivals) && OnePlume(arrivals, kosa, years) && TrueYears(arrivals, years)
    ensures Arrives(a) && PlumeOf(a.packet) == kosa && TrueYear(a, years)
    ensures HasFirstHeader(a.packet) ==> PacketsField(a.packet) > 0
    ensures AllWhole(PacketsOf(arrivals)) && PacketsOf(arrivals + [a]) == PacketsOf(arrivals) + [a.packet]
  {
    hide Whole, PlumeOf, TrueYear, PacketsField, HasFirstHeader;
    var all := arrivals + [a];
    assert forall i :: 0 <= i < |arrivals| ==> arrivals[i] == all[i];
    assert all[|arrivals|] == a;
  }

  lemma AnnouncedAlone(p: seq<byte>)
    requires Whole(p)
    ensures Announced(0, [p]) == if HasFirstHeader(p) then PacketsField(p) else 0
  {
    assert [p][1..] == [];
  }

  /** A plume alone in its collector has one group, and that expects what its packets announce. */
  lemma {:induction false} OnePlumeExpects(arrivals: seq<Arrival>, kosa: byte, years: byte -> byte, moves: nat -> bool)
    requires AllArrive(arrivals) && OnePlume(arrivals, kosa, years) && AllDated(arrivals, years) && arrivals != []
    ensures AllWhole(PacketsOf(arrivals)) && |Groups(arrivals, moves)| == 1
    ensures var g := Groups(arrivals, moves)[0];
            && g.plume.id.kosa == kosa && g.plume.id.kosaYear == years(kosa)
            && |g.plume.items| == |arrivals| && g.expectedPackets == Announced(0, PacketsOf(arrivals))
  {
    var n := |arrivals| - 1;
    var a, before := arrivals[n], arrivals[..n];
    var expected := Announced(0, [a.packet]);
    hide *;
    assert arrivals == before + [a];
    OnePlumeBefore(before, a, kosa, years);
    AllDatedStep(before, a, years);
    ArrivesAs(before, a, years, moves);
    AnnouncedSnoc(0, PacketsOf(before), a.packet);
    AnnouncedAlone(a.packet);
    GroupsStep(before, a, moves);
    var item := Arriving(Plumes(Groups(before, moves)), a);
    ItemKey(item);
    if n > 0 {
      OnePlumeExpects(before, kosa, years, moves);
      var g := Groups(before, moves)[0];
      assert Groups(before, moves) == [g];
      GrowOne(g, item, expected, moves);
    } else {
      NoneYet(moves);
      NothingAnnounced(0);
      assert before == [] && PacketsOf(before) == [];
      FirstPush(item, expected, moves);
    }
  }

  // ------------------------------------------------------- one logger alone

  lemma LabelledAreHeld(ps: seq<seq<byte>>, kosa: byte, year: byte, loaded: Option<ItemId>)
    requires OneMeasurement(ps, kosa, year)
    ensures var items := AllLabelled(ps, year, loaded);
            Holds(items, ps) && items != [] && items[0].packet == ps[0]
  {
    hide OneMeasurement;
    MeasurementTyped(ps, kosa, year);
    var items := AllLabelled(ps, year, loaded);
    forall i | 0 <= i < |items|
      ensures items[i].packet == ps[i]
    {
      InMeasurement(ps, kosa, year, ps[i]);
      PacketOfLabelled(ps[i], year, loaded);
    }
    forall p | p in ps
      ensures exists j :: 0 <= j < |items| && items[j].packet == p
    {
      var j :| 0 <= j < |ps| && ps[j] == p;
      assert items[j].packet == p;
    }
  }

  lemma HuffmanMeasurement(m: Measurements, baseTemperature: seq<real>)
    requires |m.temperature| <= 256 && HuffmanPackets(m, baseTemperature).Ok?
    ensures OneMeasurement(HuffmanPackets(m, baseTemperature).value, m.kosa, m.kosaYear)
  {
    hide *;
    var ps := HuffmanPackets(m, baseTemperature).value;
    HuffmanIsSome(m, baseTemperature);
    ChosenPackets(m, baseTemperature, |ps|);
    LeastBounds(|m.temperature|, |baseTemperature|);
    var d := Deltas(m.temperature, baseTemperature);
    assert ps[..|ps|] == ps;
    HuffmanIsOneMeasurement(m, d, Chosen(m, d, |m.temperature|), |ps|);
  }

  lemma PutsAll(ps: seq<seq<byte>>, known: Known)
    requires AllFrames(ps) == ps && AllStorable(ps, known.loaded)
    ensures AllWhole(ps) && PutBuffers([], known, ps) == PutPackets([], known, ps)
  {
    hide AllFrames, AllStorable, PutPackets, AllWhole;
    assert Leading(ps, known.loaded) == ps;
  }

  /** Packets of one measurement that are found again in their buffers are all stored, the first one first. */
  lemma PutsHeld(ps: seq<seq<byte>>, kosa: byte, year: byte, known: Known)
    requires OneMeasurement(ps, kosa, year) && AllFrames(ps) == ps
    ensures AllStorable(ps, known.loaded)
    ensures var items := PutBuffers([], known, ps);
            items == AllLabelled(ps, year, known.loaded)
            && Holds(items, ps) && items != [] && ps != [] && items[0].packet == ps[0]
  {
    hide *;
    MeasurementTyped(ps, kosa, year);
    MeasurementStorable(ps, kosa, year, known.loaded);
    FirstLabelsAll(known, ps, kosa, year);
    LabelledAreHeld(ps, kosa, year, known.loaded);
    PutsAll(ps, known);
  }

  lemma BaseIsHeld(mb: Measurements, known: Known)
    requires |mb.temperature| <= 256
    ensures AllFrames(BasePackets(mb)) == BasePackets(mb) && AllStorable(BasePackets(mb), known.loaded)
    ensures Holds(PutBuffers([], known, BasePackets(mb)), BasePackets(mb))
  {
    hide *;
    BaseIsOneMeasurement(mb);
    BaseFramed(mb);
    PutsHeld(BasePackets(mb), mb.kosa, mb.kosaYear, known);
  }

  /** Each Huffman packet of the builder, put as a whole buffer, is one packet with all its bytes. */
  lemma HuffmanFramed(m: Measurements, baseTemperature: seq<real>)
    requires |m.temperature| <= 256 && HuffmanPackets(m, baseTemperature).Ok?
    ensures forall i :: 0 <= i < |HuffmanPackets(m, baseTemperature).value| ==>
              var p := HuffmanPackets(m, baseTemperature).value[i];
              p != [] && Frames(p) == [p] && LastPart(p) == p
    ensures AllFrames(HuffmanPackets(m, baseTemperature).value) == HuffmanPackets(m, baseTemperature).value
  {
    var n, d, ps := |m.temperature|, Deltas(m.temperature, baseTemperature), HuffmanPackets(m, baseTemperature).value;
    LeastBounds(n, |baseTemperature|);
    hide *;
    HuffmanIsSome(m, baseTemperature);
    ChosenPackets(m, baseTemperature, |ps|);
    assert ps[..|ps|] == ps;
    forall i | 0 <= i < |ps|
      ensures ps[i] != [] && Frames(ps[i]) == [ps[i]] && LastPart(ps[i]) == ps[i]
    {
      HuffmanTyped(m, d, Chosen(m, d, n), |ps|, i + 1);
      HuffmanFrame(ps[i]);
    }
    FramedEach(ps);
  }

  /**
   A measurement and its base, sent as packets, each of them put as a buffer, and read with `get`: all packets are
   stored as they are, and the stored temperatures of all sensors with a base come back exactly if every delta fits into
   the bytes chosen for it.
   */
  lemma HuffmanPutAndGet(m: Measurements, mb: Measurements, known: Known)
    requires |m.temperature| <= 256 && |mb.temperature| <= 256 && HuffmanPackets(m, mb.temperature).Ok?
    ensures var ps := HuffmanPackets(m, mb.temperature).value;
            AllFrames(ps) == ps && AllStorable(ps, known.loaded)
    ensures AllFrames(BasePackets(mb)) == BasePackets(mb) && AllStorable(BasePackets(mb), known.loaded)
    ensures var items := PutBuffers([], known, HuffmanPackets(m, mb.temperature).value);
            var baseItems := PutBuffers([], known, BasePackets(mb));
            var d := Deltas(m.temperature, mb.temperature);
            && AllReadable(items) && AllReadable(baseItems)
            && (AllValues(items, Some(baseItems)) == Stored(m.temperature, |d|) <==> Lossless(d, |d|))
  {
    hide *;
    var ps := HuffmanPackets(m, mb.temperature).value;
    HuffmanMeasurement(m, mb.temperature);
    HuffmanFramed(m, mb.temperature);
    PutsHeld(ps, m.kosa, m.kosaYear, known);
    BaseIsHeld(mb, known);
    assert ps[..|ps|] == ps;
    var items := PutBuffers([], known, ps);
    HuffmanRoundTrip(m, mb, |ps|, items, PutBuffers([], known, BasePackets(mb)));
    KnownWidth(items, ps[0], SampleBytes(Deltas(m.temperature, mb.temperature)));
  }

  /**
   The same with plain delta packets, of which the first must also be cut right. Put as buffers they are stored as they
   are exactly if the deltas fill the first or have few bits, and otherwise end in an error.
   */
  lemma DeltaPutAndGet(m: Measurements, mb: Measurements, known: Known)
    requires |mb.temperature| <= 256
    ensures var d := Deltas(m.temperature, mb.temperature);
            var ps := DeltaPackets(m, d);
            && AllWhole(ps) && AllStorable(ps, known.loaded)
            && (AllFrames(ps) == ps <==> FillsFirst(d))
            && (AllStorable(AllFrames(ps), known.loaded) <==> FillsFirst(d))
            && (FillsFirst(d) ==> PutBuffers([], known, ps) == PutPackets([], known, ps))
    ensures AllFrames(BasePackets(mb)) == BasePackets(mb) && AllStorable(BasePackets(mb), known.loaded)
    ensures var d := Deltas(m.temperature, mb.temperature);
            var items := PutPackets([], known, DeltaPackets(m, d));
            var baseItems := PutBuffers([], known, BasePackets(mb));
            && AllReadable(items) && AllReadable(baseItems)
            && (AllValues(items, Some(baseItems)) == Stored(m.temperature, |d|)
                <==> Lossless(d, |d|) && CutRight(d, |mb.temperature|))
  {
    hide *;
    var d := Deltas(m.temperature, mb.temperature);
    var ps := DeltaPackets(m, d);
    assert |d| == Least(|m.temperature|, |mb.temperature|);
    LeastBounds(|m.temperature|, |mb.temperature|);
    DeltaIsOneMeasurement(m, d);
    MeasurementTyped(ps, m.kosa, m.kosaYear);
    MeasurementStorable(ps, m.kosa, m.kosaYear, known.loaded);
    FirstLabelsAll(known, ps, m.kosa, m.kosaYear);
    LabelledAreHeld(ps, m.kosa, m.kosaYear, known.loaded);
    DeltaFramed(m, d, known.loaded);
    BaseIsHeld(mb, known);
    if FillsFirst(d) {
      PutsAll(ps, known);
    }
    var items := PutPackets([], known, ps);
    DeltaRoundTrip(m, mb, items, PutBuffers([], known, BasePackets(mb)));
    KnownWidth(items, ps[0], SampleBytes(d));
  }
}
