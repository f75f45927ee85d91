/** When a collection of one measurement's packets is complete, with packets missing, repeated and in any order. */
module Completeness {
  import opened Bits
  import opened Temperature
  import opened Packets
  import opened BaseBuilder
  import opened DeltaWidth
  import opened DeltaBuilder
  import opened HuffmanBuilder
  import opened Readings
  import opened BaseReading
  import opened DeltaReading
  import opened HuffmanLimits
  import opened EndToEnd
  import opened Framing
  import opened FramingLaws

  // ----------------------------------------------------------- completeness

  /** Packets of a measurement in the order of arrival: missing packets and repeated ones are allowed. */
  predicate Among(order: seq<nat>, count: nat) {
    forall i :: 0 <= i < |order| ==> order[i] < count
  }

  predicate EachOnce(order: seq<nat>) {
    forall i, j :: 0 <= i < j < |order| ==> order[i] != order[j]
  }

  predicate NoneMissing(order: seq<nat>, count: nat) {
    forall i: nat :: i < count ==> i in order
  }

  function Picked(ps: seq<seq<byte>>, order: seq<nat>): (r: seq<seq<byte>>)
    requires Among(order, |ps|)
    ensures |r| == |order| && forall i :: 0 <= i < |order| ==> r[i] == ps[order[i]]
  {
    seq(|order|, i requires 0 <= i < |order| => ps[order[i]])
  }

  lemma {:induction false} StoredCount(items: seq<Item>, known: Known, ps: seq<seq<byte>>)
    requires AllWhole(ps)
    ensures |PutPackets(items, known, ps)| == |items| + |ps|
    decreases |ps|
  {
    hide NewItem, Whole;
    if ps != [] {
      StoredCount(items + [NewItem(items, known, ps[0])], known, ps[1..]);
    }
  }

  lemma SecondIsNotFirst(p: seq<byte>)
    ensures !(HasFirstHeader(p) && HasSecondHeader(p))
  {
  }

  /** Only the first packet announces a number of packets. */
  lemma {:induction false} AnnouncedByFirst(expected: byte, ps: seq<seq<byte>>, order: seq<nat>, rs: seq<seq<byte>>)
    requires AllWhole(ps) && ps != [] && HasFirstHeader(ps[0])
    requires forall i :: 1 <= i < |ps| ==> HasSecondHeader(ps[i])
    requires Among(order, |ps|)
    requires rs == Picked(ps, order) && AllWhole(rs)
    ensures Announced(expected, rs) == if 0 in order then PacketsField(ps[0]) else expected
    decreases |order|
  {
    hide Whole, PacketsField;
    if order != [] {
      assert rs[1..] == Picked(ps, order[1..]);
      assert rs[0] == ps[order[0]];
      SecondIsNotFirst(ps[order[0]]);
      var next := if HasFirstHeader(rs[0]) then PacketsField(rs[0]) else expected;
      AnnouncedByFirst(next, ps, order[1..], rs[1..]);
      assert order == [order[0]] + order[1..];
    }
  }

  function Below(count: nat): (s: set<nat>)
    ensures |s| == count && forall k: nat :: k in s <==> k < count
  {
    if count == 0 then {} else Below(count - 1) + {count - 1}
  }

  function Seen(order: seq<nat>): (s: set<nat>)
    ensures forall k :: k in s <==> k in order
    ensures |s| <= |order| && (EachOnce(order) ==> |s| == |order|)
  {
    if order == [] then {}
    else
      assert order == order[..|order| - 1] + [order[|order| - 1]];
      Seen(order[..|order| - 1]) + {order[|order| - 1]}
  }

  lemma {:induction false} SubsetSize(a: set<nat>, b: set<nat>)
    requires a <= b
    ensures |a| <= |b|
  {
    if a != {} {
      var x :| x in a;
      SubsetSize(a - {x}, b - {x});
    }
  }

  /** With no number missing there are as many numbers as there can be, and without repeats that is the only case. */
  lemma AllOccur(order: seq<nat>, count: nat)
    requires Among(order, count)
    ensures NoneMissing(order, count) ==> |order| >= count
    ensures EachOnce(order) ==> (NoneMissing(order, count) <==> |order| >= count)
  {
    SubsetSize(Seen(order), Below(count));
    if NoneMissing(order, count) {
      SubsetSize(Below(count), Seen(order));
    } else if EachOnce(order) {
      var k: nat :| k < count && k !in order;
      SubsetSize(Seen(order) + {k}, Below(count));
    }
  }

  /**
   A collection that got packets of one measurement, in any order and any number of times, is complete exactly
   if it has the first packet, and as many packets as that announces, repeated ones counted again.
   */
  lemma CompleteWhen(ps: seq<seq<byte>>, kosa: byte, year: byte, order: seq<nat>, known: Known)
    requires OneMeasurement(ps, kosa, year) && Among(order, |ps|)
    ensures AllWhole(Picked(ps, order))
    ensures Complete(PutPackets([], known, Picked(ps, order)), Announced(0, Picked(ps, order)))
            <==> 0 in order && 0 < PacketsField(ps[0]) <= |order|
  {
    hide Whole, PacketsField, HasFirstHeader, HasSecondHeader;
    var rs := Picked(ps, order);
    StoredCount([], known, rs);
    AnnouncedByFirst(0, ps, order, rs);
  }

  /**
   If as many packets are announced as there are, a collection with no packet missing is complete, and a
   complete one without repeated packets has none missing.
   */
  lemma CompleteWhenAll(ps: seq<seq<byte>>, kosa: byte, year: byte, order: seq<nat>, known: Known)
    requires OneMeasurement(ps, kosa, year) && Among(order, |ps|) && PacketsField(ps[0]) == |ps|
    ensures AllWhole(Picked(ps, order))
    ensures var complete := Complete(PutPackets([], known, Picked(ps, order)), Announced(0, Picked(ps, order)));
            && (complete <==> 0 in order && |ps| <= |order|)
            && (NoneMissing(order, |ps|) ==> complete)
            && (EachOnce(order) && complete ==> NoneMissing(order, |ps|))
  {
    hide PutPackets, Announced, OneMeasurement, AllWhole, Whole, Complete, EachOnce;
    CompleteWhen(ps, kosa, year, order, known);
    AllOccur(order, |ps|);
    MeasurementTyped(ps, kosa, year);
  }

  lemma BaseAnnounces(m: Measurements)
    requires |m.temperature| <= 256
    ensures BasePackets(m) != [] && |BasePackets(m)[0]| >= FIRST_HDR
    ensures PacketsField(BasePackets(m)[0]) == |BasePackets(m)|
  {
    hide BasePackets, FirstHeader, MeasureHeader, BasePacket;
    CountOfBasePackets(m);
    BaseAt(m, 0);
    BaseFirstWhole(m);
  }

  lemma BaseComplete(m: Measurements, order: seq<nat>, known: Known)
    requires |m.temperature| <= 256 && Among(order, |BasePackets(m)|)
    ensures AllWhole(Picked(BasePackets(m), order))
    ensures var count, rs := |BasePackets(m)|, Picked(BasePackets(m), order);
            var complete := Complete(PutPackets([], known, rs), Announced(0, rs));
            && (complete <==> 0 in order && count <= |order|)
            && (NoneMissing(order, count) ==> complete)
            && (EachOnce(order) && complete ==> NoneMissing(order, count))
  {
    hide *;
    BaseIsOneMeasurement(m);
    BaseAnnounces(m);
    CompleteWhenAll(BasePackets(m), m.kosa, m.kosaYear, order, known);
  }

  function Zeroes(n: nat): (order: seq<nat>)
    ensures |order| == n && forall i :: 0 <= i < n ==> order[i] == 0
  {
    seq(n, i => 0)
  }

  /** For every measurement with a sensor: the first packet alone, repeated, completes a collection without data. */
  lemma RepeatsAreCounted(m: Measurements, known: Known)
    requires 0 < |m.temperature| <= 256
    ensures var ps := BasePackets(m);
            var order := Zeroes(|ps|);
            && Among(order, |ps|) && !NoneMissing(order, |ps|) && AllWhole(Picked(ps, order))
            && Complete(PutPackets([], known, Picked(ps, order)), Announced(0, Picked(ps, order)))
  {
    hide BasePackets, PutPackets, Complete, Announced, Whole;
    CountOfBasePackets(m);
    var order := Zeroes(|BasePackets(m)|);
    assert order[0] in order && 1 !in order;
    BaseComplete(m, order, known);
  }

  lemma DeltaAnnounces(m: Measurements, d: seq<int16>)
    requires |m.temperature| <= 256
    ensures DeltaPackets(m, d) != [] && |DeltaPackets(m, d)[0]| >= FIRST_HDR
    ensures PacketsField(DeltaPackets(m, d)[0]) == 1 + SecondPackets(|m.temperature|, SampleBytes(d))
  {
    hide DeltaFirst, DeltaSecond, FirstHeader, SampleBits, SecondPackets;
    DeltaFirstWhole(m, d);
    DeltaPacketPlaces(|m.temperature|, SampleBytes(d), 0);
  }

  lemma FirstIsThere(order: seq<nat>, count: nat)
    ensures count > 0 && NoneMissing(order, count) ==> 0 in order
  {
  }

  /**
   The first delta packet announces packets for all sensors of the measurement, also for those without a base. With
   a base for each sensor, a collection with no packet missing is complete, and conversely without repeats.
   */
  lemma DeltaComplete(m: Measurements, d: seq<int16>, order: seq<nat>, known: Known)
    requires |d| <= |m.temperature| <= 256 && Among(order, |DeltaPackets(m, d)|)
    ensures AllWhole(Picked(DeltaPackets(m, d), order))
    ensures var count, rs := |DeltaPackets(m, d)|, Picked(DeltaPackets(m, d), order);
            var complete := Complete(PutPackets([], known, rs), Announced(0, rs));
            && (complete <==> 0 in order && 1 + SecondPackets(|m.temperature|, SampleBytes(d)) <= |order|)
            && (|d| == |m.temperature| && NoneMissing(order, count) ==> complete)
            && (|d| == |m.temperature| && EachOnce(order) && complete ==> NoneMissing(order, count))
  {
    hide *;
    DeltaIsOneMeasurement(m, d);
    DeltaAnnounces(m, d);
    CompleteWhen(DeltaPackets(m, d), m.kosa, m.kosaYear, order, known);
    AllOccur(order, |DeltaPackets(m, d)|);
    FirstIsThere(order, |DeltaPackets(m, d)|);
  }

  /**
   Huffman packets announce as many packets as plain ones would need, so a measurement that takes fewer is not
   complete when none is missing and none repeated.
   */
  lemma HuffmanComplete(m: Measurements, baseTemperature: seq<real>, order: seq<nat>, known: Known)
    requires |m.temperature| <= 256 && HuffmanPackets(m, baseTemperature).Ok?
    requires Among(order, |HuffmanPackets(m, baseTemperature).value|)
    ensures AllWhole(Picked(HuffmanPackets(m, baseTemperature).value, order))
    ensures var rs := Picked(HuffmanPackets(m, baseTemperature).value, order);
            Complete(PutPackets([], known, rs), Announced(0, rs))
            <==> 0 in order && 1 + (|m.temperature| + 4) / 5 <= |order|
  {
    hide *;
    var ps := HuffmanPackets(m, baseTemperature).value;
    HuffmanIsSome(m, baseTemperature);
    ChosenPackets(m, baseTemperature, |ps|);
    var d := Deltas(m.temperature, baseTemperature);
    LeastBounds(|m.temperature|, |baseTemperature|);
    var c := Chosen(m, d, |m.temperature|);
    assert ps[..|ps|] == ps;
    HuffmanIsOneMeasurement(m, d, c, |ps|);
    CompleteWhen(ps, m.kosa, m.kosaYear, order, known);
    SameCount(|m.temperature|, 0);
    CountOfBasePackets(m);
  }
}
