/** Base packets in any order, with duplicates, give back the stored temperatures. */
module BaseReading {
  import opened Wrappers
  import opened Bits
  import opened Temperature
  import opened Packets
  import opened BaseBuilder
  import opened Readings
  import opened Assembly

  lemma {:induction false} BaseRestAt(m: Measurements, count: nat, i: nat)
    ensures |BaseRest(m, count)| == if count <= 1 then 0 else count - 1
    ensures 1 <= i < count ==> BaseRest(m, count)[i - 1] == BasePacket(m, i)
  {
    hide BasePacket;
    if count > 1 {
      BaseRestAt(m, count - 1, i);
    }
  }

  lemma CountOfBasePackets(m: Measurements)
    requires |m.temperature| <= 256
    ensures |BasePackets(m)| == 1 + (|m.temperature| + 4) / 5 == PacketCount(|m.temperature|, PKT_1, 0)
  {
    hide FirstHeader, MeasureHeader, BasePacket;
    BaseRestAt(m, PacketCount(|m.temperature|, PKT_1, 0), 0);
  }

  lemma {:induction false} RecordAt(m: Measurements, from: nat, count: nat, k: nat)
    requires k < count && from + count <= |m.temperature|
    ensures Records(m, from, count)[4 * k..4 * k + 4] == Record(m, from + k)
  {
    hide Record;
    if k < count - 1 {
      RecordAt(m, from, count - 1, k);
    }
  }

  lemma RangeStored(m: Measurements, from: nat, k: nat)
    requires |m.temperature| <= 256 && (k > 0 ==> from + k <= |m.temperature|)
    ensures Range(from, from + k) <= Stored(m.temperature, |m.temperature|).Keys
    ensures k > 0 ==> from + k - 1 in Stored(m.temperature, |m.temperature|)
  {
  }

  lemma PickLast(v: Values, full: Values, s: set<byte>, k: byte)
    requires s <= full.Keys && k in full
    ensures (v + Pick(full, s))[k := full[k]] == v + Pick(full, s + {k})
  {
  }

  lemma RecordValue(m: Measurements, k: nat)
    requires k < |m.temperature| <= 256
    ensures var r := Record(m, k);
            r[0] == k && LoadInt16(r[1], r[2]) == Stored(m.temperature, |m.temperature|)[k]
  {
    hide Quantised, Hton2;
    LoadStore(Hton2(Quantised(m.temperature[k])));
  }

  /** Reading the first `k` records of a packet gives the stored values of its first `k` sensors. */
  lemma {:induction false} RecordsAreRead(m: Measurements, header: seq<byte>, from: nat, count: nat, k: nat, v: Values)
    requires |m.temperature| <= 256 && k <= count && (count > 0 ==> from + count <= |m.temperature|)
    ensures Range(from, from + k) <= Stored(m.temperature, |m.temperature|).Keys
    ensures GetRecords(header + Records(m, from, count), |header|, k, v)
            == v + Pick(Stored(m.temperature, |m.temperature|), Range(from, from + k))
  {
    hide Record, Records, Quantised, Hton2, Pick, Range, Stored;
    var full := Stored(m.temperature, |m.temperature|);
    var p := header + Records(m, from, count);
    RangeStored(m, from, k);
    if k == 0 {
      RangeEmpty(from, from);
      PickNone(v, full);
    } else {
      RangeStored(m, from, k - 1);
      RangeLast(from, from + k - 1);
      RecordsAreRead(m, header, from, count, k - 1, v);
      RecordAt(m, from, count, k - 1);
      var at := |header| + 4 * (k - 1);
      var r := Record(m, from + k - 1);
      assert p[at..at + 4] == Records(m, from, count)[4 * (k - 1)..4 * (k - 1) + 4] == r;
      assert p[at] == r[0] && p[at + 1] == r[1] && p[at + 2] == r[2];
      RecordValue(m, from + k - 1);
      PickLast(v, full, Range(from, from + k - 1), from + k - 1);
    }
  }

  lemma BaseContributes(m: Measurements, items: seq<Item>, baseT: Option<Values>, i: nat)
    requires |m.temperature| <= 256 && AllReadable(items)
    requires 1 <= i < PacketCount(|m.temperature|, PKT_1, 0)
    ensures Readable(BasePacket(m, i))
    ensures var from := 5 * (i - 1);
            Contributes(items, baseT, BasePacket(m, i), Stored(m.temperature, |m.temperature|),
                        Range(from, from + Span(|m.temperature|, from, 5)))
  {
    hide Records, GetRecords, Stored;
    var from := 5 * (i - 1);
    var count := Span(|m.temperature|, from, 5);
    var p := BasePacket(m, i);
    assert p[0] == PKT_2 && (|p| - SECOND_HDR) / 4 == count;
    RangeStored(m, from, count);
    forall v: Values
      ensures ItemGet(items, baseT, p, v).0
              == v + Pick(Stored(m.temperature, |m.temperature|), Range(from, from + count))
    {
      RecordsAreRead(m, SecondHeader(m, PKT_2, (i + 1) % 256), from, count, count, v);
    }
  }

  lemma FirstContributesNothing(m: Measurements, items: seq<Item>, baseT: Option<Values>, full: Values)
    requires AllReadable(items)
    ensures var p := FirstHeader(m, PKT_1, 0) + MeasureHeader(m);
            Readable(p) && Contributes(items, baseT, p, full, {})
  {
    forall v: Values
      ensures v + Pick(full, {}) == v
    {
      PickNone(v, full);
    }
  }

  /** The sensors that base packet `i` (0 for the first) reports. */
  function BaseSensors(m: Measurements, i: nat): (s: set<byte>)
    requires |m.temperature| <= 256
  {
    if i == 0 then {} else Range(5 * (i - 1), 5 * (i - 1) + Span(|m.temperature|, 5 * (i - 1), 5))
  }

  lemma BasePacketsContribute(m: Measurements, items: seq<Item>, baseT: Option<Values>, i: nat)
    requires |m.temperature| <= 256 && AllReadable(items) && i < |BasePackets(m)|
    ensures Readable(BasePackets(m)[i])
    ensures Contributes(items, baseT, BasePackets(m)[i], Stored(m.temperature, |m.temperature|), BaseSensors(m, i))
  {
    hide BasePacket, Stored, Readable, Contributes, PacketCount;
    CountOfBasePackets(m);
    if i == 0 {
      FirstContributesNothing(m, items, baseT, Stored(m.temperature, |m.temperature|));
    } else {
      BaseRestAt(m, PacketCount(|m.temperature|, PKT_1, 0), i);
      BaseContributes(m, items, baseT, i);
    }
  }

  /** Each sensor is in exactly one base packet. */
  lemma SensorInOnePacket(m: Measurements, b: byte, i: nat)
    requires b < |m.temperature| <= 256
    ensures b / 5 + 1 < |BasePackets(m)|
    ensures b in BaseSensors(m, i) <==> i == b / 5 + 1
  {
    hide BasePackets;
    CountOfBasePackets(m);
  }

  lemma NoItems()
    ensures AllReadable([])
  {
  }

  function BaseSensorSets(m: Measurements): (s: seq<set<byte>>)
    requires |m.temperature| <= 256
    ensures |s| == |BasePackets(m)|
    ensures forall i :: 0 <= i < |s| ==> s[i] == BaseSensors(m, i)
  {
    seq(|BasePackets(m)|, i requires i >= 0 => BaseSensors(m, i))
  }

  lemma BaseCoverage(m: Measurements)
    requires |m.temperature| <= 256
    ensures forall b :: b in Stored(m.temperature, |m.temperature|)
                        ==> exists i :: 0 <= i < |BaseSensorSets(m)| && b in BaseSensorSets(m)[i]
  {
    hide BasePackets, BaseSensors;
    forall b | b in Stored(m.temperature, |m.temperature|)
      ensures exists i :: 0 <= i < |BaseSensorSets(m)| && b in BaseSensorSets(m)[i]
    {
      CountOfBasePackets(m);
      SensorInOnePacket(m, b, b / 5 + 1);
      assert b in BaseSensorSets(m)[b / 5 + 1];
    }
  }

  /**
   Collecting the base packets, in any order and any number of times each, gives a map with exactly
   one entry for each sensor, its stored temperature.
   */
  lemma BaseRoundTrip(m: Measurements, items: seq<Item>, baseT: Option<Values>)
    requires |m.temperature| <= 256 && Holds(items, BasePackets(m))
    ensures AllReadable(items)
    ensures CollectionGet(items, baseT, |items|, map[]) == Stored(m.temperature, |m.temperature|)
  {
    hide BasePackets, Contributes, Readable, CollectionGet, BaseSensors, Stored, Holds, AllReadable;
    var ps, full := BasePackets(m), Stored(m.temperature, |m.temperature|);
    assert AllReadable(items) by {
      assert AllReadable([]) by { NoItems(); }
      forall i | 0 <= i < |ps|
        ensures Readable(ps[i])
      {
        BasePacketsContribute(m, [], baseT, i);
      }
      HeldAreReadable(items, ps);
    }
    var s := BaseSensorSets(m);
    forall i | 0 <= i < |ps|
      ensures Readable(ps[i]) && Contributes(items, baseT, ps[i], full, s[i])
    {
      BasePacketsContribute(m, items, baseT, i);
    }
    BaseCoverage(m);
    AnyOrder(items, ps, baseT, full, s);
  }
}
