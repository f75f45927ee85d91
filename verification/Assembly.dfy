/**
 How a whole collection is read: the values of a collection are the union of what its packets
 contribute, and a delta packet contributes the sum of base value and sample for its range of sensors.
 */
module Assembly {
  import opened Wrappers
  import opened Bits
  import opened Temperature
  import opened Packets
  import opened DeltaBuilder
  import opened Readings

  // ---------------------------------------------------------- values by sensor

  predicate Between(from: nat, k: byte, to: nat) {
    from <= k < to
  }

  /** The sensors `from`, ..., `to - 1`. */
  function Range(from: nat, to: nat): set<byte> {
    set k: byte | Between(from, k, to)
  }

  function Pick(full: Values, s: set<byte>): Values
    requires s <= full.Keys
  {
    map k | k in s :: full[k]
  }

  lemma PickStep(m: Values, full: Values, k: byte, s: set<byte>)
    requires k in full && s <= full.Keys
    ensures m + Pick(full, {k} + s) == m[k := full[k]] + Pick(full, s)
  {
  }

  lemma PickNone(m: Values, full: Values)
    ensures m + Pick(full, {}) == m
  {
  }

  /** The stored temperatures of the first `count` sensors. */
  function Stored(t: seq<real>, count: nat): Values
    requires count <= |t|
  {
    map k: byte | k < count :: Hton2(Quantised(t[k]))
  }

  lemma {:induction false} RangeSize(n: nat)
    requires n <= 256
    ensures |Range(0, n)| == n
  {
    if n > 0 {
      RangeSize(n - 1);
      assert Range(0, n) == Range(0, n - 1) + {n - 1};
    }
  }

  // ------------------------------------------------------- reading one packet

  /** The number that a sample of one or two bytes stands for when it is read back. */
  function SampleValue(d: int16, dataBytes: Width): int {
    if dataBytes == 1 then SignExtend(d % 256) else d
  }

  /** What is read for a sensor with a base value and a delta. */
  function Rebuilt(base: real, d: int16, dataBytes: Width): int16 {
    Hton2(Quantised(base) + SampleValue(d, dataBytes))
  }

  lemma {:induction false} SampleAt(d: seq<int16>, from: nat, count: nat, dataBytes: Width, i: nat)
    requires i < count && from + count <= |d|
    ensures Diff(Samples(d, from, count, dataBytes), 0, dataBytes, i) == SampleValue(d[from + i], dataBytes)
  {
    if i < count - 1 {
      SampleAt(d, from, count - 1, dataBytes, i);
    } else if dataBytes == 2 {
      LoadStore(d[from + i]);
    }
  }

  lemma DiffAfterHeader(header: seq<byte>, data: seq<byte>, tail: seq<byte>, dataBytes: Width, i: nat)
    requires Times(i + 1, dataBytes) <= |data|
    ensures Diff(header + data + tail, |header|, dataBytes, i) == Diff(data, 0, dataBytes, i)
  {
  }

  /** The packet `p` has the value `v` for sensor `k`. */
  ghost predicate Reads(p: seq<byte>, header: nat, dataBytes: Width, baseT: Values, ofs: nat, k: byte, v: int16)
  {
    && ofs <= k && k in baseT
    && header + Times(k - ofs + 1, dataBytes) <= |p|
    && v == Hton2(Hton2(baseT[k]) + Diff(p, header, dataBytes, k - ofs))
  }

  lemma DiffLoopStep(p: seq<byte>, header: nat, dataBytes: Width, baseT: Values, m: Values,
                     ofs: nat, c: nat, end: nat, v: int16)
    requires ofs <= c && (c < end ==> header + Times(end - ofs, dataBytes) <= |p|)
    requires |baseT| <= 256
    ensures c >= end || c >= |baseT| ==> DiffLoop(p, header, dataBytes, baseT, m, c, end, c - ofs) == m
    ensures c < end && c < |baseT| && Reads(p, header, dataBytes, baseT, ofs, c, v)
            ==> DiffLoop(p, header, dataBytes, baseT, m, c, end, c - ofs)
                == DiffLoop(p, header, dataBytes, baseT, m[c := v], c + 1, end, c + 1 - ofs)
  {
    hide Hton2, Diff;
    if c < end && c < |baseT| && Reads(p, header, dataBytes, baseT, ofs, c, v) {
      assert baseT[c := baseT[c]] == baseT;
    }
  }

  lemma RangeStep(from: nat, to: nat)
    requires from < to <= 256
    ensures Range(from, to) == {from} + Range(from + 1, to)
  {
  }

  lemma RangeEmpty(from: nat, to: nat)
    requires from >= to
    ensures Range(from, to) == {}
  {
  }

  /** Reading samples after a header: sensors `c`, ... up to the end of the packet or of the base. */
  lemma {:induction false} DiffLoopReads(p: seq<byte>, header: nat, dataBytes: Width, baseT: Values, n: nat,
                                         full: Values, m: Values, ofs: nat, c: nat, end: nat)
    requires ofs <= c && (c < end ==> header + Times(end - ofs, dataBytes) <= |p|)
    requires n <= 256 && baseT.Keys == Range(0, n)
    requires Range(c, Least(end, n)) <= full.Keys
    requires forall k :: k in Range(c, Least(end, n)) ==> Reads(p, header, dataBytes, baseT, ofs, k, full[k])
    ensures DiffLoop(p, header, dataBytes, baseT, m, c, end, c - ofs)
            == m + Pick(full, Range(c, Least(end, n)))
    decreases end - c
  {
    hide Hton2, Diff, DiffLoop, Reads, Range, Pick, Times;
    assert |baseT| == n by { RangeSize(n); assert |baseT| == |baseT.Keys|; }
    if c < end && c < n {
      RangeStep(c, Least(end, n));
      var v := full[c];
      DiffLoopStep(p, header, dataBytes, baseT, m, ofs, c, end, v);
      DiffLoopReads(p, header, dataBytes, baseT, n, full, m[c := v], ofs, c + 1, end);
      PickStep(m, full, c, Range(c + 1, Least(end, n)));
    } else {
      DiffLoopStep(p, header, dataBytes, baseT, m, ofs, c, end, 0);
      RangeEmpty(c, Least(end, n));
      PickNone(m, full);
    }
  }

  lemma RangeLast(from: nat, to: nat)
    requires from <= to < 256
    ensures Range(from, to + 1) == Range(from, to) + {to}
  {
  }

  lemma FirstByDiff(p: seq<byte>, dataBytes: Width, baseT: Values, m: Values, end: nat)
    requires |p| >= FIRST_HDR + HDR_DIFF && end == Over(|p| - FIRST_HDR - HDR_DIFF, dataBytes)
    ensures Times(end, dataBytes) <= |p| - FIRST_HDR - HDR_DIFF
    ensures ByDiff(p, 0, dataBytes, Some(baseT), m)
            == DiffLoop(p, FIRST_HDR + HDR_DIFF, dataBytes, baseT, m, 0, end, 0)
  {
    hide DiffLoop;
  }

  lemma LaterByDiff(p: seq<byte>, offset: int, dataBytes: Width, baseT: Values, m: Values, ofs: nat, count: nat)
    requires |p| == SECOND_HDR + Times(count, dataBytes) && count < 256
    requires offset != 0 && Quotient(offset, dataBytes) == ofs < 256
    ensures ByDiff(p, offset, dataBytes, Some(baseT), m)
            == DiffLoop(p, SECOND_HDR, dataBytes, baseT, m, ofs, ofs + count, 0)
  {
    hide DiffLoop, Quotient;
    assert Over(|p| - SECOND_HDR, dataBytes) == count;
  }

  lemma GetDelta1(items: seq<Item>, baseT: Option<Values>, p: seq<byte>, m: Values)
    requires AllReadable(items) && PacketType(p) == DELTA_1 && |p| >= SECOND_HDR
    ensures Readable(p)
    ensures ItemGet(items, baseT, p, m).0 == ByDiff(p, 0, BytesForBits(CollectedBits(items)), baseT, m)
  {
    hide ByDiff;
  }

  lemma GetDelta2(items: seq<Item>, baseT: Option<Values>, p: seq<byte>, m: Values)
    requires AllReadable(items) && PacketType(p) == DELTA_2 && |p| >= SECOND_HDR
    ensures Readable(p)
    ensures ItemGet(items, baseT, p, m).0
            == ByDiff(p, 6 + (PacketNumber(p) - 2) * 20, BytesForBits(CollectedBits(items)), baseT, m)
  {
    hide ByDiff;
  }

  lemma GetHuff1(items: seq<Item>, baseT: Option<Values>, p: seq<byte>, m: Values)
    requires AllReadable(items) && PacketType(p) == HUFF_1 && Readable(p)
    ensures ItemGet(items, baseT, p, m).0
            == ByDiff(Unzipped(p, FIRST_HDR), 0, BytesForBits(CollectedBits(items)), baseT, m)
  {
    hide ByDiff, Unzipped;
  }

  lemma GetHuff2(items: seq<Item>, baseT: Option<Values>, p: seq<byte>, m: Values)
    requires AllReadable(items) && PacketType(p) == HUFF_2 && Readable(p)
    ensures ItemGet(items, baseT, p, m).0
            == ByDiff(Unzipped(p, SECOND_HDR), HuffmanOffset(items, PacketNumber(p)),
                      BytesForBits(CollectedBits(items)), baseT, m)
  {
    hide ByDiff, Unzipped, HuffmanOffset;
  }

  // ------------------------------------------------------- a whole collection

  /** Reading the packet as part of the collection adds exactly the values `full` has for the sensors `s`. */
  ghost predicate Contributes(items: seq<Item>, baseT: Option<Values>, packet: seq<byte>, full: Values, s: set<byte>)
    requires AllReadable(items) && Readable(packet)
  {
    && s <= full.Keys
    && forall m: Values :: ItemGet(items, baseT, packet, m).0 == m + Pick(full, s)
  }

  function Union(s: seq<set<byte>>): set<byte> {
    if s == [] then {} else Union(s[..|s| - 1]) + s[|s| - 1]
  }

  lemma {:induction false} InUnion(s: seq<set<byte>>, k: byte)
    ensures k in Union(s) <==> exists j :: 0 <= j < |s| && k in s[j]
  {
    if s != [] {
      InUnion(s[..|s| - 1], k);
      assert forall j :: 0 <= j < |s| - 1 ==> s[..|s| - 1][j] == s[j];
    }
  }

  lemma PickMore(m: Values, full: Values, s: set<byte>, t: set<byte>)
    requires s <= full.Keys && t <= full.Keys
    ensures m + Pick(full, s) + Pick(full, t) == m + Pick(full, s + t)
  {
  }

  /** In whatever order packets come and however often, each sensor gets the one value its packets have for it. */
  lemma {:induction false} CollectionIsUnion(items: seq<Item>, baseT: Option<Values>, full: Values,
                                             s: seq<set<byte>>, k: nat, m: Values)
    requires AllReadable(items) && |s| == |items| && k <= |items|
    requires forall j :: 0 <= j < |items| ==> Contributes(items, baseT, items[j].packet, full, s[j])
    ensures Union(s[..k]) <= full.Keys
    ensures CollectionGet(items, baseT, k, m) == m + Pick(full, Union(s[..k]))
  {
    hide ItemGet, Pick;
    if k > 0 {
      CollectionIsUnion(items, baseT, full, s, k - 1, m);
      assert s[..k][..k - 1] == s[..k - 1];
      assert Contributes(items, baseT, items[k - 1].packet, full, s[k - 1]);
      PickMore(m, full, Union(s[..k - 1]), s[k - 1]);
    } else {
      PickNone(m, full);
    }
  }

  lemma PickAll(full: Values)
    ensures Pick(full, full.Keys) == full
  {
  }

  /** A collection whose packets contribute, together, all values of `full` adds just these to what was read before. */
  lemma CollectionCovers(items: seq<Item>, baseT: Option<Values>, full: Values, s: seq<set<byte>>, m: Values)
    requires AllReadable(items) && |s| == |items|
    requires forall j :: 0 <= j < |items| ==> Contributes(items, baseT, items[j].packet, full, s[j])
    requires forall b :: b in full ==> exists j :: 0 <= j < |s| && b in s[j]
    ensures CollectionGet(items, baseT, |items|, m) == m + full
  {
    CollectionIsUnion(items, baseT, full, s, |items|, m);
    assert s[..|items|] == s;
    forall b
      ensures b in Union(s) <==> b in full
    {
      InUnion(s, b);
    }
    assert Union(s) == full.Keys;
    PickAll(full);
  }

  /** The items are the packets `ps`, each at least once, in any order. */
  ghost predicate Holds(items: seq<Item>, ps: seq<seq<byte>>) {
    && (forall j :: 0 <= j < |items| ==> items[j].packet in ps)
    && (forall p :: p in ps ==> exists j :: 0 <= j < |items| && items[j].packet == p)
  }

  /** The samples take one byte, or the packet whose header says that they take two was collected first. */
  predicate WidthKnown(items: seq<Item>, first: seq<byte>, dataBytes: Width) {
    items != [] && (dataBytes == 1 || items[0].packet == first)
  }

  lemma HeldPacket(items: seq<Item>, ps: seq<seq<byte>>, i: nat)
    requires Holds(items, ps) && i < |items|
    ensures exists j :: 0 <= j < |ps| && ps[j] == items[i].packet
  {
    assert items[i].packet in ps;
  }

  lemma HeldIsSome(items: seq<Item>, ps: seq<seq<byte>>)
    requires Holds(items, ps) && ps != []
    ensures items != [] && items[0].packet in ps
  {
    assert ps[0] in ps;
  }

  lemma HeldAreReadable(items: seq<Item>, ps: seq<seq<byte>>)
    requires Holds(items, ps) && forall i :: 0 <= i < |ps| ==> Readable(ps[i])
    ensures AllReadable(items)
  {
  }

  lemma OneContribution(items: seq<Item>, baseT: Option<Values>, packet: seq<byte>, full: Values,
                        s: set<byte>, s': set<byte>)
    requires AllReadable(items) && Readable(packet)
    requires Contributes(items, baseT, packet, full, s) && Contributes(items, baseT, packet, full, s')
    ensures s == s'
  {
    hide ItemGet;
    var m: Values := map[];
    assert ItemGet(items, baseT, packet, m).0 == m + Pick(full, s) == m + Pick(full, s');
    assert (m + Pick(full, s)).Keys == s && (m + Pick(full, s')).Keys == s';
  }

  /**
   If each packet contributes the values of some sensors, and together they contribute all of `full`,
   then any collection of the packets, in any order and with duplicates, puts `full` over what was read before.
   */
  lemma AnyOrderOver(items: seq<Item>, ps: seq<seq<byte>>, baseT: Option<Values>, full: Values, s: seq<set<byte>>,
                     m: Values)
    requires AllReadable(items) && Holds(items, ps) && |s| == |ps|
    requires forall i :: 0 <= i < |ps| ==> Readable(ps[i]) && Contributes(items, baseT, ps[i], full, s[i])
    requires forall b :: b in full ==> exists i :: 0 <= i < |s| && b in s[i]
    ensures CollectionGet(items, baseT, |items|, m) == m + full
  {
    hide Contributes, CollectionGet, Readable;
    var at: seq<nat> := [];
    var t: seq<set<byte>> := [];
    while |t| < |items|
      invariant |at| == |t| <= |items|
      invariant forall j :: 0 <= j < |t| ==> at[j] < |ps| && ps[at[j]] == items[j].packet && t[j] == s[at[j]]
    {
      assert items[|t|].packet in ps;
      var i :| 0 <= i < |ps| && ps[i] == items[|t|].packet;
      at, t := at + [i], t + [s[i]];
    }
    forall b | b in full
      ensures exists j :: 0 <= j < |t| && b in t[j]
    {
      var i :| 0 <= i < |s| && b in s[i];
      assert ps[i] in ps;
      var j :| 0 <= j < |items| && items[j].packet == ps[i];
      OneContribution(items, baseT, ps[i], full, s[i], s[at[j]]);
      assert b in t[j];
    }
    CollectionCovers(items, baseT, full, t, m);
  }

  /** So a collection that is read on its own reads as `full`. */
  lemma AnyOrder(items: seq<Item>, ps: seq<seq<byte>>, baseT: Option<Values>, full: Values, s: seq<set<byte>>)
    requires AllReadable(items) && Holds(items, ps) && |s| == |ps|
    requires forall i :: 0 <= i < |ps| ==> Readable(ps[i]) && Contributes(items, baseT, ps[i], full, s[i])
    requires forall b :: b in full ==> exists i :: 0 <= i < |s| && b in s[i]
    ensures CollectionGet(items, baseT, |items|, map[]) == full
  {
    hide Contributes, CollectionGet, Readable, Holds, AllReadable;
    var none: Values := map[];
    AnyOrderOver(items, ps, baseT, full, s, none);
    assert none + full == full;
  }
}
