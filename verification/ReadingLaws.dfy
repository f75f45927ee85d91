/** How single packets are read, by their bytes: records, kinds of packets, and deltas over any base. */
module ReadingLaws {
  import opened Wrappers
  import opened Bits
  import opened Temperature
  import opened Packets
  import opened BaseBuilder
  import opened HuffmanCodec
  import opened Readings
  import opened Assembly
  import opened BaseReading
  import opened Framing

  // ------------------------------------------------------------------ records

  /** No record from `i` on, of the first `count` records, is of sensor `k`. */
  predicate NotFrom(p: seq<byte>, header: nat, i: nat, count: nat, k: byte)
    requires header + 4 * count <= |p|
  {
    forall j :: i <= j < count ==> p[header + 4 * j] != k
  }

  /** Reading records: the last one of a sensor counts, its value low byte first; other sensors stay as they were. */
  lemma {:induction false} LastRecordCounts(p: seq<byte>, header: nat, count: nat, m: Values, k: byte, i: nat)
    requires header + 4 * count <= |p|
    ensures NotFrom(p, header, 0, count, k) ==>
              (k in GetRecords(p, header, count, m) <==> k in m)
              && (k in m ==> GetRecords(p, header, count, m)[k] == m[k])
    ensures i < count && p[header + 4 * i] == k && NotFrom(p, header, i + 1, count, k) ==>
              var at := header + 4 * i;
              k in GetRecords(p, header, count, m)
              && GetRecords(p, header, count, m)[k] == Wrap16(p[at + 1] + 256 * (p[at + 2] as int))
  {
    hide Wrap16;
    if count > 0 {
      LastRecordCounts(p, header, count - 1, m, k, i);
      assert NotFrom(p, header, 0, count, k) ==> p[header + 4 * (count - 1)] != k;
      assert i < count - 1 && NotFrom(p, header, i + 1, count, k) ==> p[header + 4 * (count - 1)] != k;
    }
  }

  lemma AllPicked(t: seq<real>)
    requires |t| <= 256
    ensures Range(0, |t|) == Stored(t, |t|).Keys && Pick(Stored(t, |t|), Range(0, |t|)) == Stored(t, |t|)
  {
  }

  /** Any number of records is read after the sixteen bytes of a raw packet or the four of a later plain one. */
  lemma AllRecordsAreRead(header: seq<byte>, m: Measurements, items: seq<Item>, baseT: Option<Values>, v: Values)
    requires (|header| == 16 && header[0] == 0) || (|header| == 4 && header[0] == 0x4b)
    requires |m.temperature| <= 256 && AllReadable(items)
    ensures Readable(header + Records(m, 0, |m.temperature|))
    ensures ItemGet(items, baseT, header + Records(m, 0, |m.temperature|), v)
            == (v + Stored(m.temperature, |m.temperature|), true)
  {
    hide Records, GetRecords, Stored, Pick;
    var n := |m.temperature|;
    var p := header + Records(m, 0, n);
    assert p[0] == header[0] && (|p| - |header|) / 4 == n;
    RecordsAreRead(m, header, 0, n, n, v);
    AllPicked(m.temperature);
  }

  // ---------------------------------------------------------- kinds of packets

  /** Whether `get` knows the packet; one that it does not know is not read. */
  lemma KnownPackets(items: seq<Item>, baseT: Option<Values>, p: seq<byte>, v: Values)
    requires AllReadable(items) && Readable(p)
    ensures ItemGet(items, baseT, p, v).1
            <==> p != [] && ((p[0] == 0 && |p| >= 16) || (p[0] == 0x4a && |p| >= 24) || p[0] == 0x4b || p[0] == 0x48
                             || (p[0] == 0x49 && |p| >= 4) || p[0] == 0x4c || p[0] == 0x4d)
    ensures !ItemGet(items, baseT, p, v).1 ==> ItemGet(items, baseT, p, v).0 == v
    ensures p != [] && (p[0] == 0x4a || ((p[0] == 0x4b || p[0] == 0x48) && |p| < 4))
            ==> ItemGet(items, baseT, p, v).0 == v
    ensures p != [] && baseT.None? && (p[0] == 0x48 || p[0] == 0x49 || p[0] == 0x4c || p[0] == 0x4d)
            ==> ItemGet(items, baseT, p, v).0 == v
  {
    hide GetRecords, Decompressed, DiffLoop, HuffmanOffset;
  }

  // -------------------------------------------------------- deltas over any base

  /** The sensors from `from` up to `c` that the base does not have. */
  function Gaps(baseT: Values, from: nat, c: nat): nat
    requires from <= c
    decreases c - from
  {
    if from == c then 0 else Gaps(baseT, from, c - 1) + (if (c - 1) % 256 in baseT then 0 else 1)
  }

  lemma {:induction false} GapsAfter(baseT: Values, c: byte, x: int16, k: nat)
    requires c < k <= 256
    ensures Gaps(baseT, c, k) == (if c in baseT then 0 else 1) + Gaps(baseT[c := x], c + 1, k)
    decreases k
  {
    if k > c as nat + 1 {
      GapsAfter(baseT, c, x, k - 1);
    } else {
      assert Gaps(baseT, c, c) == 0;
    }
  }

  lemma {:induction false} FewGaps(baseT: Values, c: nat, k: nat)
    requires c <= k
    ensures Gaps(baseT, c, k) <= k - c
    decreases k - c
  {
    if c < k {
      FewGaps(baseT, c, k - 1);
    }
  }

  lemma SizeWith(baseT: Values, c: byte, x: int16)
    ensures |baseT[c := x]| == |baseT| + (if c in baseT then 0 else 1)
    ensures forall k: byte :: k != c ==> ValueAt(baseT[c := x], k) == ValueAt(baseT, k)
  {
    if c in baseT {
      assert baseT[c := x].Keys == baseT.Keys;
    } else {
      assert baseT[c := x].Keys == baseT.Keys + {c};
    }
  }

  /** What the loop gives for sensor `k`: a value if it is reached, and otherwise what was there. */
  predicate ReadsOrKeeps(r: Values, m: Values, k: byte, reached: bool, v: int16) {
    if reached then k in r && r[k] == v else (k in r <==> k in m) && (k in m ==> r[k] == m[k])
  }

  /**
   Reading samples over a base with any sensors: a missing sensor counts as 0 and is added, so sensor `k` is reached
   exactly if it is below the number of base sensors and of gaps passed.
   */
  lemma {:induction false} GapsAreFilled(p: seq<byte>, header: nat, dataBytes: Width, baseT: Values, m: Values,
                                         c: nat, end: nat, i: nat, k: byte)
    requires end <= 256 && (c < end ==> header + Times(i + (end - c), dataBytes) <= |p|)
    ensures c <= k < end ==> header + Times(i + (k - c) + 1, dataBytes) <= |p|
    ensures ReadsOrKeeps(DiffLoop(p, header, dataBytes, baseT, m, c, end, i), m, k,
                         c <= k < end && k < |baseT| + Gaps(baseT, c, k),
                         if c <= k < end
                         then Hton2(Hton2(if k in baseT then baseT[k] else 0) + Diff(p, header, dataBytes, i + (k - c)))
                         else 0)
    decreases end - c
  {
    hide Hton2, Diff, DiffLoop;
    DiffLoopNext(p, header, dataBytes, baseT, m, c, end, i);
    if c <= k {
      FewGaps(baseT, c, k);
    }
    if c < end && c < |baseT| {
      var b := ValueAt(baseT, c);
      var v := Hton2(Hton2(b) + Diff(p, header, dataBytes, i));
      GapsAreFilled(p, header, dataBytes, baseT[c := b], m[c := v], c + 1, end, i + 1, k);
      SizeWith(baseT, c, b);
      if c < k {
        GapsAfter(baseT, c, b, k);
      }
    }
  }

  lemma QuotientOfMore(offset: int, dataBytes: Width)
    requires offset % dataBytes == 0
    ensures Quotient(offset + 256 * dataBytes, dataBytes) % 256 == Quotient(offset, dataBytes) % 256
  {
  }

  /** First sensor and number of samples of a later packet are bytes: both wrap around, a place below 0 too. */
  lemma LaterWraps(p: seq<byte>, offset: int, dataBytes: Width, baseT: Values, m: Values)
    requires |p| >= 4 && offset != 0
    ensures offset % dataBytes == 0 && offset + 256 * dataBytes != 0
            ==> ByDiff(p, offset + 256 * dataBytes, dataBytes, Some(baseT), m)
                == ByDiff(p, offset, dataBytes, Some(baseT), m)
    ensures |p| == 4 + 256 * dataBytes ==> ByDiff(p, offset, dataBytes, Some(baseT), m) == m
  {
    hide DiffLoop, Quotient;
    if offset % dataBytes == 0 {
      QuotientOfMore(offset, dataBytes);
    }
    if |p| == 4 + 256 * dataBytes {
      assert Over(|p| - 4, dataBytes) == 256;
      var ofs := Quotient(offset, dataBytes) % 256;
      DiffLoopNext(p, 4, dataBytes, baseT, m, ofs, ofs, 0);
    }
  }

  // --------------------------------------------------------- what can be read

  /** The number of bits is in the low half of its byte; with another packet at the head it is taken for 1. */
  lemma BitsOfHead(id: ItemId, p: seq<byte>, rest: seq<Item>)
    ensures CollectedBits([]) == 1
    ensures CollectedBits([Item(id, p)] + rest)
            == if |p| >= 8 && (p[0] == 0x4a || p[0] == 0x48 || p[0] == 0x4c) then p[1] % 16 else 1
  {
  }

  /** Reading is undefined for Huffman packets without their header. */
  lemma ReadableSizes(p: seq<byte>)
    ensures Readable(p) <==> !(p != [] && ((p[0] == 0x4c && |p| < 8) || (p[0] == 0x4d && |p| < 4)))
  {
  }

  lemma WholeIsReadable(items: seq<Item>, known: Known, p: seq<byte>)
    requires Whole(p)
    ensures Readable(NewItem(items, known, p).packet)
  {
  }

  /** All that is stored can be read. */
  lemma {:induction false} StoredIsReadable(items: seq<Item>, known: Known, ps: seq<seq<byte>>)
    requires AllReadable(items) && AllWhole(ps)
    ensures AllReadable(PutPackets(items, known, ps))
    decreases |ps|
  {
    hide NewItem, Readable, Whole;
    if ps != [] {
      var item := NewItem(items, known, ps[0]);
      WholeIsReadable(items, known, ps[0]);
      StoredIsReadable(items + [item], known, ps[1..]);
    }
  }
}
