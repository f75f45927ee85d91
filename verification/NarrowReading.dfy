/** What is read from delta packets, whatever they are, with one byte for each sample. */
module NarrowReading {
  import opened Wrappers
  import opened Bits
  import opened Temperature
  import opened Packets
  import opened HuffmanCodec
  import opened DeltaWidth
  import opened Readings
  import opened Assembly

  /** The value read from one byte of samples for a sensor with a base. */
  function Nearby(base: real, sample: byte): int16 {
    Hton2(Quantised(base) + SignExtend(sample))
  }

  /** Each value is at most eight degrees from its base. */
  ghost predicate Near(v: Values, base: seq<real>) {
    forall k :: k in v ==> k < |base| && exists sample :: v[k] == Nearby(base[k], sample)
  }

  lemma OneSampleNear(p: seq<byte>, header: nat, base: seq<real>, c: byte, i: nat)
    requires c < |base| <= 256 && header + i < |p|
    ensures Stored(base, |base|)[c := ValueAt(Stored(base, |base|), c)] == Stored(base, |base|)
    ensures Hton2(Hton2(ValueAt(Stored(base, |base|), c)) + Diff(p, header, 1, i)) == Nearby(base[c], p[header + i])
  {
    hide Hton2, Quantised;
    Hton2OfStored(base[c]);
  }

  lemma NearStep(v: Values, base: seq<real>, c: byte, sample: byte)
    requires Near(v, base) && c < |base|
    ensures Near(v[c := Nearby(base[c], sample)], base)
  {
  }

  lemma {:induction false} LoopIsNear(p: seq<byte>, header: nat, base: seq<real>, v: Values, c: nat, end: nat, i: nat)
    requires |base| <= 256 && |Stored(base, |base|)| == |base| && (c < end ==> header + i + (end - c) <= |p|)
    requires Near(v, base)
    ensures Near(DiffLoop(p, header, 1, Stored(base, |base|), v, c, end, i), base)
    decreases end - c
  {
    hide Hton2, Quantised, Diff, ValueAt, Near, Stored, Nearby, DiffLoop;
    DiffLoopNext(p, header, 1, Stored(base, |base|), v, c, end, i);
    if c < end && c < |base| {
      OneSampleNear(p, header, base, c, i);
      var x := Nearby(base[c], p[header + i]);
      NearStep(v, base, c, p[header + i]);
      LoopIsNear(p, header, base, v[c := x], c + 1, end, i + 1);
    }
  }

  lemma StoredKeys(base: seq<real>)
    ensures |base| <= 256 ==> Stored(base, |base|).Keys == Range(0, |base|)
    ensures |base| <= 256 ==> |Stored(base, |base|)| == |Range(0, |base|)|
  {
    if |base| <= 256 {
      assert Stored(base, |base|).Keys == Range(0, |base|);
      assert |Stored(base, |base|)| == |Stored(base, |base|).Keys|;
    }
  }

  lemma ByDiffNear(p: seq<byte>, offset: int, base: seq<real>, v: Values)
    requires |base| <= 256 && |p| >= SECOND_HDR && Near(v, base)
    ensures Near(ByDiff(p, offset, 1, Some(Stored(base, |base|)), v), base)
  {
    hide DiffLoop, Near, Stored, Quotient;
    RangeSize(|base|);
    StoredKeys(base);
    if offset != 0 {
      var cnt := (|p| - SECOND_HDR) % 256;
      var ofs := Quotient(offset, 1) % 256;
      LoopIsNear(p, SECOND_HDR, base, v, ofs, ofs + cnt, 0);
    } else {
      var data := FIRST_HDR + HDR_DIFF;
      LoopIsNear(p, data, base, v, 0, if |p| < data then 0 else |p| - data, 0);
    }
  }

  lemma ItemIsNear(items: seq<Item>, p: seq<byte>, base: seq<real>, v: Values)
    requires AllReadable(items) && Readable(p) && IsDiff(p) && BytesForBits(CollectedBits(items)) == 1
    requires |base| <= 256 && Near(v, base)
    ensures Near(ItemGet(items, Some(Stored(base, |base|)), p, v).0, base)
  {
    hide ByDiff, Near, Stored, CollectedBits, Decompressed, HuffmanOffset;
    if PacketType(p) == DELTA_1 && |p| >= SECOND_HDR {
      ByDiffNear(p, 0, base, v);
    } else if PacketType(p) == DELTA_2 && |p| >= SECOND_HDR {
      ByDiffNear(p, 6 + (PacketNumber(p) - 2) * 20, base, v);
    } else if PacketType(p) == HUFF_1 {
      ByDiffNear(Unzipped(p, FIRST_HDR), 0, base, v);
    } else if PacketType(p) == HUFF_2 {
      ByDiffNear(Unzipped(p, SECOND_HDR), HuffmanOffset(items, PacketNumber(p)), base, v);
    }
  }

  predicate AllDiff(items: seq<Item>) {
    forall i :: 0 <= i < |items| ==> IsDiff(items[i].packet)
  }

  lemma {:induction false} CollectionIsNear(items: seq<Item>, base: seq<real>, k: nat)
    requires AllReadable(items) && AllDiff(items) && BytesForBits(CollectedBits(items)) == 1
    requires |base| <= 256 && k <= |items|
    ensures Near(CollectionGet(items, Some(Stored(base, |base|)), k, map[]), base)
  {
    hide ItemGet, Stored, CollectedBits, IsDiff, Readable;
    if k > 0 {
      CollectionIsNear(items, base, k - 1);
      hide Near;
      ItemIsNear(items, items[k - 1].packet, base, CollectionGet(items, Some(Stored(base, |base|)), k - 1, map[]));
    }
  }

  lemma NearbyArithmetic(q: int16, b: int16, sample: byte)
    requires Wrap16(b + SignExtend(sample)) == q
    ensures -128 <= Wrap16(q - b) < 128
  {
  }

  /** A value that is read right has a delta that fits into a signed byte. */
  lemma NearbyFits(t: real, base: real, sample: byte)
    requires Hton2(Quantised(t)) == Nearby(base, sample)
    ensures -128 <= Delta(t, base) < 128
  {
    hide Hton2, Quantised, SignExtend, Wrap16;
    Hton2Twice(Quantised(base) + SignExtend(sample));
    Hton2OfStored(t);
    NearbyArithmetic(Quantised(t), Quantised(base), sample);
  }

  /** If the stored temperatures are read with one byte for each sample, all the deltas fit into one. */
  lemma RightMeansNarrow(items: seq<Item>, t: seq<real>, base: seq<real>, count: nat)
    requires AllReadable(items) && AllDiff(items) && BytesForBits(CollectedBits(items)) == 1
    requires |base| <= 256 && count <= |t| && count <= |base|
    requires CollectionGet(items, Some(Stored(base, |base|)), |items|, map[]) == Stored(t, count)
    ensures forall k :: 0 <= k < count ==> -128 <= Delta(t[k], base[k]) < 128
  {
    hide CollectionGet, Hton2, Quantised, IsDiff, Readable, CollectedBits, Nearby, Delta;
    CollectionIsNear(items, base, |items|);
    var v := Stored(t, count);
    forall k | 0 <= k < count
      ensures -128 <= Delta(t[k], base[k]) < 128
    {
      assert k in v && v[k] == Hton2(Quantised(t[k]));
      var sample :| v[k] == Nearby(base[k], sample);
      NearbyFits(t[k], base[k], sample);
    }
  }
}
