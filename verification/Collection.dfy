/** `LoggerCollection`: the loops that store packets and those that read the collected packets. */
module Collection {
  import opened Wrappers
  import opened Bits
  import opened Temperature
  import opened Packets
  import opened HuffmanCodec
  import opened Readings
  import opened Framing

  class LoggerCollection {
    var items: seq<Item>
    var expectedPackets: byte
    /** The base measurement that the loader of the plume finds, if any. */
    const base: Option<seq<Item>>

    ghost predicate Valid()
      reads this
    {
      AllReadable(items) && (base.Some? ==> AllReadable(base.value))
    }

    constructor (base: Option<seq<Item>>)
      ensures items == [] && expectedPackets == 0 && this.base == base
    {
      items := [];
      expectedPackets := 0;
      this.base := base;
    }

    method GetRecordsOf(packet: seq<byte>, header: nat, m0: Values) returns (m: Values)
      requires header <= |packet|
      ensures m == GetRecords(packet, header, (|packet| - header) / 4, m0)
    {
      m := m0;
      var cnt := (|packet| - header) / 4;
      for p := 0 to cnt
        invariant m == GetRecords(packet, header, p, m0)
      {
        var at := header + 4 * p;
        m := m[packet[at] := LoadInt16(packet[at + 1], packet[at + 2])];
      }
    }

    method GetDataBits() returns (bits: nat)
      ensures bits == CollectedBits(items)
    {
      bits := 1;
      if |items| > 0 && HasFirstHeader(items[0].packet) {
        bits := DataBits(items[0].packet);
      }
    }

    method GetHuffmanPacketMeasurementOffset(packetNum: int) returns (r: int)
      requires AllReadable(items)
      ensures r == HuffmanOffset(items, packetNum)
    {
      hide Decompressed;
      var last := packetNum - 1;
      r := 0;
      if last < 1 {
        return;
      }
      var packetsCalculated: set<byte> := {};
      for i := 0 to |items|
        invariant OffsetLoop(items[i..], last, packetsCalculated, r) == OffsetLoop(items, last, {}, 0)
      {
        var packet := items[i].packet;
        assert items[i..][0] == items[i] && items[i..][1..] == items[i + 1..];
        var typ := MeasuredType(packet);
        if typ == HUFF_1 {
          if 1 in packetsCalculated {
            continue;
          }
          packetsCalculated := packetsCalculated + {1};
          var s := DecompressLogger(packet[FIRST_HDR..]);
          r := r + |s| - HDR_DIFF;
        } else if typ == HUFF_2 {
          if !HasSecondHeader(packet) || PacketNumber(packet) > last {
            continue;
          }
          if PacketNumber(packet) in packetsCalculated {
            continue;
          }
          packetsCalculated := packetsCalculated + {PacketNumber(packet)};
          var s := DecompressLogger(packet[SECOND_HDR..]);
          r := r + |s|;
        }
      }
    }

    method ReadDiffs(packet: seq<byte>, header: nat, dataBytes: Width, base0: Values, m0: Values, ofs: nat, end: nat)
      returns (m: Values)
      requires ofs < end ==> header + Times(end - ofs, dataBytes) <= |packet|
      ensures m == DiffLoop(packet, header, dataBytes, base0, m0, ofs, end, 0)
    {
      hide Hton2, Diff, ValueAt, DiffLoop;
      m := m0;
      var baseT: Values := base0;
      var i := 0;
      var c := ofs;
      while c < end
        invariant c == ofs + i && (c < end ==> header + Times(i + (end - c), dataBytes) <= |packet|)
        invariant DiffLoop(packet, header, dataBytes, baseT, m, c, end, i)
                  == DiffLoop(packet, header, dataBytes, base0, m0, ofs, end, 0)
      {
        DiffLoopNext(packet, header, dataBytes, baseT, m, c, end, i);
        var diff := Diff(packet, header, dataBytes, i);
        if c >= |baseT| {
          break;
        }
        var b := ValueAt(baseT, c % 256);
        baseT := baseT[c % 256 := b];
        m := m[c % 256 := Hton2(Hton2(b) + diff)];
        i := i + 1;
        c := c + 1;
      }
      DiffLoopNext(packet, header, dataBytes, baseT, m, c, end, i);
    }

    method GetByDiff(packet: seq<byte>, offset: int, m0: Values) returns (m: Values)
      requires Valid() && |packet| >= SECOND_HDR
      ensures m == ByDiff(packet, offset, BytesForBits(CollectedBits(items)), BaseValues(base), m0)
      decreases base.Some?, 2
    {
      hide Hton2, Diff, Quotient, DiffLoop, CollectionGet;
      m := m0;
      if base.None? {
        return;
      }
      var loaded := new LoggerCollection(None);
      loaded.items := base.value;
      var baseT := loaded.Get(map[]);
      var dataBits := GetDataBits();
      var dataBytes := BytesForBits(dataBits);
      var cnt, ofs, header: nat;
      if offset != 0 {
        cnt := Over(|packet| - SECOND_HDR, dataBytes) % 256;
        ofs := Quotient(offset, dataBytes) % 256;
        header := SECOND_HDR;
      } else {
        header := FIRST_HDR + HDR_DIFF;
        cnt := if |packet| < header then 0 else Over(|packet| - header, dataBytes);
        ofs := 0;
      }
      m := ReadDiffs(packet, header, dataBytes, baseT, m0, ofs, ofs + cnt);
    }

    method GetItem(packet: seq<byte>, m0: Values) returns (m: Values, ok: bool)
      requires Valid() && Readable(packet)
      ensures (m, ok) == ItemGet(items, BaseValues(base), packet, m0)
      decreases base.Some?, 3
    {
      hide Hton2, Decompressed;
      m := m0;
      var typ := MeasuredType(packet);
      if typ == RAW {
        m := GetRecordsOf(packet, MEASUREMENT_HDR, m);
      } else if typ == PKT_1 {
      } else if typ == PKT_2 {
        if |packet| >= SECOND_HDR {
          m := GetRecordsOf(packet, SECOND_HDR, m);
        }
      } else if typ == DELTA_1 {
        if |packet| >= SECOND_HDR {
          m := GetByDiff(packet, 0, m);
        }
      } else if typ == DELTA_2 {
        if !HasSecondHeader(packet) {
          return m, false;
        }
        m := GetByDiff(packet, 6 + (PacketNumber(packet) - 2) * 20, m);
      } else if typ == HUFF_1 {
        var data := DecompressLogger(packet[FIRST_HDR..]);
        m := GetByDiff(packet[..FIRST_HDR] + data, 0, m);
      } else if typ == HUFF_2 {
        var data := DecompressLogger(packet[SECOND_HDR..]);
        var offset := GetHuffmanPacketMeasurementOffset(PacketNumber(packet));
        m := GetByDiff(packet[..SECOND_HDR] + data, offset, m);
      } else {
        return m, false;
      }
      ok := true;
    }

    method Get(m0: Values) returns (m: Values)
      requires Valid()
      ensures m == CollectionGet(items, BaseValues(base), |items|, m0)
      decreases base.Some?, 4
    {
      m := m0;
      for k := 0 to |items|
        invariant m == CollectionGet(items, BaseValues(base), k, m0)
      {
        var ok;
        m, ok := GetItem(items[k].packet, m);
      }
    }

    method Completed() returns (r: bool)
      ensures r <==> Complete(items, expectedPackets)
    {
      r := |items| >= expectedPackets && expectedPackets > 0;
    }

    lemma TypeOfFrame(buffer: seq<byte>)
      requires PacketType(buffer) != UNKNOWN
      ensures PacketType(Frame(buffer)) == PacketType(buffer) && Frame(buffer) != []
    {
    }

    /** The packet at the beginning of a buffer and the packets after it. */
    lemma FirstFrame(buffer: seq<byte>, loaded: Option<ItemId>)
      ensures PacketType(buffer) == UNKNOWN ==> Frames(buffer) == [] && LastPart(buffer) == buffer
      ensures PacketType(buffer) != UNKNOWN ==>
                var f, ps := Frame(buffer), Frames(buffer);
                && |f| > 0
                && (!Storable(f, loaded) ==> Leading(ps, loaded) == [] && !AllStorable(ps, loaded))
                && (|f| >= |buffer| ==>
                      && LastPart(buffer) == buffer
                      && (Storable(f, loaded) ==> Leading(ps, loaded) == [f] && AllStorable(ps, loaded)))
                && (|f| < |buffer| ==>
                      && LastPart(buffer) == LastPart(buffer[|f|..])
                      && (Storable(f, loaded) ==>
                            && Leading(ps, loaded) == [f] + Leading(Frames(buffer[|f|..]), loaded)
                            && (AllStorable(ps, loaded) <==> AllStorable(Frames(buffer[|f|..]), loaded))))
    {
      hide Storable, TypeSize;
      if PacketType(buffer) != UNKNOWN {
        TypeOfFrame(buffer);
        var f, ps := Frame(buffer), Frames(buffer);
        assert ps[0] == f;
        if |f| < |buffer| {
          assert ps[1..] == Frames(buffer[|f|..]);
        } else {
          assert ps[1..] == [];
        }
      }
    }

    lemma NothingPut(items: seq<Item>, known: Known, expected: byte)
      ensures PutBuffers(items, known, []) == items && AnnouncedIn(expected, [], known.loaded) == expected
      ensures AllStorable(AllFrames([]), known.loaded)
    {
    }

    /** The year of a packet with a second header. */
    method GetKosaYear(kosa: byte, known: Known) returns (year: byte)
      ensures year == YearOfLater(items, known, kosa)
    {
      year := 0;
      if |items| > 0 && HasFirstHeader(items[0].packet) {
        return FirstYear(items[0].packet);
      }
      var collected := known.collected(kosa);
      if collected.Some? {
        return collected.value;
      }
      if known.loaded.Some? {
        year := known.loaded.value.kosaYear;
      }
    }

    /** Store one packet from the beginning of the buffer. */
    method Put1(buffer: seq<byte>, known: Known) returns (r: Result<byte>, size: nat)
      modifies this
      ensures r.Err? <==> PacketType(buffer) != UNKNOWN && !Storable(Frame(buffer), known.loaded)
      ensures r.Err? ==> unchanged(this)
      ensures r.Ok? ==> r.value == PacketType(buffer)
      ensures r.Ok? && r.value == UNKNOWN ==> size == |buffer| && unchanged(this)
      ensures r.Ok? && r.value != UNKNOWN ==>
                && size == |Frame(buffer)|
                && items == old(items) + [NewItem(old(items), known, Frame(buffer))]
                && expectedPackets == Announced(old(expectedPackets), [Frame(buffer)])
    {
      var typ := PacketType(buffer);
      if typ == UNKNOWN {
        return Ok(typ), |buffer|;
      }
      size := TypeSize(typ, |buffer|);
      var packet := buffer[..size];
      TypeOfFrame(buffer);
      if !Storable(packet, known.loaded) {
        return Err(if typ == RAW then RawPacket else MissingHeader), size;
      }
      var id;
      if IsFirst(typ) {
        id := ItemId(FirstKosa(packet), packet[4], 1, FirstYear(packet));
        expectedPackets := PacketsField(packet);
        if typ == PKT_1 {
          packet := packet[15 := id.kosa][16 := id.kosaYear];
        }
      } else {
        var year := GetKosaYear(packet[1], known);
        id := ItemId(SecondKosa(packet), packet[2], PacketNumber(packet), year);
        if typ == DELTA_2 || typ == HUFF_2 {
          if known.loaded.Some? {
            id := known.loaded.value;
          }
          id := id.(packet := PacketNumber(packet));
        }
      }
      items := items + [Item(id, packet)];
      r := Ok(typ);
    }

    /** Store the packets of the buffer, up to one that cannot be stored. */
    method Put(buffer: seq<byte>, known: Known) returns (r: Result<byte>, retSize: nat)
      modifies this
      ensures items == PutPackets(old(items), known, Leading(Frames(buffer), known.loaded))
      ensures expectedPackets == Announced(old(expectedPackets), Leading(Frames(buffer), known.loaded))
      ensures r.Ok? <==> AllStorable(Frames(buffer), known.loaded)
      ensures r.Ok? ==> r.value == PacketType(LastPart(buffer)) && retSize == |LastPart(buffer)|
    {
      hide NewItem, TypeSize, PacketType, Storable, AllStorable;
      var next := buffer;
      retSize := |buffer|;
      while true
        invariant retSize == |next| && LastPart(next) == LastPart(buffer)
        invariant AllStorable(Frames(next), known.loaded) <==> AllStorable(Frames(buffer), known.loaded)
        invariant PutPackets(items, known, Leading(Frames(next), known.loaded))
                  == PutPackets(old(items), known, Leading(Frames(buffer), known.loaded))
        invariant Announced(expectedPackets, Leading(Frames(next), known.loaded))
                  == Announced(old(expectedPackets), Leading(Frames(buffer), known.loaded))
        decreases |next|
      {
        FirstFrame(next, known.loaded);
        var sz;
        r, sz := Put1(next, known);
        if r.Err? || sz >= retSize {
          break;
        }
        retSize := retSize - sz;
        next := next[sz..];
      }
    }

    /** Put several buffers, up to one with a packet that cannot be stored. */
    method PutAll(values: seq<seq<byte>>, known: Known) returns (r: Result<byte>)
      modifies this
      ensures items == PutBuffers(old(items), known, values)
      ensures expectedPackets == AnnouncedIn(old(expectedPackets), values, known.loaded)
      ensures r.Ok? <==> AllStorable(AllFrames(values), known.loaded)
      ensures r.Ok? ==> r.value == if values == [] then UNKNOWN else PacketType(LastPart(values[|values| - 1]))
    {
      hide PutBuffers, AnnouncedIn, AllFrames, AllStorable, PutPackets, Announced, Leading, PacketType;
      r := Ok(UNKNOWN);
      NothingPut(items, known, expectedPackets);
      ghost var items0, expected0 := items, expectedPackets;
      assert values[..0] == [];
      for i := 0 to |values|
        invariant items == PutBuffers(items0, known, values[..i])
        invariant expectedPackets == AnnouncedIn(expected0, values[..i], known.loaded)
        invariant r.Ok? <==> AllStorable(AllFrames(values[..i]), known.loaded)
        invariant r.Ok? ==> r.value == if i == 0 then UNKNOWN else PacketType(LastPart(values[i - 1]))
      {
        assert values[..i + 1] == values[..i] + [values[i]];
        PutOneMore(items0, known, expected0, values[..i], values[i]);
        if r.Ok? {
          var size;
          r, size := Put(values[i], known);
        }
      }
      assert values[..|values|] == values;
    }
  }
}
