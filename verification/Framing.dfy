/** How a buffer is split into packets and what is stored for each: `LoggerItem::set`, `LoggerCollection::put`. */
module Framing {
  import opened Wrappers
  import opened Bits
  import opened Packets
  import opened Readings

  // ---------------------------------------------------------------- splitting

  /** The packet at the beginning of a buffer. */
  function Frame(buffer: seq<byte>): seq<byte> {
    buffer[..TypeSize(PacketType(buffer), |buffer|)]
  }

  /** The packets of a buffer; a byte that begins no packet ends the splitting. */
  function Frames(buffer: seq<byte>): seq<seq<byte>>
    decreases |buffer|
  {
    var f := Frame(buffer);
    if PacketType(buffer) == UNKNOWN then []
    else if |f| >= |buffer| then [f]
    else [f] + Frames(buffer[|f|..])
  }

  /** The part of the buffer at which the splitting ends. */
  function LastPart(buffer: seq<byte>): seq<byte>
    decreases |buffer|
  {
    var f := Frame(buffer);
    if PacketType(buffer) == UNKNOWN || |f| >= |buffer| then buffer else LastPart(buffer[|f|..])
  }

  /** The packets of buffers that come one after the other. */
  function AllFrames(buffers: seq<seq<byte>>): seq<seq<byte>> {
    if buffers == [] then [] else AllFrames(buffers[..|buffers| - 1]) + Frames(buffers[|buffers| - 1])
  }

  /** The packet is not raw and as long as the headers that are read from it. */
  predicate Whole(p: seq<byte>) {
    && (HasFirstHeader(p) || HasSecondHeader(p))
    && (PacketType(p) == PKT_1 ==> |p| >= FIRST_HDR + MEASUREMENT_HDR)
  }

  predicate AllWhole(ps: seq<seq<byte>>) {
    forall i :: 0 <= i < |ps| ==> Whole(ps[i])
  }

  /** `extractDiffHdr`: a first delta packet, decompressed if need be, has its measurement header. */
  predicate HasDiffHeader(p: seq<byte>)
    requires Whole(p)
  {
    && (PacketType(p) == DELTA_1 ==> |p| >= FIRST_HDR + HDR_DIFF)
    && (PacketType(p) == HUFF_1 ==> |Unzipped(p, FIRST_HDR)| >= FIRST_HDR + HDR_DIFF)
  }

  /** What is read of the packet while it is stored is there; the measurement header is read if a record is loaded. */
  predicate Storable(p: seq<byte>, loaded: Option<ItemId>) {
    Whole(p) && (loaded.Some? ==> HasDiffHeader(p))
  }

  predicate AllStorable(ps: seq<seq<byte>>, loaded: Option<ItemId>) {
    forall i :: 0 <= i < |ps| ==> Storable(ps[i], loaded)
  }

  /** The packets before the first that cannot be stored. */
  function Leading(ps: seq<seq<byte>>, loaded: Option<ItemId>): (r: seq<seq<byte>>)
    ensures AllWhole(r) && AllStorable(r, loaded) && (r == ps <==> AllStorable(ps, loaded))
  {
    if ps == [] || !Storable(ps[0], loaded) then []
    else
      assert ps == [ps[0]] + ps[1..];
      [ps[0]] + Leading(ps[1..], loaded)
  }

  lemma LeadingStep(p: seq<byte>, ps: seq<seq<byte>>, loaded: Option<ItemId>)
    ensures AllStorable([p] + ps, loaded) <==> Storable(p, loaded) && AllStorable(ps, loaded)
    ensures Leading([p] + ps, loaded) == if Storable(p, loaded) then [p] + Leading(ps, loaded) else []
  {
    hide Storable, Whole;
    assert ([p] + ps)[0] == p && ([p] + ps)[1..] == ps;
    assert forall i :: 0 <= i < |ps| ==> ([p] + ps)[i + 1] == ps[i];
  }

  lemma NothingLeads(loaded: Option<ItemId>)
    ensures AllStorable([], loaded) && Leading([], loaded) == []
  {
  }

  lemma {:induction false} LeadingAppend(a: seq<seq<byte>>, b: seq<seq<byte>>, loaded: Option<ItemId>)
    ensures AllStorable(a + b, loaded) <==> AllStorable(a, loaded) && AllStorable(b, loaded)
    ensures Leading(a + b, loaded) == if AllStorable(a, loaded) then a + Leading(b, loaded) else Leading(a, loaded)
  {
    hide *;
    NothingLeads(loaded);
    if a == [] {
      assert a + b == b;
    } else {
      var p, rest := a[0], a[1..];
      assert a == [p] + rest && a + b == [p] + (rest + b);
      LeadingAppend(rest, b, loaded);
      LeadingStep(p, rest, loaded);
      LeadingStep(p, rest + b, loaded);
    }
  }

  // ------------------------------------------------------------ stored packets

  /** `getFirstHeader`: the year in the first header of a collection, if its first item has one. */
  function HeadYear(items: seq<Item>): Option<byte> {
    if items != [] && HasFirstHeader(items[0].packet) then Some(FirstYear(items[0].packet)) else None
  }

  /**
   What is known about plumes when a packet comes: the years that the collector has collected, and the record
   that the loader of base measurements has for the address of the message, if it has one.
   */
  datatype Known = Known(collected: byte -> Option<byte>, loaded: Option<ItemId>)

  /** `getKosaYearFromFirstPacketOrLoad` */
  function YearOfLater(items: seq<Item>, known: Known, kosa: byte): byte {
    if HeadYear(items).Some? then HeadYear(items).value
    else if known.collected(kosa).Some? then known.collected(kosa).value
    else if known.loaded.Some? then known.loaded.value.kosaYear
    else 0
  }

  /** The measurement header of a first plain packet gets the plume of the packet header. */
  function Stamped(p: seq<byte>): (r: seq<byte>)
    requires Whole(p)
    ensures |r| == |p|
  {
    if PacketType(p) == PKT_1 then p[15 := FirstKosa(p)][16 := FirstYear(p)] else p
  }

  function PlumeOf(p: seq<byte>): byte
    requires Whole(p)
  {
    if HasFirstHeader(p) then FirstKosa(p) else SecondKosa(p)
  }

  /** Delta and Huffman packets after the first get the identity that was loaded. */
  predicate IsLoaded(p: seq<byte>, loaded: Option<ItemId>) {
    loaded.Some? && (PacketType(p) == DELTA_2 || PacketType(p) == HUFF_2)
  }

  /** The item for a packet whose plume was made in the given year, unless its identity is loaded. */
  function Labelled(p: seq<byte>, year: byte, loaded: Option<ItemId>): Item
    requires Whole(p)
  {
    if HasFirstHeader(p) then Item(ItemId(FirstKosa(p), p[4], 1, FirstYear(p)), Stamped(p))
    else if IsLoaded(p, loaded) then
      Item(ItemId(loaded.value.kosa, loaded.value.measure, PacketNumber(p), loaded.value.kosaYear), p)
    else Item(ItemId(SecondKosa(p), p[2], PacketNumber(p), year), p)
  }

  function NewItem(items: seq<Item>, known: Known, p: seq<byte>): Item
    requires Whole(p)
  {
    Labelled(p, YearOfLater(items, known, PlumeOf(p)), known.loaded)
  }

  function PutPackets(items: seq<Item>, known: Known, ps: seq<seq<byte>>): seq<Item>
    requires AllWhole(ps)
    decreases |ps|
  {
    if ps == [] then items else PutPackets(items + [NewItem(items, known, ps[0])], known, ps[1..])
  }

  /** The number of packets announced by the last first header. */
  function Announced(expected: byte, ps: seq<seq<byte>>): byte
    requires AllWhole(ps)
    decreases |ps|
  {
    if ps == [] then expected
    else Announced(if HasFirstHeader(ps[0]) then PacketsField(ps[0]) else expected, ps[1..])
  }

  lemma {:induction false} PutAppend(items: seq<Item>, known: Known, a: seq<seq<byte>>, b: seq<seq<byte>>)
    requires AllWhole(a) && AllWhole(b)
    ensures AllWhole(a + b)
    ensures PutPackets(items, known, a + b) == PutPackets(PutPackets(items, known, a), known, b)
    decreases |a|
  {
    hide Whole, NewItem;
    if a == [] {
      assert a + b == b;
    } else {
      assert (a + b)[1..] == a[1..] + b;
      PutAppend(items + [NewItem(items, known, a[0])], known, a[1..], b);
    }
  }

  lemma {:induction false} AnnouncedAppend(expected: byte, a: seq<seq<byte>>, b: seq<seq<byte>>)
    requires AllWhole(a) && AllWhole(b)
    ensures AllWhole(a + b) && Announced(expected, a + b) == Announced(Announced(expected, a), b)
    decreases |a|
  {
    if a == [] {
      assert a + b == b;
    } else {
      var next := if HasFirstHeader(a[0]) then PacketsField(a[0]) else expected;
      hide Whole, HasFirstHeader, PacketsField;
      assert (a + b)[1..] == a[1..] + b;
      AnnouncedAppend(next, a[1..], b);
    }
  }

  /** The items stored for buffers that are put one after the other, up to a packet that is an error. */
  function PutBuffers(items: seq<Item>, known: Known, buffers: seq<seq<byte>>): seq<Item> {
    PutPackets(items, known, Leading(AllFrames(buffers), known.loaded))
  }

  function AnnouncedIn(expected: byte, buffers: seq<seq<byte>>, loaded: Option<ItemId>): byte {
    Announced(expected, Leading(AllFrames(buffers), loaded))
  }

  /** One more buffer after buffers without an error, and after one with an error. */
  lemma PutOneMore(items: seq<Item>, known: Known, expected: byte, buffers: seq<seq<byte>>, b: seq<byte>)
    ensures var a, loaded := AllFrames(buffers), known.loaded;
            && AllFrames(buffers + [b]) == a + Frames(b)
            && (AllStorable(a + Frames(b), loaded) <==> AllStorable(a, loaded) && AllStorable(Frames(b), loaded))
            && (AllStorable(a, loaded) ==>
                  && PutBuffers(items, known, buffers + [b])
                     == PutPackets(PutBuffers(items, known, buffers), known, Leading(Frames(b), loaded))
                  && AnnouncedIn(expected, buffers + [b], loaded)
                     == Announced(AnnouncedIn(expected, buffers, loaded), Leading(Frames(b), loaded)))
            && (!AllStorable(a, loaded) ==>
                  && PutBuffers(items, known, buffers + [b]) == PutBuffers(items, known, buffers)
                  && AnnouncedIn(expected, buffers + [b], loaded) == AnnouncedIn(expected, buffers, loaded))
  {
    hide Frames, Leading, AllStorable, PutPackets, Announced, AllWhole;
    var a, loaded := AllFrames(buffers), known.loaded;
    assert (buffers + [b])[..|buffers|] == buffers;
    LeadingAppend(a, Frames(b), loaded);
    if AllStorable(a, loaded) {
      assert Leading(a, loaded) == a && AllWhole(Leading(a, loaded));
      PutAppend(items, known, a, Leading(Frames(b), loaded));
      AnnouncedAppend(expected, a, Leading(Frames(b), loaded));
    }
  }

  /** `completed` */
  predicate Complete(items: seq<Item>, expected: byte) {
    |items| >= expected && expected > 0
  }
}
