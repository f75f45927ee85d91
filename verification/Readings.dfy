/** What `LoggerItem::get` and `LoggerCollection::get` read from collected packets. */
module Readings {
  import opened Wrappers
  import opened Bits
  import opened Temperature
  import opened Packets
  import opened HuffmanCodec

  datatype ItemId = ItemId(kosa: byte, measure: byte, packet: byte, kosaYear: byte)

  /** One collected packet. */
  datatype Item = Item(id: ItemId, packet: seq<byte>)

  /** Stored values by sensor number. */
  type Values = map<byte, int16>

  /** Huffman packets shorter than their header make `substr` throw. */
  predicate Readable(packet: seq<byte>) {
    && (PacketType(packet) == HUFF_1 ==> |packet| >= FIRST_HDR)
    && (PacketType(packet) == HUFF_2 ==> |packet| >= SECOND_HDR)
  }

  /** `get` on a packet with deltas goes through the item's owner to the base and to the other packets. */
  predicate IsDiff(p: seq<byte>) {
    PacketType(p) == DELTA_1 || PacketType(p) == DELTA_2 || PacketType(p) == HUFF_1 || PacketType(p) == HUFF_2
  }

  predicate AllReadable(items: seq<Item>) {
    forall i :: 0 <= i < |items| ==> Readable(items[i].packet)
  }

  // ------------------------------------------------------------ plain records

  /** The first `count` records after the header, written into `m`. */
  function GetRecords(p: seq<byte>, header: nat, count: nat, m: Values): Values
    requires header + 4 * count <= |p|
  {
    if count == 0 then m
    else
      var at := header + 4 * (count - 1);
      GetRecords(p, header, count - 1, m)[p[at] := LoadInt16(p[at + 1], p[at + 2])]
  }

  // ------------------------------------------------------------------- deltas

  /** `int8_t` converted to `int`. */
  function SignExtend(b: byte): int {
    if b >= 128 then b - 256 else b
  }

  /** `getDiff` */
  function Diff(p: seq<byte>, header: nat, dataBytes: Width, i: nat): int
    requires header + Times(i + 1, dataBytes) <= |p|
  {
    if dataBytes == 2 then LoadInt16(p[header + 2 * i], p[header + 2 * i + 1]) else SignExtend(p[header + i])
  }

  /** `std::map::operator[]` on a map of values: a missing key has the value 0. */
  function ValueAt(m: Values, k: byte): int16 {
    if k in m then m[k] else 0
  }

  /** The loop of `getByDiff`: samples `i`, ... of the packet belong to the sensors `c`, ..., `end - 1`. */
  function DiffLoop(p: seq<byte>, header: nat, dataBytes: Width, baseT: Values, m: Values,
                    c: nat, end: nat, i: nat): Values
    requires c < end ==> header + Times(i + (end - c), dataBytes) <= |p|
    decreases end - c
  {
    if c >= end || c >= |baseT| then m
    else
      var b := ValueAt(baseT, c % 256);
      var v := Hton2(Hton2(b) + Diff(p, header, dataBytes, i));
      DiffLoop(p, header, dataBytes, baseT[c % 256 := b], m[c % 256 := v], c + 1, end, i + 1)
  }

  lemma DiffLoopNext(p: seq<byte>, header: nat, dataBytes: Width, baseT: Values, m: Values, c: nat, end: nat, i: nat)
    requires c < end ==> header + Times(i + (end - c), dataBytes) <= |p|
    ensures c >= end || c >= |baseT| ==> DiffLoop(p, header, dataBytes, baseT, m, c, end, i) == m
    ensures c < end && c < |baseT| ==>
              && header + Times(i + 1, dataBytes) <= |p|
              && header + Times(i + 1 + (end - (c + 1)), dataBytes) <= |p|
              && var b := ValueAt(baseT, c % 256);
                 var v := Hton2(Hton2(b) + Diff(p, header, dataBytes, i));
                 DiffLoop(p, header, dataBytes, baseT, m, c, end, i)
                 == DiffLoop(p, header, dataBytes, baseT[c % 256 := b], m[c % 256 := v], c + 1, end, i + 1)
  {
  }

  /** `getByDiff` with the offset of the packet's samples in bytes; offset 0 means the first packet. */
  function ByDiff(p: seq<byte>, offset: int, dataBytes: Width, baseT: Option<Values>, m: Values): Values
    requires |p| >= SECOND_HDR
  {
    if baseT.None? then m
    else if offset != 0 then
      var cnt := Over(|p| - SECOND_HDR, dataBytes) % 256;
      var ofs := Quotient(offset, dataBytes) % 256;
      DiffLoop(p, SECOND_HDR, dataBytes, baseT.value, m, ofs, ofs + cnt, 0)
    else
      var data := FIRST_HDR + HDR_DIFF;
      var cnt := if |p| < data then 0 else Over(|p| - data, dataBytes);
      DiffLoop(p, data, dataBytes, baseT.value, m, 0, cnt, 0)
  }

  /** `getDataBits`: from the first header if the first item has one. */
  function CollectedBits(items: seq<Item>): nat {
    if items != [] && HasFirstHeader(items[0].packet) then DataBits(items[0].packet) else 1
  }

  // ----------------------------------------------------------- Huffman offsets

  /** The number under which a Huffman packet counts, if it counts for packets up to `last`. */
  function CountedNumber(packet: seq<byte>, last: int): Option<byte> {
    if MeasuredType(packet) == HUFF_1 then Some(1)
    else if MeasuredType(packet) == HUFF_2 && HasSecondHeader(packet) && PacketNumber(packet) <= last then
      Some(PacketNumber(packet))
    else None
  }

  /** The bytes of samples in a Huffman packet. */
  function SampleSize(packet: seq<byte>): int
    requires Readable(packet)
  {
    if PacketType(packet) == HUFF_1 then |Decompressed(packet[FIRST_HDR..])| - HDR_DIFF
    else if PacketType(packet) == HUFF_2 then |Decompressed(packet[SECOND_HDR..])|
    else 0
  }

  /** The loop of `getHuffmanPacketMeasurementOffset`: each packet number is counted once. */
  function OffsetLoop(items: seq<Item>, last: int, seen: set<byte>, r: int): int
    requires AllReadable(items)
  {
    if items == [] then r
    else
      var number := CountedNumber(items[0].packet, last);
      if number.Some? && number.value !in seen then
        OffsetLoop(items[1..], last, seen + {number.value}, r + SampleSize(items[0].packet))
      else OffsetLoop(items[1..], last, seen, r)
  }

  function HuffmanOffset(items: seq<Item>, packetNum: int): int
    requires AllReadable(items)
  {
    var last := packetNum - 1;
    if last < 1 then 0 else OffsetLoop(items, last, {}, 0)
  }

  // ---------------------------------------------------------------------- get

  /** The packet with the part after its header decompressed. */
  function Unzipped(packet: seq<byte>, header: nat): seq<byte>
    requires header <= |packet|
  {
    packet[..header] + Decompressed(packet[header..])
  }

  /** `LoggerItem::get` for an item of a collection; the flag is its result. */
  function ItemGet(items: seq<Item>, baseT: Option<Values>, packet: seq<byte>, m: Values): (Values, bool)
    requires AllReadable(items) && Readable(packet)
  {
    var typ := MeasuredType(packet);
    var dataBytes := BytesForBits(CollectedBits(items));
    if typ == RAW then (GetRecords(packet, MEASUREMENT_HDR, (|packet| - MEASUREMENT_HDR) / 4, m), true)
    else if typ == PKT_1 then (m, true)
    else if typ == PKT_2 then
      (if |packet| < SECOND_HDR then m else GetRecords(packet, SECOND_HDR, (|packet| - SECOND_HDR) / 4, m), true)
    else if typ == DELTA_1 then
      (if |packet| < SECOND_HDR then m else ByDiff(packet, 0, dataBytes, baseT, m), true)
    else if typ == DELTA_2 then
      if !HasSecondHeader(packet) then (m, false)
      else (ByDiff(packet, 6 + (PacketNumber(packet) - 2) * 20, dataBytes, baseT, m), true)
    else if typ == HUFF_1 then (ByDiff(Unzipped(packet, FIRST_HDR), 0, dataBytes, baseT, m), true)
    else if typ == HUFF_2 then
      (ByDiff(Unzipped(packet, SECOND_HDR), HuffmanOffset(items, PacketNumber(packet)), dataBytes, baseT, m), true)
    else (m, false)
  }

  /** `LoggerCollection::get` over the first `k` items. */
  function CollectionGet(items: seq<Item>, baseT: Option<Values>, k: nat, m: Values): Values
    requires AllReadable(items) && k <= |items|
  {
    if k == 0 then m else ItemGet(items, baseT, items[k - 1].packet, CollectionGet(items, baseT, k - 1, m)).0
  }

  function BaseValues(base: Option<seq<Item>>): Option<Values>
    requires base.Some? ==> AllReadable(base.value)
  {
    if base.None? then None else Some(CollectionGet(base.value, None, |base.value|, map[]))
  }

  /** All values of a collection whose base measurement, if any, was loaded as the packets `base`. */
  function AllValues(items: seq<Item>, base: Option<seq<Item>>): Values
    requires AllReadable(items) && (base.Some? ==> AllReadable(base.value))
  {
    CollectionGet(items, BaseValues(base), |items|, map[])
  }
}
