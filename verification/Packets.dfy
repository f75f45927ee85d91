/** Packet types, sizes and headers: logger-huffman.h and logger-huffman.c on a little-endian host. */
module Packets {
  import opened Bits
  import opened Temperature

  type uint16 = x: int | 0 <= x < 0x1_0000

  /** The bytes that one delta takes. */
  type Width = n: nat | n == 1 || n == 2 witness 1

  // ----------------------------------------------------------- types and sizes

  const RAW: byte := 0x00
  const UNKNOWN: byte := 0x01
  const PKT_1: byte := 0x4a
  const PKT_2: byte := 0x4b
  const DELTA_1: byte := 0x48
  const DELTA_2: byte := 0x49
  const HUFF_1: byte := 0x4c
  const HUFF_2: byte := 0x4d

  const FIRST_HDR := 8
  const SECOND_HDR := 4
  const MEASUREMENT_HDR := 16
  const HDR_DIFF := 10
  const TEMPERATURE_RAW := 4
  const MAX_PACKET := 24

  /** `extractLoggerPacketType` */
  function PacketType(buffer: seq<byte>): byte {
    if buffer == [] then UNKNOWN
    else if buffer[0] == 0 then RAW
    else if 0x48 <= buffer[0] <= 0x4d then buffer[0]
    else UNKNOWN
  }

  /** `getLoggerPacketTypeSize`: the bytes of the buffer that belong to a packet of the type. */
  function TypeSize(typ: byte, bufferSize: nat): nat {
    var r :=
      if typ == RAW then MEASUREMENT_HDR
      else if typ == PKT_1 then FIRST_HDR + MEASUREMENT_HDR
      else if typ == PKT_2 then SECOND_HDR + 5 * TEMPERATURE_RAW
      else if typ == DELTA_1 then FIRST_HDR + HDR_DIFF + 6
      else if typ == DELTA_2 then SECOND_HDR + 20
      else if typ == HUFF_1 || typ == HUFF_2 then bufferSize
      else 0;
    Least(r, bufferSize)
  }

  predicate IsFirst(typ: byte) {
    typ == PKT_1 || typ == DELTA_1 || typ == HUFF_1
  }

  predicate IsSecond(typ: byte) {
    typ == PKT_2 || typ == DELTA_2 || typ == HUFF_2
  }

  /** `extractFirstHdr` succeeds. */
  predicate HasFirstHeader(packet: seq<byte>) {
    IsFirst(PacketType(packet)) && |packet| >= FIRST_HDR
  }

  /** `extractSecondHdr` succeeds. */
  predicate HasSecondHeader(packet: seq<byte>) {
    IsSecond(PacketType(packet)) && |packet| >= SECOND_HDR
  }

  /** The type by which `get` handles a packet: raw and first plain packets need their measurement header. */
  function MeasuredType(packet: seq<byte>): byte {
    var typ := PacketType(packet);
    if typ == RAW && |packet| < MEASUREMENT_HDR then UNKNOWN
    else if typ == PKT_1 && |packet| < FIRST_HDR + MEASUREMENT_HDR then UNKNOWN
    else typ
  }

  // ------------------------------------------------------------------- fields

  function DataBits(first: seq<byte>): nat
    requires |first| >= FIRST_HDR
  {
    first[1] % 16
  }

  function PacketsField(first: seq<byte>): byte
    requires |first| >= FIRST_HDR
  {
    first[5]
  }

  function FirstKosa(first: seq<byte>): byte
    requires |first| >= FIRST_HDR
  {
    first[6]
  }

  function FirstYear(first: seq<byte>): byte
    requires |first| >= FIRST_HDR
  {
    first[7]
  }

  function SecondKosa(second: seq<byte>): byte
    requires |second| >= SECOND_HDR
  {
    second[1]
  }

  function PacketNumber(second: seq<byte>): byte
    requires |second| >= SECOND_HDR
  {
    second[3]
  }

  /** `bytesRequiredForBits` */
  function BytesForBits(bits: nat): Width
  {
    if bits > 8 then 2 else 1
  }

  /** `count * dataBytes`, for one or two bytes per sample. */
  function Times(count: nat, dataBytes: Width): nat
  {
    if dataBytes == 1 then count else 2 * count
  }

  /** `size / dataBytes`, for one or two bytes per sample. */
  function Over(size: nat, dataBytes: Width): nat
  {
    if dataBytes == 1 then size else size / 2
  }

  // --------------------------------------------------------- what is measured

  datatype Stamp = Stamp(seconds: byte, minutes: byte, hours: byte, day: byte, month: byte, year: byte)

  /** `LoggerMeasurements`, with the time split up and the voltages converted. */
  datatype Measurements = Measurements(
    stamp: Stamp, vcc: byte, vbat: byte, measure: uint16, kosa: byte, kosaYear: byte, temperature: seq<real>)

  predicate AllCastable(t: seq<real>) {
    forall i :: 0 <= i < |t| ==> Castable(t[i])
  }

  // ------------------------------------------------------------------ headers

  /** The sample count of the first delta packet. */
  function FirstCount(cnt: nat, dataBytes: Width): (c: nat)
    ensures c <= cnt
  {
    Least(Over(6, dataBytes), cnt)
  }

  /** The number of delta packets after the first. */
  function SecondPackets(cnt: nat, dataBytes: Width): nat
  {
    var rest := cnt - FirstCount(cnt, dataBytes);
    var full := Times(rest, dataBytes) / 20;
    if rest > Over(full * 20, dataBytes) then full + 1 else full
  }

  /** The `packets` field of the first header. */
  function PacketCount(n: nat, typ: byte, bits: nat): byte {
    if typ == PKT_1 || typ == HUFF_1 then
      if n % 5 != 0 then ((n / 5 + 1) % 256 + 1) % 256 else (n / 5 + 1) % 256
    else if typ == DELTA_1 then (SecondPackets(n, BytesForBits(bits)) + 1) % 256
    else 1
  }

  function FirstHeader(m: Measurements, typ: byte, bits: nat): (h: seq<byte>)
    requires bits < 16
    ensures |h| == FIRST_HDR
  {
    var size := |m.temperature| % 0x1_0000 * 8 % 0x1_0000;
    [typ, bits, size % 256, size / 256, m.measure % 256, PacketCount(|m.temperature|, typ, bits), m.kosa, m.kosaYear]
  }

  function SecondHeader(m: Measurements, typ: byte, number: byte): (h: seq<byte>)
    ensures |h| == SECOND_HDR
  {
    [typ, m.kosa, m.measure % 256, number]
  }

  function MeasureHeader(m: Measurements): (h: seq<byte>)
    ensures |h| == MEASUREMENT_HDR
  {
    [0, m.stamp.seconds, m.stamp.minutes, m.stamp.hours, m.stamp.day, m.stamp.month, m.stamp.year,
     m.kosa, m.kosaYear, 0, 0, m.vcc, m.vbat, 0, m.measure % 256, m.measure / 256]
  }

  function DiffHeader(m: Measurements): (h: seq<byte>)
    ensures |h| == HDR_DIFF
  {
    [m.measure % 256, m.measure / 256, 10, m.kosa, m.kosaYear, 0, 0, 0, 0, 0]
  }
}
