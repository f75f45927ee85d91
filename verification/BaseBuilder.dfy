/** The base packets of `LoggerBuilder` and the loops that write packets. */
module BaseBuilder {
  import opened Bits
  import opened Temperature
  import opened Packets

  // ------------------------------------------------------------- base packets

  /** The value of one sensor in a base packet: sensor number, temperature, unused byte. */
  function Record(m: Measurements, k: nat): (r: seq<byte>)
    requires k < |m.temperature|
    ensures |r| == TEMPERATURE_RAW
  {
    var t := StoreInt16(Hton2(Quantised(m.temperature[k])));
    [k % 256, t[0], t[1], 0]
  }

  /** How many of the elements `from`, ..., `from + max - 1` there are among `n`. */
  function Span(n: nat, from: nat, max: nat): (c: nat)
    ensures c <= max && (c > 0 ==> from + c <= n)
  {
    if from >= n then 0 else Least(max, n - from)
  }

  function Records(m: Measurements, from: nat, count: nat): (r: seq<byte>)
    requires count > 0 ==> from + count <= |m.temperature|
    ensures |r| == count * TEMPERATURE_RAW
  {
    if count == 0 then [] else Records(m, from, count - 1) + Record(m, from + count - 1)
  }

  function BasePacket(m: Measurements, i: nat): seq<byte>
    requires 1 <= i
  {
    SecondHeader(m, PKT_2, (i + 1) % 256) + Records(m, 5 * (i - 1), Span(|m.temperature|, 5 * (i - 1), 5))
  }

  function BaseRest(m: Measurements, count: nat): seq<seq<byte>> {
    if count <= 1 then [] else BaseRest(m, count - 1) + [BasePacket(m, count - 1)]
  }

  function BasePackets(m: Measurements): seq<seq<byte>> {
    [FirstHeader(m, PKT_1, 0) + MeasureHeader(m)] + BaseRest(m, PacketCount(|m.temperature|, PKT_1, 0))
  }

  /** Overwrite the bytes of a packed structure that lies at `at` in the buffer. */
  method WriteStruct(buffer: array<byte>, at: nat, data: seq<byte>)
    requires at + |data| <= buffer.Length
    modifies buffer
    ensures buffer[..] == old(buffer[..at]) + data + old(buffer[at + |data|..])
  {
    for k := 0 to |data|
      invariant buffer[..] == old(buffer[..at]) + data[..k] + old(buffer[at + k..])
    {
      buffer[at + k] := data[k];
    }
  }

  method SetFirstHeader(buffer: array<byte>, m: Measurements, typ: byte, bits: nat)
    requires buffer.Length >= FIRST_HDR && bits < 16
    modifies buffer
    ensures buffer[..] == FirstHeader(m, typ, bits) + old(buffer[FIRST_HDR..])
  {
    var n := |m.temperature|;
    var packets: byte;
    if typ == PKT_1 || typ == HUFF_1 {
      packets := (n / 5 + 1) % 256;
      if n % 5 != 0 {
        packets := (packets + 1) % 256;
      }
    } else if typ == DELTA_1 {
      var dataBytes := BytesForBits(bits);
      var measurementsInFirstPacket := Over(6, dataBytes);
      if measurementsInFirstPacket > n {
        measurementsInFirstPacket := n;
      }
      var measurementsInSecondPackets := n - measurementsInFirstPacket;
      var secondPackets := Times(measurementsInSecondPackets, dataBytes) / 20;
      if measurementsInSecondPackets > Over(secondPackets * 20, dataBytes) {
        secondPackets := secondPackets + 1;
      }
      packets := (secondPackets + 1) % 256;
    } else {
      packets := 1;
    }
    var size := n % 0x1_0000 * 8 % 0x1_0000;
    WriteStruct(buffer, 0, [typ, bits, size % 256, size / 256, m.measure % 256, packets, m.kosa, m.kosaYear]);
  }

  method SetSecondHeader(buffer: array<byte>, m: Measurements, typ: byte, number: byte)
    requires buffer.Length >= SECOND_HDR
    modifies buffer
    ensures buffer[..] == SecondHeader(m, typ, number) + old(buffer[SECOND_HDR..])
  {
    WriteStruct(buffer, 0, [typ, m.kosa, m.measure % 256, number]);
  }

  predicate AllZero(s: seq<byte>) {
    forall i :: 0 <= i < |s| ==> s[i] == 0
  }

  /** The unused byte of a record keeps the zero that the buffer has. */
  method SetRecord(buffer: array<byte>, at: nat, m: Measurements, ofs: nat)
    requires at + TEMPERATURE_RAW <= buffer.Length && buffer[at + 3] == 0
    requires ofs < |m.temperature| && AllCastable(m.temperature)
    modifies buffer
    ensures buffer[..at + TEMPERATURE_RAW] == old(buffer[..at]) + Record(m, ofs)
    ensures buffer[at + TEMPERATURE_RAW..] == old(buffer[at + TEMPERATURE_RAW..])
  {
    hide Quantised, Hton2;
    var t := DoubleToTemperature(m.temperature[ofs]);
    buffer[at] := ofs % 256;
    buffer[at + 1] := StoreInt16(t)[0];
    buffer[at + 2] := StoreInt16(t)[1];
    assert buffer[..at + 4] == buffer[..at] + [buffer[at], buffer[at + 1], buffer[at + 2], buffer[at + 3]];
  }

  /** Write up to five sensor records. */
  method SetMeasurementsData(buffer: array<byte>, at: nat, m: Measurements, packetIndex: nat) returns (size: nat)
    requires at + 5 * TEMPERATURE_RAW <= buffer.Length && AllZero(buffer[at..]) && AllCastable(m.temperature)
    modifies buffer
    ensures var data := Records(m, 5 * packetIndex, Span(|m.temperature|, 5 * packetIndex, 5));
            && size == |data| && at + size <= buffer.Length
            && buffer[..at + size] == old(buffer[..at]) + data
  {
    hide Record, Quantised, Hton2;
    var ofs := packetIndex * 5;
    var sz := |m.temperature|;
    var c := 0;
    ghost var start := buffer[..at];
    while c < 5
      invariant 0 <= c <= 5 && ofs == 5 * packetIndex + c && (c > 0 ==> ofs <= sz)
      invariant AllZero(buffer[at + 4 * c..])
      invariant buffer[..at + 4 * c] == start + Records(m, 5 * packetIndex, c)
    {
      if ofs >= sz {
        break;
      }
      ghost var tail := buffer[at + 4 * c..];
      assert tail[3] == 0;
      SetRecord(buffer, at + 4 * c, m, ofs);
      assert buffer[at + 4 * (c + 1)..] == tail[4..];
      c := c + 1;
      ofs := ofs + 1;
    }
    size := c * 4;
  }

  lemma PacketsFieldOfHeader(m: Measurements, typ: byte, bits: nat)
    requires bits < 16
    ensures PacketsField(FirstHeader(m, typ, bits)) == PacketCount(|m.temperature|, typ, bits)
  {
  }

  method BuildBaseRest(m: Measurements, i: nat) returns (packet: seq<byte>)
    requires AllCastable(m.temperature) && 1 <= i
    ensures packet == BasePacket(m, i)
  {
    hide SecondHeader, Records;
    var second := new byte[24](_ => 0);
    SetSecondHeader(second, m, PKT_2, (i + 1) % 256);
    var sz := SetMeasurementsData(second, SECOND_HDR, m, i - 1);
    packet := second[..];
    if sz < 24 - SECOND_HDR {
      packet := packet[..sz + SECOND_HDR];
    }
    assert packet == second[..SECOND_HDR + sz];
  }

  method BuildBase(m: Measurements) returns (packets: seq<seq<byte>>)
    requires AllCastable(m.temperature)
    ensures packets == BasePackets(m)
  {
    hide FirstHeader, MeasureHeader, SecondHeader, Records;
    var first := new byte[24](_ => 0);
    SetFirstHeader(first, m, PKT_1, 0);
    WriteStruct(first, FIRST_HDR, MeasureHeader(m));
    assert first[..] == FirstHeader(m, PKT_1, 0) + MeasureHeader(m);
    packets := [first[..]];
    var count := first[5];
    assert count == PacketCount(|m.temperature|, PKT_1, 0) by { PacketsFieldOfHeader(m, PKT_1, 0); }
    var i := 1;
    while i < count
      invariant 1 <= i && (i == 1 || i <= count)
      invariant packets == [FirstHeader(m, PKT_1, 0) + MeasureHeader(m)] + BaseRest(m, i)
    {
      var packet := BuildBaseRest(m, i);
      packets := packets + [packet];
      i := i + 1;
    }
  }
}
