/** `getHuffmanPacketMeasurementOffset` adds up the sizes of the packets with smaller numbers. */
module HuffmanOffsets {
  import opened Wrappers
  import opened Bits
  import opened HuffmanCodec
  import opened Readings

  /** The packet numbers that count for packets up to `last`. */
  function Numbers(items: seq<Item>, last: int): set<byte> {
    if items == [] then {}
    else
      var number := CountedNumber(items[0].packet, last);
      Numbers(items[1..], last) + (if number.Some? then {number.value} else {})
  }

  /** The sum of the sizes of the numbers in `s` below `n`. */
  function SumBelow(s: set<byte>, size: byte -> int, n: nat): int
    requires n <= 256
  {
    if n == 0 then 0 else SumBelow(s, size, n - 1) + (if n - 1 in s then size(n - 1) else 0)
  }

  /** Huffman packets count: the first as number 1, a later one as its number if that is not too large. */
  lemma WhatCounts(p: seq<byte>, last: int)
    requires Readable(p)
    ensures p != [] && p[0] == 0x4c ==>
              CountedNumber(p, last) == Some(1) && SampleSize(p) == |Decompressed(p[8..])| - 10
    ensures p != [] && p[0] == 0x4d ==>
              && CountedNumber(p, last) == (if p[3] <= last then Some(p[3]) else None)
              && SampleSize(p) == |Decompressed(p[4..])|
    ensures p == [] || (p[0] != 0x4c && p[0] != 0x4d) ==> CountedNumber(p, last) == None
  {
    hide Decompressed;
  }

  /** Packets with the same number have the same size. */
  ghost predicate Consistent(items: seq<Item>, last: int, size: byte -> int)
    requires AllReadable(items)
  {
    forall i :: 0 <= i < |items| && CountedNumber(items[i].packet, last).Some?
                ==> SampleSize(items[i].packet) == size(CountedNumber(items[i].packet, last).value)
  }

  lemma {:induction false} SumWithout(s: set<byte>, x: byte, size: byte -> int, n: nat)
    requires x in s && n <= 256
    ensures SumBelow(s, size, n) == SumBelow(s - {x}, size, n) + (if x < n then size(x) else 0)
  {
    if n > 0 {
      SumWithout(s, x, size, n - 1);
    }
  }

  lemma {:induction false} SumOfNone(size: byte -> int, n: nat)
    requires n <= 256
    ensures SumBelow({}, size, n) == 0
  {
    if n > 0 {
      SumOfNone(size, n - 1);
    }
  }

  /** The size of the packet with the number `x` that arrived first. */
  function FirstSize(items: seq<Item>, last: int, x: byte): int
    requires AllReadable(items)
  {
    if items == [] then 0
    else if CountedNumber(items[0].packet, last) == Some(x) then SampleSize(items[0].packet)
    else FirstSize(items[1..], last, x)
  }

  function FirstSizes(items: seq<Item>, last: int): byte -> int
    requires AllReadable(items)
  {
    (x: byte) => FirstSize(items, last, x)
  }

  lemma {:induction false} SameSums(s: set<byte>, f: byte -> int, g: byte -> int, n: nat)
    requires n <= 256 && forall x :: x in s ==> f(x) == g(x)
    ensures SumBelow(s, f, n) == SumBelow(s, g, n)
  {
    if n > 0 {
      SameSums(s, f, g, n - 1);
    }
  }

  lemma {:induction false} LoopIsSum(items: seq<Item>, last: int, seen: set<byte>, r: int)
    requires AllReadable(items)
    ensures OffsetLoop(items, last, seen, r)
            == r + SumBelow(Numbers(items, last) - seen, FirstSizes(items, last), 256)
  {
    hide CountedNumber, SampleSize;
    var sizes := FirstSizes(items, last);
    var all := Numbers(items, last) - seen;
    if items == [] {
      SumOfNone(sizes, 256);
      assert all == {};
    } else {
      var number := CountedNumber(items[0].packet, last);
      var rest := items[1..];
      if number.Some? && number.value !in seen {
        LoopIsSum(rest, last, seen + {number.value}, r + SampleSize(items[0].packet));
        SumWithout(all, number.value, sizes, 256);
        assert all - {number.value} == Numbers(rest, last) - (seen + {number.value});
        SameSums(all - {number.value}, sizes, FirstSizes(rest, last), 256);
      } else {
        LoopIsSum(rest, last, seen, r);
        assert all == Numbers(rest, last) - seen;
        SameSums(all, sizes, FirstSizes(rest, last), 256);
      }
    }
  }

  /**
   In any collection the offset is the sum, over the distinct packet numbers below the packet's own, of the size of the
   packet with that number that arrived first; for packet numbers below 2 it is 0.
   */
  lemma OffsetIsSum(items: seq<Item>, packetNum: int)
    requires AllReadable(items)
    ensures packetNum < 2 ==> HuffmanOffset(items, packetNum) == 0
    ensures packetNum >= 2 ==>
              HuffmanOffset(items, packetNum)
              == SumBelow(Numbers(items, packetNum - 1), FirstSizes(items, packetNum - 1), 256)
  {
    LoopIsSum(items, packetNum - 1, {}, 0);
    assert Numbers(items, packetNum - 1) - {} == Numbers(items, packetNum - 1);
  }

  lemma {:induction false} FirstIsConsistent(items: seq<Item>, last: int, size: byte -> int, x: byte)
    requires AllReadable(items) && Consistent(items, last, size) && x in Numbers(items, last)
    ensures FirstSize(items, last, x) == size(x)
  {
    hide CountedNumber, SampleSize;
    if CountedNumber(items[0].packet, last) != Some(x) {
      assert forall i :: 0 <= i < |items[1..]| ==> items[1..][i] == items[i + 1];
      FirstIsConsistent(items[1..], last, size, x);
    }
  }

  /** When packets with the same number have the same size, that is the size that counts. */
  lemma OffsetWhenConsistent(items: seq<Item>, packetNum: int, size: byte -> int)
    requires AllReadable(items) && packetNum >= 2 && Consistent(items, packetNum - 1, size)
    ensures HuffmanOffset(items, packetNum) == SumBelow(Numbers(items, packetNum - 1), size, 256)
  {
    OffsetIsSum(items, packetNum);
    forall x | x in Numbers(items, packetNum - 1)
      ensures FirstSizes(items, packetNum - 1)(x) == size(x)
    {
      FirstIsConsistent(items, packetNum - 1, size, x);
    }
    SameSums(Numbers(items, packetNum - 1), FirstSizes(items, packetNum - 1), size, 256);
  }

  lemma {:induction false} InNumbers(items: seq<Item>, last: int, x: byte)
    ensures x in Numbers(items, last)
            <==> exists i :: 0 <= i < |items| && CountedNumber(items[i].packet, last) == Some(x)
  {
    hide CountedNumber;
    if items != [] {
      InNumbers(items[1..], last, x);
      if x in Numbers(items[1..], last) {
        var i :| 0 <= i < |items[1..]| && CountedNumber(items[1..][i].packet, last) == Some(x);
        assert items[i + 1] == items[1..][i];
      }
      if i :| 0 <= i < |items| && CountedNumber(items[i].packet, last) == Some(x) {
        assert i > 0 ==> items[1..][i - 1] == items[i];
      }
    }
  }

  /** Every packet among the items is also among the others. */
  ghost predicate Within(items: seq<Item>, others: seq<Item>) {
    forall i :: 0 <= i < |items| ==> exists j :: 0 <= j < |others| && others[j].packet == items[i].packet
  }

  lemma SameNumber(items: seq<Item>, others: seq<Item>, last: int, x: byte)
    requires Within(items, others)
    ensures x in Numbers(items, last) ==> x in Numbers(others, last)
  {
    hide CountedNumber, Numbers;
    InNumbers(items, last, x);
    InNumbers(others, last, x);
    if x in Numbers(items, last) {
      var i :| 0 <= i < |items| && CountedNumber(items[i].packet, last) == Some(x);
      var j :| 0 <= j < |others| && others[j].packet == items[i].packet;
    }
  }

  /** The order in which packets arrive and repeated packets do not change the offset. */
  lemma OffsetIgnoresOrder(items: seq<Item>, others: seq<Item>, packetNum: int, size: byte -> int)
    requires AllReadable(items) && AllReadable(others)
    requires Within(items, others) && Within(others, items)
    requires Consistent(items, packetNum - 1, size)
    ensures HuffmanOffset(items, packetNum) == HuffmanOffset(others, packetNum)
  {
    hide CountedNumber, SampleSize, OffsetLoop, Numbers;
    var last := packetNum - 1;
    if last >= 1 {
      forall i | 0 <= i < |others| && CountedNumber(others[i].packet, last).Some?
        ensures SampleSize(others[i].packet) == size(CountedNumber(others[i].packet, last).value)
      {
        var j :| 0 <= j < |items| && items[j].packet == others[i].packet;
      }
      OffsetWhenConsistent(items, packetNum, size);
      OffsetWhenConsistent(others, packetNum, size);
      forall x
        ensures x in Numbers(items, last) <==> x in Numbers(others, last)
      {
        SameNumber(items, others, last, x);
        SameNumber(others, items, last, x);
      }
      assert Numbers(items, last) == Numbers(others, last);
    }
  }
}
