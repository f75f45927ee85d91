/** The encoding and decoding loops of util-compress.cpp. Output streams are the bytes put into them. */
module HuffmanCodec {
  import opened Wrappers
  import opened Bits
  import opened BitWriter
  import opened BitReaders
  import opened Huffman
  import opened HuffmanLaws

  // ---------------------------------------------------------------- encoding

  /** Push the code of one byte. */
  method PushSymbol(bf: BitBufferWriter, value: byte)
    requires bf.Valid()
    modifies bf
    ensures bf.Valid() && bf.Written() == old(bf.Written()) + Code(value)
  {
    hide LowBits, Unpack;
    var symbol := value;
    var taggedSymbol := 0;
    var symbolInTable := symbol <= 4 || symbol >= 0xfc;
    if symbolInTable {
      if symbol > 0xfb {
        symbol := 8 - (0xff - symbol);
      }
    } else {
      taggedSymbol := symbol;
      symbol := 9;
    }
    var symbolLength := CODE_LENGTHS[symbol];
    var symbolCode := CODES[symbol];
    bf.Push(symbolCode, symbolLength);
    if !symbolInTable {
      bf.Push(taggedSymbol, 8);
    }
  }

  lemma EncodedNothing()
    ensures Encoded([]) == []
  {
  }

  lemma EncodedSnoc(s: seq<byte>, symbol: byte)
    ensures Encoded(s + [symbol]) == Encoded(s) + Code(symbol)
  {
    assert (s + [symbol])[..|s + [symbol]| - 1] == s;
  }

  method Finish(bf: BitBufferWriter, ghost src: seq<byte>) returns (out: seq<byte>, bitSize: nat)
    requires bf.Valid() && bf.Written() == Encoded(src)
    modifies bf
    ensures out == EncodedBytes(src) && bitSize == |Encoded(src)|
  {
    hide Encoded, Unpack, Pack;
    bf.AppendPaddingBits();
    PackUnpack(bf.buffer);
    out := [];
    for i := 0 to |bf.buffer|
      invariant out == bf.buffer[..i]
    {
      out := out + [bf.buffer[i]];
    }
    bitSize := bf.BitSize();
  }

  method EncodeHuffman(src: seq<byte>) returns (out: seq<byte>, bitSize: nat)
    ensures out == EncodedBytes(src) && bitSize == |Encoded(src)|
  {
    hide Encoded, Unpack, Code, Pack, EncodedBytes, LowBits;
    var bf := new BitBufferWriter();
    EncodedNothing();
    for i := 0 to |src|
      invariant fresh(bf) && bf.Valid() && bf.Written() == Encoded(src[..i])
    {
      PushSymbol(bf, src[i]);
      EncodedSnoc(src[..i], src[i]);
      assert src[..i + 1] == src[..i] + [src[i]];
    }
    assert src[..|src|] == src;
    out, bitSize := Finish(bf, src);
  }

  /** The stream encoder tests for the end before it has read past it, so it encodes one 0xFF more. */
  method EncodeHuffmanStream(inStrm: IStream) returns (out: seq<byte>, bitSize: nat)
    requires inStrm.position == 0 && !inStrm.eof
    modifies inStrm
    ensures out == EncodedBytes(inStrm.data + [0xff]) && bitSize == |Encoded(inStrm.data + [0xff])|
    ensures Decode(Unpack(out)) == inStrm.data + [0xff]
  {
    hide Encoded, Unpack, Code, Pack, EncodedBytes, LowBits, Decode;
    var bf := new BitBufferWriter();
    ghost var done: seq<byte> := [];
    EncodedNothing();
    while !inStrm.eof
      invariant fresh(bf) && bf.Valid() && bf.Written() == Encoded(done)
      invariant inStrm.position <= |inStrm.data|
      invariant !inStrm.eof ==> done == inStrm.data[..inStrm.position]
      invariant inStrm.eof ==> done == inStrm.data + [0xff]
      decreases !inStrm.eof, |inStrm.data| - inStrm.position
    {
      var symbol := inStrm.Get();
      PushSymbol(bf, symbol);
      EncodedSnoc(done, symbol);
      done := done + [symbol];
    }
    out, bitSize := Finish(bf, done);
    RoundTrip(done);
  }

  /**
   The first two bytes stay as they are, the rest is encoded. With fewer than two bytes the size of
   the rest wraps around and the loop reads past the end of the source.
   */
  function Compressed(src: seq<byte>): Result<seq<byte>> {
    if |src| < 2 then Err(ReadPastEnd) else Ok(src[..2] + EncodedBytes(src[2..]))
  }

  method CompressLogger(src: seq<byte>) returns (r: Result<seq<byte>>)
    ensures r == Compressed(src)
  {
    var out: seq<byte> := [];
    if |src| > 0 {
      out := out + [src[0]];
    }
    if |src| > 1 {
      out := out + [src[1]];
    }
    if |src| < 2 {
      return Err(ReadPastEnd);
    }
    assert out == src[..2];
    var encoded, bitSize := EncodeHuffman(src[2..]);
    r := Ok(out + encoded);
  }

  // ---------------------------------------------------------------- decoding

  /** One bit of the walk, and the literal byte after the prefix. */
  lemma DecodeStep(n: Tree, b: bits, i: nat, out: seq<byte>)
    requires n.Fork? && i < |b|
    ensures var next := Child(n, b[i]);
            out + DecodeFrom(n, b, i)
            == if next.Fork? then out + DecodeFrom(next, b, i + 1)
               else if next.symbol != PREFIX then (out + [next.symbol]) + DecodeFrom(ROOT, b, i + 1)
               else if |b| - i < 9 then out
               else (out + [ByteOf(b[i + 1..i + 9])]) + DecodeFrom(ROOT, b, i + 9)
  {
  }

  lemma DecodeEnd(n: Tree, b: bits, out: seq<byte>)
    requires n.Fork?
    ensures out + DecodeFrom(n, b, |b|) == out
  {
  }

  method DecodeHuffman(src: seq<byte>) returns (out: seq<byte>, count: nat)
    ensures out == Decode(Unpack(src)) && count == |out|
  {
    hide Unpack, LowBits, Value, Pow2, DecodeFrom;
    var bf := new BitBufferReader(src, 8 * |src|);
    var n := ROOT;
    out := [];
    ghost var b := Unpack(src);
    while true
      invariant fresh(bf) && bf.Valid() && bf.buffer == src && bf.bitCount == |b|
      invariant n.Fork? && out + DecodeFrom(n, b, bf.bitPosition) == Decode(b)
      decreases |b| - bf.bitPosition
    {
      ghost var before, at, done := n, bf.bitPosition, out;
      var lr, hasBits := bf.Pop1();
      if !hasBits {
        DecodeEnd(n, b, out);
        break;
      }
      DecodeStep(before, b, at, done);
      if lr != 0 {
        n := n.right;
      } else {
        n := n.left;
      }
      if n.Leaf? {
        if n.symbol == 8 {
          var v;
          v, hasBits := bf.Pop(8);
          if !hasBits {
            break;
          }
          PowEight();
          out := out + [v];
        } else {
          out := out + [n.symbol];
        }
        n := ROOT;
      }
    }
    count := |out|;
  }

  /** The stream decoder has no length to compare with: it stops when a read has hit the end. */
  method DecodeHuffmanStream(inStrm: IStream) returns (out: seq<byte>, count: nat)
    requires inStrm.position == 0 && !inStrm.eof
    modifies inStrm
    ensures out == Decode(Unpack(StreamedBytes(inStrm.data))) && count == |out|
  {
    hide Unpack, LowBits, Value, Pow2, DecodeFrom;
    var bf := new BitStreamReader(inStrm);
    var n := ROOT;
    out := [];
    count := 0;
    ghost var b := Unpack(bf.Input());
    while true
      invariant fresh(bf) && bf.strm == inStrm && bf.ValidAt(bf.lastBitPosition)
      invariant n.Fork? && out + DecodeFrom(n, b, bf.lastBitPosition) == Decode(b)
      invariant count == |out|
      decreases |b| - bf.lastBitPosition
    {
      ghost var before, at, done := n, bf.lastBitPosition, out;
      var lr := bf.Pop1();
      if bf.reachEof {
        DecodeEnd(n, b, out);
        break;
      }
      DecodeStep(before, b, at, done);
      if lr != 0 {
        n := n.right;
      } else {
        n := n.left;
      }
      if n.Fork? {
        continue;
      }
      var v;
      if n.symbol == 8 {
        v := bf.Pop(8);
        if bf.reachEof {
          break;
        }
        PowEight();
      } else {
        v := n.symbol;
      }
      out := out + [v];
      count := count + 1;
      n := ROOT;
    }
  }

  lemma OnesDecodeToZeros()
    ensures Decode(Unpack([0xff])) == [0, 0, 0, 0, 0, 0, 0, 0]
  {
    hide Decode, Unpack, LowBits, Encoded, Pow2;
    UnpackOne(0xff);
    PowEight();
    forall i | 0 <= i < 8
      ensures ByteBits(0xff)[i]
    {
      LowBit(0xff, 8, i);
      BitOfMask(8, 7 - i);
    }
    assert ByteBits(0xff) == [T] + [T, T, T, T, T, T, T];
    CodeWords();
    EncodedNothing();
    EncodedSnoc([], 0);
    assert [] + [0] == [0] && Code(0) == [T];
    assert Encoded([0]) == [T];
    WorstPadding([0]);
  }

  /** Both decoders agree on every input but the empty one, which the stream decoder takes for one 0xFF. */
  lemma StreamDecoderAgrees(x: seq<byte>)
    ensures Decode(Unpack(StreamedBytes(x))) == Decode(Unpack(x)) <==> x != []
    ensures x == [] ==> Decode(Unpack(StreamedBytes(x))) == [0, 0, 0, 0, 0, 0, 0, 0]
  {
    if x == [] {
      OnesDecodeToZeros();
      DecodedSize(x);
    }
  }

  function Decompressed(src: seq<byte>): seq<byte> {
    if |src| < 2 then src else src[..2] + Decode(Unpack(src[2..]))
  }

  method DecompressLogger(src: seq<byte>) returns (out: seq<byte>)
    ensures out == Decompressed(src)
  {
    out := [];
    if |src| > 0 {
      out := out + [src[0]];
    }
    if |src| > 1 {
      out := out + [src[1]];
      var decoded, count := DecodeHuffman(src[2..]);
      out := out + decoded;
    }
  }

  /** Compression is defined exactly for two bytes or more, keeps the first two, and then decompression undoes it. */
  lemma CompressionRoundTrip(s: seq<byte>)
    ensures Compressed(s).Ok? <==> |s| >= 2
    ensures Compressed(s).Ok? ==> |Compressed(s).value| >= 2 && Compressed(s).value[..2] == s[..2]
    ensures Compressed(s).Ok? ==> Decompressed(Compressed(s).value) == s
    ensures |s| < 2 ==> Decompressed(s) == s
  {
    if |s| >= 2 {
      RoundTrip(s[2..]);
      var x := Compressed(s).value;
      assert x[2..] == EncodedBytes(s[2..]) && x[..2] == s[..2];
    }
  }
}
