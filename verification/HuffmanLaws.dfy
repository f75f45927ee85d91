/**
 What the fixed Huffman code promises: decoding splits the bits into code words,
 it undoes encoding whatever the final bit alignment, and no shorter input decodes to the same bytes.
 */
module HuffmanLaws {
  import opened Wrappers
  import opened Bits
  import opened Huffman

  // ------------------------------------------------------------------ tokens

  type TableEntry = i: nat | i < ESCAPE witness 0

  /** One unit of a bit string: a code word of the table, or the escape code and a literal byte. */
  datatype Token = Coded(index: TableEntry) | Escaped(value: byte)

  function TokenBits(t: Token): bits {
    match t
    case Coded(index) => CodeWord(index)
    case Escaped(value) => CodeWord(ESCAPE) + ByteBits(value)
  }

  function TokenByte(t: Token): byte {
    match t
    case Coded(index) => SYMBOLS[index]
    case Escaped(value) => value
  }

  function Spelling(ts: seq<Token>): bits {
    if ts == [] then [] else TokenBits(ts[0]) + Spelling(ts[1..])
  }

  function Meaning(ts: seq<Token>): (s: seq<byte>)
    ensures |s| == |ts|
  {
    if ts == [] then [] else [TokenByte(ts[0])] + Meaning(ts[1..])
  }

  /** No token begins the bits `b`. */
  ghost predicate Incomplete(b: bits) {
    forall t :: !(TokenBits(t) <= b)
  }

  // ---------------------------------------------------------- walking the tree

  lemma {:induction false} DecodeShift(n: Tree, a: bits, b: bits, i: nat)
    requires n.Fork? && i <= |b|
    ensures DecodeFrom(n, a + b, |a| + i) == DecodeFrom(n, b, i)
    decreases |b| - i
  {
    if i < |b| {
      var next := Child(n, b[i]);
      if next.Fork? {
        DecodeShift(next, a, b, i + 1);
      } else if next.symbol == PREFIX {
        if |b| - i >= 9 {
          assert (a + b)[|a| + i + 1..|a| + i + 9] == b[i + 1..i + 9];
          DecodeShift(ROOT, a, b, i + 9);
        }
      } else {
        DecodeShift(ROOT, a, b, i + 1);
      }
    }
  }

  /** What decoding gives once a leaf has been reached. */
  function FromLeaf(symbol: byte, rest: bits): seq<byte> {
    if symbol != PREFIX then [symbol] + Decode(rest)
    else if |rest| < 8 then []
    else [ByteOf(rest[..8])] + Decode(rest[8..])
  }

  lemma {:induction false} WalkToLeaf(n: Tree, w: bits, i: nat, symbol: byte, rest: bits)
    requires n.Fork? && i <= |w| && Leads(n, w, i, symbol)
    ensures DecodeFrom(n, w + rest, i) == FromLeaf(symbol, rest)
    decreases |w| - i
  {
    var next := Child(n, w[i]);
    if next.Fork? {
      WalkToLeaf(next, w, i + 1, symbol, rest);
    } else if symbol != PREFIX {
      DecodeShift(ROOT, w, rest, 0);
    } else if |rest| >= 8 {
      assert (w + rest)[i + 1..i + 9] == rest[..8];
      assert w + rest == (w + rest[..8]) + rest[8..];
      DecodeShift(ROOT, w + rest[..8], rest[8..], 0);
    }
  }

  /** Decoding takes off one token at a time. */
  lemma DecodeToken(t: Token, rest: bits)
    ensures Decode(TokenBits(t) + rest) == [TokenByte(t)] + Decode(rest)
  {
    hide CodeWord, Leads, DecodeFrom, LowBits;
    match t
    case Coded(index) =>
      CodeWordLeadsToLeaf(index);
      WalkToLeaf(ROOT, CodeWord(index), 0, SYMBOLS[index], rest);
    case Escaped(value) =>
      CodeWordLeadsToLeaf(ESCAPE);
      var literal := ByteBits(value) + rest;
      assert TokenBits(t) + rest == CodeWord(ESCAPE) + literal;
      WalkToLeaf(ROOT, CodeWord(ESCAPE), 0, PREFIX, literal);
      assert literal[..8] == ByteBits(value) && literal[8..] == rest;
      ByteOfBits(value);
  }

  /** Walk down from `n` to the first leaf, if the bits last that long. */
  lemma {:induction false} Descend(n: Tree, b: bits, i: nat) returns (found: bool, end: nat, symbol: byte)
    requires n.Fork? && i <= |b|
    ensures found ==> i < end <= |b| && Leads(n, b[..end], i, symbol)
    ensures !found ==> DecodeFrom(n, b, i) == []
                       && forall e, s :: i <= e <= |b| ==> !Leads(n, b[..e], i, s)
    decreases |b| - i
  {
    if i == |b| {
      return false, 0, 0;
    }
    var next := Child(n, b[i]);
    if next.Leaf? {
      return true, i + 1, next.symbol;
    }
    found, end, symbol := Descend(next, b, i + 1);
    if !found {
      forall e, s | i <= e <= |b|
        ensures !Leads(n, b[..e], i, s)
      {
        if i < e {
          assert !Leads(next, b[..e], i + 1, s);
        }
      }
    }
  }

  lemma {:induction false} OneLeafPerPath(n: Tree, b: bits, i: nat, e: nat, s: byte, e': nat, s': byte)
    requires i <= e <= |b| && i <= e' <= |b|
    requires Leads(n, b[..e], i, s) && Leads(n, b[..e'], i, s')
    ensures e == e' && s == s'
    decreases e - i
  {
    if i < e && i < e' {
      OneLeafPerPath(Child(n, b[i]), b, i + 1, e, s, e', s');
    }
  }

  /** Either a token begins the bits, or they decode to nothing. */
  lemma FirstToken(b: bits) returns (first: Option<Token>)
    ensures first.Some? ==> TokenBits(first.value) <= b
    ensures first.None? ==> Incomplete(b) && Decode(b) == []
  {
    hide CodeWord, Leads, DecodeFrom, LowBits;
    var found, end, symbol := Descend(ROOT, b, 0);
    if found {
      TreeMatchesTables(b[..end], symbol);
      var index :| 0 <= index <= ESCAPE && SYMBOLS[index] == symbol && CodeWord(index) == b[..end];
      if index < ESCAPE {
        return Some(Coded(index));
      }
      if |b| - end >= 8 {
        BitsOfByteOf(b[end..end + 8]);
        return Some(Escaped(ByteOf(b[end..end + 8])));
      }
    }
    first := None;
    forall t
      ensures !(TokenBits(t) <= b)
    {
      if TokenBits(t) <= b {
        var index := if t.Coded? then t.index else ESCAPE;
        var e := |CodeWord(index)|;
        assert CodeWord(index) == b[..e];
        CodeWordLeadsToLeaf(index);
        if found {
          OneLeafPerPath(ROOT, b, 0, e, SYMBOLS[index], end, symbol);
        }
      }
    }
    if found {
      assert b[..end] + b[end..] == b;
      WalkToLeaf(ROOT, b[..end], 0, symbol, b[end..]);
    }
  }

  // ------------------------------------------------------ decoding is lexing

  lemma {:induction false} DecodeSpelling(ts: seq<Token>, rest: bits)
    ensures Decode(Spelling(ts) + rest) == Meaning(ts) + Decode(rest)
  {
    if ts == [] {
      assert [] + rest == rest;
    } else {
      assert Spelling(ts) + rest == TokenBits(ts[0]) + (Spelling(ts[1..]) + rest);
      DecodeToken(ts[0], Spelling(ts[1..]) + rest);
      DecodeSpelling(ts[1..], rest);
    }
  }

  lemma TokenIsNotEmpty(t: Token)
    ensures 0 < |TokenBits(t)|
  {
  }

  lemma {:induction false} Lex(b: bits) returns (ts: seq<Token>, rest: bits)
    ensures b == Spelling(ts) + rest && Incomplete(rest)
    ensures Decode(b) == Meaning(ts)
    decreases |b|
  {
    hide Decode, TokenBits, TokenByte;
    var first := FirstToken(b);
    if first.None? {
      ts, rest := [], b;
      assert b == Spelling(ts) + rest;
    } else {
      var t := first.value;
      TokenIsNotEmpty(t);
      var tail := b[|TokenBits(t)|..];
      assert b == TokenBits(t) + tail;
      ts, rest := Lex(tail);
      DecodeToken(t, tail);
      ts := [t] + ts;
    }
  }

  /**
   The decoder outputs `s` exactly when the bits are tokens that mean `s`,
   followed by bits that no token begins.
   */
  lemma DecodeIsLexing(b: bits, s: seq<byte>)
    ensures Decode(b) == s
            <==> exists ts, rest :: b == Spelling(ts) + rest && Incomplete(rest) && Meaning(ts) == s
  {
    hide Decode, Spelling, Meaning, TokenBits;
    if Decode(b) == s {
      var ts, rest := Lex(b);
    }
    if ts, rest :| b == Spelling(ts) + rest && Incomplete(rest) && Meaning(ts) == s {
      var first := FirstToken(rest);
      assert Decode(rest) == [];
      DecodeSpelling(ts, rest);
    }
  }

  // ---------------------------------------------------------------- encoding

  /** The token the encoder uses for a byte. */
  function TokenOf(symbol: byte): Token {
    if InTable(symbol) then Coded(TableIndex(symbol)) else Escaped(symbol)
  }

  lemma CodeIsToken(symbol: byte)
    ensures Code(symbol) == TokenBits(TokenOf(symbol)) && TokenByte(TokenOf(symbol)) == symbol
  {
  }

  lemma {:induction false} DecodeEncoded(s: seq<byte>, rest: bits)
    ensures Decode(Encoded(s) + rest) == s + Decode(rest)
  {
    hide Code, Decode, TokenBits, TokenByte, TokenOf;
    if s == [] {
      assert Encoded(s) + rest == rest;
    } else {
      var last := s[|s| - 1];
      assert Encoded(s) + rest == Encoded(s[..|s| - 1]) + (Code(last) + rest);
      DecodeEncoded(s[..|s| - 1], Code(last) + rest);
      CodeIsToken(last);
      DecodeToken(TokenOf(last), rest);
    }
  }

  lemma UnpackEncoded(s: seq<byte>)
    ensures Unpack(EncodedBytes(s)) == Encoded(s) + Padding(8 * |EncodedBytes(s)| - |Encoded(s)|)
    ensures |EncodedBytes(s)| == (|Encoded(s)| + 7) / 8
  {
    hide Encoded;
    var n := |Encoded(s)|;
    UnpackPack(Encoded(s) + Padding(8 * ((n + 7) / 8) - n));
  }

  lemma PaddingDecodesToNothing(n: nat)
    requires n < 8
    ensures Decode(Padding(n)) == []
  {
    var p := Padding(n);
    if n >= 1 {
      assert !p[0] && (n >= 2 ==> p[1]);
      assert DecodeFrom(N0, p, 1) == [];
    }
  }

  /** The decoder gives back every byte string, with nothing added at any bit alignment. */
  lemma RoundTrip(s: seq<byte>)
    ensures Decode(Unpack(EncodedBytes(s))) == s
  {
    hide Decode, Encoded, EncodedBytes, Pack, Unpack;
    UnpackEncoded(s);
    var n := 8 * |EncodedBytes(s)| - |Encoded(s)|;
    DecodeEncoded(s, Padding(n));
    PaddingDecodesToNothing(n);
  }

  lemma {:induction false} DecodedLength(n: Tree, b: bits, i: nat)
    requires n.Fork? && i <= |b|
    ensures |DecodeFrom(n, b, i)| <= |b| - i
    decreases |b| - i
  {
    if i < |b| {
      var next := Child(n, b[i]);
      if next.Fork? {
        DecodedLength(next, b, i + 1);
      } else if next.symbol == PREFIX {
        if |b| - i >= 9 {
          DecodedLength(ROOT, b, i + 9);
        }
      } else {
        DecodedLength(ROOT, b, i + 1);
      }
    }
  }

  /** Whatever fills the last byte, the message is a prefix of the result and at most seven bytes follow. */
  lemma AnyPadding(s: seq<byte>, pad: bits)
    requires |pad| < 8
    ensures s <= Decode(Encoded(s) + pad)
    ensures |Decode(Encoded(s) + pad)| <= |s| + 7
    ensures Decode(Encoded(s) + pad) == s <==> Incomplete(pad)
  {
    hide TokenBits, TokenByte, Encoded, DecodeFrom;
    DecodeEncoded(s, pad);
    DecodedLength(ROOT, pad, 0);
    var first := FirstToken(pad);
    if first.Some? {
      var t := first.value;
      assert pad == TokenBits(t) + pad[|TokenBits(t)|..];
      DecodeToken(t, pad[|TokenBits(t)|..]);
    }
  }

  /** Zero bytes are one bit long, so seven one bits of padding do add seven bytes. */
  lemma WorstPadding(s: seq<byte>)
    ensures Decode(Encoded(s) + [T, T, T, T, T, T, T]) == s + [0, 0, 0, 0, 0, 0, 0]
  {
    var pad := [T, T, T, T, T, T, T];
    DecodeEncoded(s, pad);
    assert DecodeFrom(ROOT, pad, 7) == [];
    assert DecodeFrom(ROOT, pad, 6) == [0];
    assert DecodeFrom(ROOT, pad, 5) == [0, 0];
    assert DecodeFrom(ROOT, pad, 4) == [0, 0, 0];
    assert DecodeFrom(ROOT, pad, 3) == [0, 0, 0, 0];
    assert DecodeFrom(ROOT, pad, 2) == [0, 0, 0, 0, 0];
    assert DecodeFrom(ROOT, pad, 1) == [0, 0, 0, 0, 0, 0];
  }

  /** The decoder is total and expands a byte to at most eight. */
  lemma DecodedSize(x: seq<byte>)
    ensures |Decode(Unpack(x))| <= 8 * |x|
  {
    DecodedLength(ROOT, Unpack(x), 0);
  }

  // -------------------------------------------------------------- minimality

  lemma CodeLength(symbol: byte)
    ensures |Code(symbol)| == if InTable(symbol) then CODE_LENGTHS[TableIndex(symbol)] else 10
    ensures 1 <= |Code(symbol)| <= 10
    ensures symbol == 0 ==> |Code(symbol)| == 1
  {
  }

  lemma ShortestToken(t: Token)
    ensures |Code(TokenByte(t))| <= |TokenBits(t)|
  {
    CodeLength(TokenByte(t));
  }

  lemma {:induction false} EncodedAppend(a: seq<byte>, b: seq<byte>)
    ensures Encoded(a + b) == Encoded(a) + Encoded(b)
  {
    hide Code;
    if b == [] {
      assert a + b == a;
    } else {
      assert (a + b)[..|a + b| - 1] == a + b[..|b| - 1];
      EncodedAppend(a, b[..|b| - 1]);
    }
  }

  lemma {:induction false} ShortestSpelling(ts: seq<Token>)
    ensures |Encoded(Meaning(ts))| <= |Spelling(ts)|
  {
    if ts != [] {
      ShortestToken(ts[0]);
      ShortestSpelling(ts[1..]);
      EncodedAppend([TokenByte(ts[0])], Meaning(ts[1..]));
      assert Encoded([TokenByte(ts[0])]) == Code(TokenByte(ts[0]));
    }
  }

  /** No byte string that decodes to `s` is shorter than the encoder's output for `s`. */
  lemma Minimal(x: seq<byte>, s: seq<byte>)
    requires Decode(Unpack(x)) == s
    ensures |EncodedBytes(s)| <= |x|
  {
    var ts, rest := Lex(Unpack(x));
    ShortestSpelling(ts);
    UnpackEncoded(s);
  }

  lemma {:induction false} EncodedSize(s: seq<byte>)
    ensures |s| <= |Encoded(s)| <= 10 * |s|
  {
    if s != [] {
      EncodedSize(s[..|s| - 1]);
      CodeLength(s[|s| - 1]);
    }
  }
}
