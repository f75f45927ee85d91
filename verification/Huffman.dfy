/**
 The fixed Huffman code of util-compress.cpp: the encoder's tables, the decoder's tree,
 and what decoding means for an arbitrary string of bits.
 */
module Huffman {
  import opened Bits

  // ------------------------------------------------------ the encoder's tables

  const CODE_LENGTHS: seq<nat> := [1, 4, 5, 6, 7, 7, 5, 5, 4, 2]
  const CODES: seq<byte> := [1, 2, 1, 1, 0, 1, 2, 3, 3, 1]
  const ESCAPE := 9

  predicate InTable(symbol: byte) {
    symbol <= 4 || symbol >= 0xfc
  }

  function TableIndex(symbol: byte): (index: nat)
    ensures index <= ESCAPE
    ensures index == ESCAPE <==> !InTable(symbol)
  {
    if !InTable(symbol) then ESCAPE
    else if symbol > 0xfb then 8 - (0xff - symbol)
    else symbol
  }

  function CodeWord(index: nat): bits
    requires index <= ESCAPE
  {
    LowBits(CODES[index], CODE_LENGTHS[index])
  }

  /** What the encoder pushes for one byte. */
  function Code(symbol: byte): bits {
    CodeWord(TableIndex(symbol)) + (if InTable(symbol) then [] else ByteBits(symbol))
  }

  function Encoded(s: seq<byte>): bits {
    if s == [] then [] else Encoded(s[..|s| - 1]) + Code(s[|s| - 1])
  }

  /** The encoder's output: the codes, and padding up to a whole byte. */
  function EncodedBytes(s: seq<byte>): seq<byte> {
    var b := Encoded(s);
    Pack(b + Padding(8 * ((|b| + 7) / 8) - |b|))
  }

  // -------------------------------------------------------- the decoder's tree

  /** The symbol of the leaf that announces a literal byte. */
  const PREFIX: byte := 8

  datatype Tree = Leaf(symbol: byte) | Fork(left: Tree, right: Tree)

  const N000000 := Fork(Leaf(4), Leaf(0xfc))
  const N00000 := Fork(N000000, Leaf(3))
  const N0000 := Fork(N00000, Leaf(2))
  const N0001 := Fork(Leaf(0xfd), Leaf(0xfe))
  const N000 := Fork(N0000, N0001)
  const N001 := Fork(Leaf(1), Leaf(0xff))
  const N00 := Fork(N000, N001)
  const N0 := Fork(N00, Leaf(PREFIX))
  const ROOT := Fork(N0, Leaf(0))

  function Child(n: Tree, bit: bool): Tree
    requires n.Fork?
  {
    if bit then n.right else n.left
  }

  /** The bytes decoded from the bits `b[i..]` when the walk stands at the inner node `n`. */
  function DecodeFrom(n: Tree, b: bits, i: nat): seq<byte>
    requires n.Fork? && i <= |b|
    decreases |b| - i
  {
    if i == |b| then []
    else
      var next := Child(n, b[i]);
      if next.Fork? then DecodeFrom(next, b, i + 1)
      else if next.symbol == PREFIX then
        if |b| - i < 9 then [] else [ByteOf(b[i + 1..i + 9])] + DecodeFrom(ROOT, b, i + 9)
      else [next.symbol] + DecodeFrom(ROOT, b, i + 1)
  }

  function Decode(b: bits): seq<byte> {
    DecodeFrom(ROOT, b, 0)
  }

  // ------------------------------------------------- tables and tree agree

  const SYMBOLS: seq<byte> := [0, 1, 2, 3, 4, 0xfc, 0xfd, 0xfe, 0xff, PREFIX]

  /** From the node `n` the bits `w[i..]` lead to the leaf of `symbol`. */
  predicate Leads(n: Tree, w: bits, i: nat, symbol: byte)
    requires i <= |w|
    decreases |w| - i
  {
    if i == |w| then n == Leaf(symbol) else n.Fork? && Leads(Child(n, w[i]), w, i + 1, symbol)
  }

  function Symbols(n: Tree): set<byte> {
    match n
    case Leaf(symbol) => {symbol}
    case Fork(left, right) => Symbols(left) + Symbols(right)
  }

  /** No symbol is at two leaves. */
  predicate Distinct(n: Tree) {
    n.Fork? ==> Symbols(n.left) !! Symbols(n.right) && Distinct(n.left) && Distinct(n.right)
  }

  lemma RootIsDistinct()
    ensures Distinct(ROOT)
    ensures Symbols(ROOT) == set k | k in SYMBOLS
  {
    assert Symbols(N000000) == {4, 0xfc} && Distinct(N000000);
    assert Symbols(N00000) == {4, 0xfc, 3} && Distinct(N00000);
    assert Symbols(N0000) == {4, 0xfc, 3, 2} && Distinct(N0000);
    assert Symbols(N0001) == {0xfd, 0xfe} && Distinct(N0001);
    assert Symbols(N000) == {4, 0xfc, 3, 2, 0xfd, 0xfe} && Distinct(N000);
    assert Symbols(N001) == {1, 0xff} && Distinct(N001);
    assert Symbols(N00) == {4, 0xfc, 3, 2, 0xfd, 0xfe, 1, 0xff} && Distinct(N00);
    assert Symbols(N0) == {4, 0xfc, 3, 2, 0xfd, 0xfe, 1, 0xff, PREFIX} && Distinct(N0);
  }

  lemma {:induction false} LeadsToSymbol(n: Tree, w: bits, i: nat, symbol: byte)
    requires i <= |w| && Leads(n, w, i, symbol)
    ensures symbol in Symbols(n)
    decreases |w| - i
  {
    if i < |w| {
      LeadsToSymbol(Child(n, w[i]), w, i + 1, symbol);
    }
  }

  lemma {:induction false} OnePathPerSymbol(n: Tree, v: bits, w: bits, i: nat, symbol: byte)
    requires i <= |v| && i <= |w| && Distinct(n)
    requires Leads(n, v, i, symbol) && Leads(n, w, i, symbol)
    ensures v[i..] == w[i..]
    decreases |w| - i
  {
    if i < |v| && i < |w| {
      LeadsToSymbol(Child(n, v[i]), v, i + 1, symbol);
      LeadsToSymbol(Child(n, w[i]), w, i + 1, symbol);
      OnePathPerSymbol(Child(n, v[i]), v, w, i + 1, symbol);
      assert v[i..] == [v[i]] + v[i + 1..] && w[i..] == [w[i]] + w[i + 1..];
    }
  }

  const F := false
  const T := true

  lemma CodeWords()
    ensures CodeWord(0) == [T]
    ensures CodeWord(1) == [F, F, T, F]
    ensures CodeWord(2) == [F, F, F, F, T]
    ensures CodeWord(3) == [F, F, F, F, F, T]
    ensures CodeWord(4) == [F, F, F, F, F, F, F]
    ensures CodeWord(5) == [F, F, F, F, F, F, T]
    ensures CodeWord(6) == [F, F, F, T, F]
    ensures CodeWord(7) == [F, F, F, T, T]
    ensures CodeWord(8) == [F, F, T, T]
    ensures CodeWord(ESCAPE) == [F, T]
  {
    assert LowBits(0, 2) == [F, F];
    assert LowBits(0, 4) == [F, F, F, F];
    assert LowBits(0, 6) == [F, F, F, F, F, F];
  }

  /** The code of each byte: nine bytes around 0 have one of their own, all others are written out after a prefix. */
  lemma CodeTable(x: byte)
    ensures x == 0 ==> Code(x) == [T]
    ensures x == 1 ==> Code(x) == [F, F, T, F]
    ensures x == 2 ==> Code(x) == [F, F, F, F, T]
    ensures x == 3 ==> Code(x) == [F, F, F, F, F, T]
    ensures x == 4 ==> Code(x) == [F, F, F, F, F, F, F]
    ensures x == 0xfc ==> Code(x) == [F, F, F, F, F, F, T]
    ensures x == 0xfd ==> Code(x) == [F, F, F, T, F]
    ensures x == 0xfe ==> Code(x) == [F, F, F, T, T]
    ensures x == 0xff ==> Code(x) == [F, F, T, T]
    ensures 4 < x < 0xfc ==> |Code(x)| == 10 && Code(x)[..2] == [F, T] && Value(Code(x)[2..]) == x
  {
    hide CodeWord, LowBits, Value;
    CodeWords();
    if 4 < x < 0xfc {
      assert Code(x) == [F, T] + ByteBits(x) && Code(x)[2..] == ByteBits(x);
      ByteOfBits(x);
    }
  }

  /** The code word of each table entry leads to the leaf of its symbol. */
  lemma CodeWordLeadsToLeaf(index: nat)
    requires index <= ESCAPE
    ensures Leads(ROOT, CodeWord(index), 0, SYMBOLS[index])
  {
    CodeWords();
    var w, s := CodeWord(index), SYMBOLS[index];
    hide LowBits;
    if index == 0 {
      assert Leads(Leaf(0), w, 1, s);
    } else if index == ESCAPE {
      assert Leads(N0, w, 1, s);
    } else {
      assert index == 4 || index == 5 ==> Leads(N000000, w, 6, s);
      assert 3 <= index <= 5 ==> Leads(N00000, w, 5, s);
      assert 2 <= index <= 5 ==> Leads(N0000, w, 4, s);
      assert index == 6 || index == 7 ==> Leads(N0001, w, 4, s);
      assert 2 <= index <= 7 ==> Leads(N000, w, 3, s);
      assert index == 1 || index == 8 ==> Leads(N001, w, 3, s);
      assert Leads(N00, w, 2, s);
      assert Leads(N0, w, 1, s);
    }
  }

  /** A path through the tree ends at a leaf exactly when it is the code word of the leaf's symbol. */
  lemma TreeMatchesTables(w: bits, symbol: byte)
    ensures Leads(ROOT, w, 0, symbol)
            <==> exists index :: 0 <= index <= ESCAPE && SYMBOLS[index] == symbol && CodeWord(index) == w
  {
    hide CodeWord, Leads;
    forall index | 0 <= index <= ESCAPE
      ensures Leads(ROOT, CodeWord(index), 0, SYMBOLS[index])
    {
      CodeWordLeadsToLeaf(index);
    }
    if Leads(ROOT, w, 0, symbol) {
      RootIsDistinct();
      LeadsToSymbol(ROOT, w, 0, symbol);
      var index :| 0 <= index <= ESCAPE && SYMBOLS[index] == symbol;
      OnePathPerSymbol(ROOT, CodeWord(index), w, 0, symbol);
      assert CodeWord(index)[0..] == CodeWord(index) && w[0..] == w;
    }
  }
}
