/** Packets as a list of hexadecimal words: `rawCommaString` writes it, `loggerParseSQLBaseMeasurement` reads it. */
module HexList {
  import opened Bits

  // ------------------------------------------------------------------ reading

  /** At most a space, or negative as a signed `char`. */
  predicate Blank(c: char) {
    c as int <= 32 || c as int >= 128
  }

  function Digit(c: char): int {
    if '0' <= c <= '9' then c as int - '0' as int
    else if 'a' <= c <= 'f' then c as int - 'a' as int + 10
    else if 'A' <= c <= 'F' then c as int - 'A' as int + 10
    else -1
  }

  /** `strtol` in base 16 on two characters that are not blank, converted to `unsigned char`. */
  function Strtol(a: char, b: char): byte {
    if a == '+' || a == '-' then
      if Digit(b) < 0 then 0 else if a == '+' then Digit(b) else (256 - Digit(b)) % 256
    else if Digit(a) < 0 then 0
    else if Digit(b) < 0 then Digit(a)
    else 16 * Digit(a) + Digit(b)
  }

  /** The length of the word at the beginning. */
  function WordEnd(s: string): (n: nat)
    ensures n <= |s| && (forall i :: 0 <= i < n ==> !Blank(s[i])) && (n < |s| ==> Blank(s[n]))
  {
    if s == "" || Blank(s[0]) then 0 else 1 + WordEnd(s[1..])
  }

  /** The words between blanks. */
  function Words(s: string): seq<string>
    decreases |s|
  {
    if s == "" then []
    else if Blank(s[0]) then Words(s[1..])
    else [s[..WordEnd(s)]] + Words(s[WordEnd(s)..])
  }

  /** Two characters for each byte; an odd one at the end is ignored. */
  function DecodeWord(w: string): seq<byte> {
    if |w| < 2 then [] else [Strtol(w[0], w[1])] + DecodeWord(w[2..])
  }

  /** What the words stand for, without the empty ones. */
  function DecodeWords(ws: seq<string>): seq<seq<byte>> {
    if ws == [] then []
    else (if DecodeWord(ws[0]) == [] then [] else [DecodeWord(ws[0])]) + DecodeWords(ws[1..])
  }

  function Parsed(s: string): seq<seq<byte>> {
    DecodeWords(Words(s))
  }

  /** A word of which `r` is decoded and the rest begins `s`, and the words after it. */
  function Open(r: seq<byte>, s: string): seq<seq<byte>> {
    [r + DecodeWord(s[..WordEnd(s)])] + Parsed(s[WordEnd(s)..])
  }

  lemma DecodeFirst(w: string, ws: seq<string>)
    ensures DecodeWords([w] + ws) == (if DecodeWord(w) == [] then [] else [DecodeWord(w)]) + DecodeWords(ws)
  {
    hide DecodeWord;
    assert ([w] + ws)[1..] == ws;
  }

  lemma NoMoreWords()
    ensures Words("") == [] && Parsed("") == [] && DecodeWord("") == []
  {
  }

  lemma StartsBlank(r: seq<byte>, s: string)
    requires s != "" && Blank(s[0])
    ensures Parsed(s) == Parsed(s[1..]) && Open(r, s) == [r] + Parsed(s)
  {
    assert WordEnd(s) == 0 && s[..0] == "" && s[0..] == s;
    assert r + [] == r;
  }

  lemma ShortRest(r: seq<byte>, s: string)
    requires |s| < 2
    ensures Parsed(s) == [] && Open(r, s) == [r]
  {
    NoMoreWords();
    if |s| == 1 {
      assert s[1..] == "" && Words("") == [];
      if Blank(s[0]) {
        StartsBlank(r, s);
      } else {
        assert WordEnd(s) == 1 && s[..1] == s;
        assert Words(s) == [s] && DecodeWord(s) == [];
        assert r + [] == r;
      }
    } else {
      assert s == "" && s[..0] == "" && s[0..] == "";
      assert r + [] == r;
    }
  }

  lemma OddStep(r: seq<byte>, s: string)
    requires |s| >= 2 && !Blank(s[0]) && Blank(s[1])
    ensures Parsed(s) == Parsed(s[2..]) && Open(r, s) == [r] + Parsed(s[2..])
  {
    assert WordEnd(s[1..]) == 0 && WordEnd(s) == 1;
    StartsBlank(r, s[1..]);
    assert s[1..][1..] == s[2..];
    assert Words(s) == [s[..1]] + Words(s[1..]) && DecodeWord(s[..1]) == [];
    assert Parsed(s) == Parsed(s[1..]);
    assert r + [] == r;
  }

  lemma PairStep(r: seq<byte>, s: string)
    requires |s| >= 2 && !Blank(s[0]) && !Blank(s[1])
    ensures Parsed(s) == Open([Strtol(s[0], s[1])], s[2..])
    ensures Open(r, s) == Open(r + [Strtol(s[0], s[1])], s[2..])
  {
    hide Strtol, DecodeWords;
    var n, x, rest := WordEnd(s), Strtol(s[0], s[1]), s[2..];
    assert s[1..][1..] == rest;
    assert n == 2 + WordEnd(rest);
    var w, tail := rest[..n - 2], Words(rest[n - 2..]);
    assert s[..n][2..] == w && s[n..] == rest[n - 2..];
    assert DecodeWord(s[..n]) == [x] + DecodeWord(w);
    assert Words(s) == [s[..n]] + tail;
    DecodeFirst(s[..n], tail);
    assert r + ([x] + DecodeWord(w)) == (r + [x]) + DecodeWord(w);
    assert Parsed(s) == [DecodeWord(s[..n])] + DecodeWords(tail);
  }

  method ReadHex(pos0: nat, s: string) returns (r: seq<byte>, pos: nat)
    requires pos0 <= |s|
    ensures pos0 <= pos <= |s| && (pos0 + 1 < |s| ==> pos0 < pos) && (r == [] ==> pos + 1 >= |s|)
    ensures Parsed(s[pos0..]) == (if r == [] then [] else [r]) + Parsed(s[pos..])
  {
    hide Blank, Strtol, Open, Parsed;
    pos := pos0;
    r := [];
    var hasData := false;
    while true
      invariant pos0 <= pos <= |s| && (hasData <==> r != []) && (hasData ==> pos0 < pos)
      invariant Parsed(s[pos0..]) == if hasData then Open(r, s[pos..]) else Parsed(s[pos..])
      decreases |s| - pos
    {
      ghost var rest := s[pos..];
      if pos + 1 >= |s| {
        ShortRest(r, rest);
        break;
      }
      var c0, c1 := s[pos], s[pos + 1];
      assert rest[1..] == s[pos + 1..] && rest[2..] == s[pos + 2..];
      pos := pos + 1;
      if Blank(c0) {
        StartsBlank(r, rest);
        if hasData {
          break;
        } else {
          continue;
        }
      }
      pos := pos + 1;
      if Blank(c1) {
        OddStep(r, rest);
        if hasData {
          break;
        } else {
          continue;
        }
      }
      PairStep(r, rest);
      assert [] + [Strtol(c0, c1)] == [Strtol(c0, c1)];
      r := r + [Strtol(c0, c1)];
      hasData := true;
    }
  }

  /** The reader's loops give the words of the string, for every string. */
  method LoggerParseSQLBaseMeasurement(value: string) returns (clauses: seq<seq<byte>>)
    ensures clauses == Parsed(value)
  {
    hide Parsed;
    var p := 0;
    clauses := [];
    assert value[0..] == value;
    while true
      invariant p <= |value| && Parsed(value) == clauses + Parsed(value[p..])
      decreases |value| - p
    {
      var s;
      s, p := ReadHex(p, value);
      if s != [] {
        clauses := clauses + [s];
      }
      if p + 1 >= |value| {
        ShortRest([], value[p..]);
        break;
      }
    }
  }

  // ------------------------------------------------------------------ writing

  const DIGITS := "0123456789abcdef"

  function HexByte(x: byte): (s: string)
    ensures |s| == 2
  {
    [DIGITS[x / 16], DIGITS[x % 16]]
  }

  function Hex(p: seq<byte>): (s: string)
    ensures |s| == 2 * |p|
  {
    if p == [] then "" else Hex(p[..|p| - 1]) + HexByte(p[|p| - 1])
  }

  function Printed(ps: seq<seq<byte>>, separator: string, oparen: string, cparen: string): string {
    if ps == [] then ""
    else
      var last := oparen + Hex(ps[|ps| - 1]) + cparen;
      if |ps| == 1 then last else Printed(ps[..|ps| - 1], separator, oparen, cparen) + separator + last
  }

  method BufferPrintHex(value: seq<byte>) returns (s: string)
    ensures s == Hex(value)
  {
    s := "";
    for i := 0 to |value|
      invariant s == Hex(value[..i])
    {
      s := s + HexByte(value[i]);
      assert value[..i + 1][..i] == value[..i];
    }
    assert value[..|value|] == value;
  }

  method RawCommaString(ps: seq<seq<byte>>, separator: string, oparen: string, cparen: string) returns (s: string)
    ensures s == Printed(ps, separator, oparen, cparen)
  {
    s := "";
    var isFirst := true;
    for i := 0 to |ps|
      invariant s == Printed(ps[..i], separator, oparen, cparen) && (isFirst <==> i == 0)
    {
      if isFirst {
        isFirst := false;
      } else {
        s := s + separator;
      }
      var hex := BufferPrintHex(ps[i]);
      s := s + (oparen + hex + cparen);
      assert ps[..i + 1][..i] == ps[..i];
    }
    assert ps[..|ps|] == ps;
  }

  // --------------------------------------------------------------- round trip

  predicate AllBlank(s: string) {
    forall i :: 0 <= i < |s| ==> Blank(s[i])
  }

  predicate NoBlank(s: string) {
    forall i :: 0 <= i < |s| ==> !Blank(s[i])
  }

  lemma DigitIsRead(d: nat)
    requires d < 16
    ensures Digit(DIGITS[d]) == d && !Blank(DIGITS[d]) && DIGITS[d] != '+' && DIGITS[d] != '-'
  {
  }

  lemma HexByteIsRead(x: byte)
    ensures NoBlank(HexByte(x)) && Strtol(HexByte(x)[0], HexByte(x)[1]) == x
  {
    DigitIsRead(x / 16);
    DigitIsRead(x % 16);
  }

  lemma {:induction false} DecodeAppend(a: string, b: string)
    requires |a| % 2 == 0
    ensures DecodeWord(a + b) == DecodeWord(a) + DecodeWord(b)
  {
    if a == "" {
      assert a + b == b;
    } else {
      hide Strtol;
      var x := Strtol(a[0], a[1]);
      DecodeAppend(a[2..], b);
      assert (a + b)[2..] == a[2..] + b;
      assert DecodeWord(a) == [x] + DecodeWord(a[2..]);
      assert DecodeWord(a + b) == [x] + DecodeWord(a[2..] + b);
    }
  }

  lemma {:induction false} DecodeHex(p: seq<byte>)
    ensures NoBlank(Hex(p)) && DecodeWord(Hex(p)) == p
  {
    hide HexByte, Strtol;
    if p != [] {
      var x := p[|p| - 1];
      DecodeHex(p[..|p| - 1]);
      HexByteIsRead(x);
      DecodeAppend(Hex(p[..|p| - 1]), HexByte(x));
      assert HexByte(x)[2..] == "";
    }
  }

  lemma {:induction false} WordsOfWord(w: string)
    requires NoBlank(w)
    ensures Words(w) == if w == "" then [] else [w]
  {
    if w != "" {
      assert WordEnd(w) == |w|;
      assert w[..|w|] == w && w[|w|..] == "";
    }
  }

  lemma {:induction false} WordsAfterBlanks(w: string, s: string)
    requires AllBlank(w)
    ensures Words(w + s) == Words(s)
  {
    if w == "" {
      assert w + s == s;
    } else {
      assert (w + s)[1..] == w[1..] + s;
      WordsAfterBlanks(w[1..], s);
    }
  }

  /** Blanks separate words, however many there are. */
  lemma {:induction false} WordsApart(a: string, blanks: string, b: string)
    requires blanks != "" && AllBlank(blanks)
    ensures Words(a + blanks + b) == Words(a) + Words(b)
    decreases |a|
  {
    var s := a + blanks + b;
    if a == "" {
      WordsAfterBlanks(blanks, b);
      assert s == blanks + b;
    } else if Blank(a[0]) {
      assert s[1..] == a[1..] + blanks + b;
      WordsApart(a[1..], blanks, b);
    } else {
      var n := WordEnd(a);
      assert WordEnd(s) == n by {
        assert n < |a| ==> s[n] == a[n];
        assert n == |a| ==> s[n] == blanks[0];
      }
      assert s[..n] == a[..n] && s[n..] == a[n..] + blanks + b;
      WordsApart(a[n..], blanks, b);
    }
  }

  lemma {:induction false} DecodeWordsAppend(a: seq<string>, b: seq<string>)
    ensures DecodeWords(a + b) == DecodeWords(a) + DecodeWords(b)
  {
    if a == [] {
      assert a + b == b;
    } else {
      assert (a + b)[1..] == a[1..] + b;
      DecodeWordsAppend(a[1..], b);
    }
  }

  /** Packets written with one separator and read with their blanks widened in any way are read the same. */
  lemma ParsedApart(a: string, blanks: string, b: string)
    requires blanks != "" && AllBlank(blanks)
    ensures Parsed(a + blanks + b) == Parsed(a) + Parsed(b)
  {
    WordsApart(a, blanks, b);
    DecodeWordsAppend(Words(a), Words(b));
  }

  function NonEmpty(ps: seq<seq<byte>>): seq<seq<byte>> {
    if ps == [] then []
    else NonEmpty(ps[..|ps| - 1]) + (if ps[|ps| - 1] == [] then [] else [ps[|ps| - 1]])
  }

  lemma OneWord(w: string, p: seq<byte>)
    requires Words(w) == (if w == "" then [] else [w]) && DecodeWord(w) == p && (w == "" <==> p == [])
    ensures Parsed(w) == if p == [] then [] else [p]
  {
    hide DecodeWord;
    DecodeFirst(w, []);
    assert [w] + [] == [w];
    assert p != [] ==> [p] + [] == [p];
  }

  lemma ParsedHex(p: seq<byte>)
    ensures Parsed(Hex(p)) == if p == [] then [] else [p]
  {
    hide Hex, DecodeWord;
    DecodeHex(p);
    WordsOfWord(Hex(p));
    OneWord(Hex(p), p);
  }

  /** Each packet is between its parentheses, with one separator between two of them. */
  lemma PrintedAs(ps: seq<seq<byte>>, p: seq<byte>, separator: string, oparen: string, cparen: string)
    ensures Printed([p], separator, oparen, cparen) == oparen + Hex(p) + cparen
    ensures ps != [] ==>
              Printed(ps + [p], separator, oparen, cparen)
              == Printed(ps, separator, oparen, cparen) + separator + oparen + Hex(p) + cparen
  {
    assert (ps + [p])[..|ps|] == ps;
  }

  lemma PrintedBare(ps: seq<seq<byte>>, p: seq<byte>, separator: string)
    ensures Printed(ps + [p], separator, "", "")
            == if ps == [] then Hex(p) else Printed(ps, separator, "", "") + separator + Hex(p)
  {
    assert ps == [] ==> ps + [p] == [p];
    hide Hex, Printed;
    PrintedAs(ps, p, separator, "", "");
    assert "" + Hex(p) + "" == Hex(p);
    var text := Printed(ps, separator, "", "") + separator;
    assert text + "" == text && text + "" + Hex(p) + "" == text + Hex(p);
  }

  lemma NonEmptyStep(ps: seq<seq<byte>>, p: seq<byte>)
    ensures NonEmpty(ps + [p]) == NonEmpty(ps) + (if p == [] then [] else [p]) && NonEmpty([]) == []
  {
    assert (ps + [p])[..|ps|] == ps;
  }

  /** Reading a written list gives its packets, but for the empty ones, whatever blanks separate them. */
  lemma {:induction false} ParsedPrinted(ps: seq<seq<byte>>, separator: string)
    requires separator != "" && AllBlank(separator)
    ensures Parsed(Printed(ps, separator, "", "")) == NonEmpty(ps)
  {
    if ps == [] {
      ShortRest([], "");
    } else {
      var before, last := ps[..|ps| - 1], ps[|ps| - 1];
      assert ps == before + [last];
      hide *;
      ParsedPrinted(before, separator);
      PrintedBare(before, last, separator);
      NonEmptyStep(before, last);
      ParsedHex(last);
      if before != [] {
        ParsedApart(Printed(before, separator, "", ""), separator, Hex(last));
      }
    }
  }

  lemma {:induction false} NothingEmpty(ps: seq<seq<byte>>)
    ensures |NonEmpty(ps)| <= |ps|
    ensures NonEmpty(ps) == ps <==> [] !in ps
  {
    if ps != [] {
      var before, last := ps[..|ps| - 1], ps[|ps| - 1];
      NothingEmpty(before);
      assert ps == before + [last];
    }
  }

  /** The list that is stored in the database is read back exactly if it has no empty packet. */
  lemma ListRoundTrip(ps: seq<seq<byte>>)
    ensures Parsed(Printed(ps, " ", "", "")) == ps <==> [] !in ps
  {
    hide Parsed, Printed;
    ParsedPrinted(ps, " ");
    NothingEmpty(ps);
  }

  // -------------------------------------------------------------- characters

  lemma LowerDigits(x: byte)
    ensures forall j :: 0 <= j < 2 ==> '0' <= HexByte(x)[j] <= '9' || 'a' <= HexByte(x)[j] <= 'f'
    ensures Digit(HexByte(x)[0]) == x / 16 && Digit(HexByte(x)[1]) == x % 16
  {
    DigitIsRead(x / 16);
    DigitIsRead(x % 16);
  }

  /** The text of packets has only digits and the lower-case letters up to f, the high half of each byte first. */
  lemma {:induction false} LowerCase(p: seq<byte>, i: nat)
    requires i < 2 * |p|
    ensures '0' <= Hex(p)[i] <= '9' || 'a' <= Hex(p)[i] <= 'f'
    ensures Digit(Hex(p)[i]) == if i % 2 == 0 then p[i / 2] / 16 else p[i / 2] % 16
  {
    hide Digit, HexByte;
    if i < 2 * |p| - 2 {
      LowerCase(p[..|p| - 1], i);
    } else {
      LowerDigits(p[|p| - 1]);
      assert Hex(p)[i] == HexByte(p[|p| - 1])[i - (2 * |p| - 2)];
    }
  }

  /** The digits are 0 to 9, and a to f in either case. */
  lemma DigitsOf(c: char)
    ensures Digit(c) >= 0 <==> c in "0123456789abcdefABCDEF"
    ensures 0 <= Digit(c) < 10 ==> c == "0123456789"[Digit(c)]
    ensures 10 <= Digit(c) ==> Digit(c) < 16 && (c == "abcdef"[Digit(c) - 10] || c == "ABCDEF"[Digit(c) - 10])
  {
  }

  /** Two characters: digits, one digit and something else, a sign and a digit, or no number. */
  lemma PairValue(a: char, b: char)
    ensures Digit(a) >= 0 && Digit(b) >= 0 ==> Strtol(a, b) == 16 * Digit(a) + Digit(b)
    ensures Digit(a) >= 0 && Digit(b) < 0 ==> Strtol(a, b) == Digit(a)
    ensures a == '+' && Digit(b) >= 0 ==> Strtol(a, b) == Digit(b)
    ensures a == '-' && Digit(b) >= 0 ==> (Strtol(a, b) + Digit(b)) % 256 == 0
    ensures Digit(a) < 0 && (Digit(b) < 0 || (a != '+' && a != '-')) ==> Strtol(a, b) == 0
  {
  }

  lemma {:induction false} NoLonger(s: string)
    ensures Words(s) != [] ==> Words(s)[0] != "" && !Blank(Words(s)[0][0])
    ensures forall i :: 0 <= i < |Words(s)| ==> NoBlank(Words(s)[i])
    decreases |s|
  {
    if s != "" {
      if Blank(s[0]) {
        NoLonger(s[1..]);
      } else {
        NoLonger(s[WordEnd(s)..]);
      }
    }
  }

  lemma OnlyWord(w: string)
    requires Words(w) == [w]
    ensures NoBlank(w)
  {
    NoLonger(w);
    assert NoBlank(Words(w)[0]);
  }

  /** Words are of printable ASCII characters; all others separate them. */
  lemma WordOfPrintable(w: string)
    ensures w != "" && (forall i :: 0 <= i < |w| ==> '!' <= w[i] && w[i] as int < 128) <==> Words(w) == [w]
  {
    if w != "" && Words(w) == [w] {
      OnlyWord(w);
    }
    if w != "" && NoBlank(w) {
      WordsOfWord(w);
    }
  }
}
