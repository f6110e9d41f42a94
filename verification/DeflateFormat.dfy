/**
 The part of the DEFLATE format that a compressor with the fixed Huffman code
 uses (sections 3.2.3 to 3.2.6 of RFC 1951), inside a zlib stream (section 2.2
 of RFC 1950): tokens, their bits, what they expand to, and a decoder.
 */
module DeflateFormat {
  import opened Options
  import opened LittleEndian
  import opened BitStreams

  const WINDOW := 32768
  const MIN_MATCH := 3
  const MAX_MATCH := 258

  /** The shortest length of each of the 29 length symbols. */
  function LengthBase(i: nat): nat {
    match i
    case 0 => 3
    case 1 => 4
    case 2 => 5
    case 3 => 6
    case 4 => 7
    case 5 => 8
    case 6 => 9
    case 7 => 10
    case 8 => 11
    case 9 => 13
    case 10 => 15
    case 11 => 17
    case 12 => 19
    case 13 => 23
    case 14 => 27
    case 15 => 31
    case 16 => 35
    case 17 => 43
    case 18 => 51
    case 19 => 59
    case 20 => 67
    case 21 => 83
    case 22 => 99
    case 23 => 115
    case 24 => 131
    case 25 => 163
    case 26 => 195
    case 27 => 227
    case _ => 258
  }

  /** How many extra bits follow each length symbol. */
  function LengthExtra(i: nat): nat {
    if i < 8 then 0 else if i < 12 then 1 else if i < 16 then 2 else if i < 20 then 3 else if i < 24 then 4 else if i < 28 then 5 else 0
  }

  /** The shortest distance of each of the 30 distance symbols. */
  function DistanceBase(i: nat): nat {
    match i
    case 0 => 1
    case 1 => 2
    case 2 => 3
    case 3 => 4
    case 4 => 5
    case 5 => 7
    case 6 => 9
    case 7 => 13
    case 8 => 17
    case 9 => 25
    case 10 => 33
    case 11 => 49
    case 12 => 65
    case 13 => 97
    case 14 => 129
    case 15 => 193
    case 16 => 257
    case 17 => 385
    case 18 => 513
    case 19 => 769
    case 20 => 1025
    case 21 => 1537
    case 22 => 2049
    case 23 => 3073
    case 24 => 4097
    case 25 => 6145
    case 26 => 8193
    case 27 => 12289
    case 28 => 16385
    case _ => 24577
  }

  /** How many extra bits follow each distance symbol. */
  function DistanceExtra(i: nat): nat {
    if i < 4 then 0 else if i < 6 then 1 else if i < 8 then 2 else if i < 10 then 3 else if i < 12 then 4
    else if i < 14 then 5 else if i < 16 then 6 else if i < 18 then 7 else if i < 20 then 8 else if i < 22 then 9
    else if i < 24 then 10 else if i < 26 then 11 else if i < 28 then 12 else 13
  }

  // --------------------------------------------------------------- tokens

  /** A literal byte, or a copy of `length` bytes from `distance` back. */
  datatype Token = Literal(b: byte) | Match(length: nat, distance: nat)

  predicate TokenOk(t: Token) {
    t.Match? ==> MIN_MATCH <= t.length <= MAX_MATCH && 1 <= t.distance <= WINDOW
  }

  /** Appends `length` bytes, each the one `distance` back; the copy may overlap what it writes. */
  function Copy(out: seq<byte>, length: nat, distance: nat): (r: seq<byte>)
    requires 1 <= distance <= |out|
    ensures |r| == |out| + length
    decreases length
  {
    if length == 0 then out else Copy(out + [out[|out| - distance]], length - 1, distance)
  }

  /** What one token adds to the output. */
  function Apply(t: Token, out: seq<byte>): (r: seq<byte>)
    requires t.Match? ==> 1 <= t.distance <= |out|
    ensures |r| == |out| + Span(t)
  {
    match t
    case Literal(b) => out + [b]
    case Match(length, distance) => Copy(out, length, distance)
  }

  /** How many bytes a token stands for. */
  function Span(t: Token): nat {
    if t.Literal? then 1 else t.length
  }

  /** Whether every copy reaches back no further than there is output. */
  predicate Reaches(tokens: seq<Token>, out: seq<byte>)
    decreases |tokens|
  {
    tokens == [] ||
    ((tokens[0].Match? ==> 1 <= tokens[0].distance <= |out|) && Reaches(tokens[1..], Apply(tokens[0], out)))
  }

  function Expand(tokens: seq<Token>, out: seq<byte>): seq<byte>
    requires Reaches(tokens, out)
    decreases |tokens|
  {
    if tokens == [] then out else Expand(tokens[1..], Apply(tokens[0], out))
  }

  // ----------------------------------------------------------------- codes

  /** The fixed literal/length code: code and length in bits. */
  function FixedCode(symbol: nat): (c: (nat, nat))
    requires symbol < 288
    ensures 7 <= c.1 <= 9 && c.0 < Pow2(c.1)
  {
    Pow2Values();
    if symbol < 144 then (0x30 + symbol, 8)
    else if symbol < 256 then (0x190 + symbol - 144, 9)
    else if symbol < 280 then (symbol - 256, 7)
    else (0xc0 + symbol - 280, 8)
  }

  function SymbolBits(symbol: nat): Bits
    requires symbol < 288
  {
    CodeBits(FixedCode(symbol).0, FixedCode(symbol).1)
  }

  /** The last place in an ascending table whose entry is at most `x`. */
  function LastAtMost(table: nat -> nat, x: nat, n: nat): (k: nat)
    requires 0 < n && table(0) <= x
    ensures k < n && table(k) <= x && (k + 1 < n ==> x < table(k + 1))
    decreases n
  {
    if table(n - 1) <= x then n - 1 else LastAtMost(table, x, n - 1)
  }

  function LengthIndex(length: nat): (i: nat)
    requires MIN_MATCH <= length <= MAX_MATCH
    ensures i < 29 && LengthBase(i) <= length && (i + 1 < 29 ==> length < LengthBase(i + 1))
  {
    LastAtMost(LengthBase, length, 29)
  }

  function DistanceIndex(distance: nat): (i: nat)
    requires 1 <= distance <= WINDOW
    ensures i < 30 && DistanceBase(i) <= distance && (i + 1 < 30 ==> distance < DistanceBase(i + 1))
  {
    LastAtMost(DistanceBase, distance, 30)
  }

  /** What the extra bits hold always fits them. */
  lemma LengthFits(length: nat)
    requires MIN_MATCH <= length <= MAX_MATCH
    ensures var i := LengthIndex(length); length - LengthBase(i) < Pow2(LengthExtra(i))
  {
    hide Pow2, LastAtMost;
    Pow2Values();
  }

  lemma DistanceStep(i: nat)
    requires i < 30
    ensures DistanceBase(i) + Pow2(DistanceExtra(i)) == if i < 29 then DistanceBase(i + 1) else WINDOW + 1
  {
    hide Pow2;
    Pow2Values();
  }

  lemma DistanceFits(distance: nat)
    requires 1 <= distance <= WINDOW
    ensures var i := DistanceIndex(distance); distance - DistanceBase(i) < Pow2(DistanceExtra(i))
  {
    hide Pow2, LastAtMost, DistanceBase, DistanceExtra;
    DistanceStep(DistanceIndex(distance));
  }

  /** The bits of one token. */
  function TokenBits(t: Token): Bits
    requires TokenOk(t)
  {
    match t
    case Literal(b) => SymbolBits(b)
    case Match(length, distance) => SymbolBits(257 + LengthIndex(length)) + RestBits(length, distance)
  }

  /** What follows the length symbol of a copy: extra bits, the distance symbol and its extra bits. */
  function RestBits(length: nat, distance: nat): Bits
    requires MIN_MATCH <= length <= MAX_MATCH && 1 <= distance <= WINDOW
  {
    var i, j := LengthIndex(length), DistanceIndex(distance);
    BitsOf(length - LengthBase(i), LengthExtra(i)) + CodeBits(j, 5)
    + BitsOf(distance - DistanceBase(j), DistanceExtra(j))
  }

  predicate TokensOk(tokens: seq<Token>) {
    forall t :: t in tokens ==> TokenOk(t)
  }

  function TokensBits(tokens: seq<Token>): Bits
    requires TokensOk(tokens)
  {
    if tokens == [] then [] else TokenBits(tokens[0]) + TokensBits(tokens[1..])
  }

  // --------------------------------------------------------------- decoder

  /** The shortest length of a length symbol, counted up as the format does: four symbols to each number of extra bits. */
  function FirstLength(i: nat): nat {
    if i == 28 then 258 else if i < 8 then 3 + i else 3 + (4 + i % 4) * Pow2(i / 4 - 1)
  }

  function LengthBits(i: nat): nat {
    if i < 8 || i == 28 then 0 else i / 4 - 1
  }

  /** The shortest distance of a distance symbol: two symbols to each number of extra bits. */
  function FirstDistance(j: nat): nat {
    if j < 4 then 1 + j else 1 + (2 + j % 2) * Pow2(j / 2 - 1)
  }

  function DistanceBits(j: nat): nat {
    if j < 4 then 0 else j / 2 - 1
  }

  /** The tables hold what the format counts up. */
  lemma LengthTable(i: nat)
    requires i < 29
    ensures LengthBase(i) == FirstLength(i) && LengthExtra(i) == LengthBits(i)
  {
    hide Pow2;
    Pow2Values();
  }

  lemma DistanceTable(j: nat)
    requires j < 30
    ensures DistanceBase(j) == FirstDistance(j) && DistanceExtra(j) == DistanceBits(j)
  {
    hide Pow2;
    Pow2Values();
  }

  /** Reads one literal/length symbol: which, and how many bits it took. */
  function ReadSymbol(b: Bits): Option<(nat, nat)> {
    if |b| >= 7 && MsbValue(b[..7]) < 24 then Some((256 + MsbValue(b[..7]), 7))
    else if |b| >= 8 && 0x30 <= MsbValue(b[..8]) < 0xc0 then Some((MsbValue(b[..8]) - 0x30, 8))
    else if |b| >= 8 && 0xc0 <= MsbValue(b[..8]) < 0xc8 then Some((280 + MsbValue(b[..8]) - 0xc0, 8))
    else if |b| >= 9 && 0x190 <= MsbValue(b[..9]) < 0x200 then Some((144 + MsbValue(b[..9]) - 0x190, 9))
    else None
  }

  /** The rest of a copy: what follows the symbol of length index `i`. */
  function ReadMatch(b: Bits, i: nat): Option<(Token, nat)>
    requires i < 29
  {
    var e := LengthBits(i);
    if |b| < e + 5 then None
    else
      var j := MsbValue(b[e..e + 5]);
      if j >= 30 || |b| < e + 5 + DistanceBits(j) then None
      else
        var f := DistanceBits(j);
        Some((Match(FirstLength(i) + Value(b[..e]), FirstDistance(j) + Value(b[e + 5..e + 5 + f])), e + 5 + f))
  }

  /** Decodes symbols up to the end of the block: the output, and the bits after it. */
  function InflateBlock(b: Bits, out: seq<byte>): Option<(seq<byte>, Bits)>
    decreases |b|
  {
    match ReadSymbol(b)
    case None => None
    case Some((symbol, n)) =>
      if symbol < 256 then InflateBlock(b[n..], out + [symbol])
      else if symbol == 256 then Some((out, b[n..]))
      else if symbol >= 286 then None
      else
        match ReadMatch(b[n..], symbol - 257)
        case None => None
        case Some((copy, m)) =>
          if copy.distance > |out| || copy.distance == 0 then None
          else InflateBlock(b[n + m..], Copy(out, copy.length, copy.distance))
  }

  /** The number in the last four bytes, the highest first. */
  function Trailer(s: seq<byte>): nat
    requires |s| >= 4
  {
    var n := |s|;
    0x100_0000 * (s[n - 4] as int) + 0x1_0000 * (s[n - 3] as int) + 0x100 * (s[n - 2] as int) + s[n - 1]
  }

  /** The big-endian bytes of a checksum. */
  function BigEndian(v: u32): (s: seq<byte>)
    ensures |s| == 4
  {
    [v / 0x100_0000, v / 0x1_0000 % 0x100, v / 0x100 % 0x100, v % 0x100]
  }

  lemma BigEndianValue(s: seq<byte>, v: u32)
    ensures Trailer(s + BigEndian(v)) == v
  {
    var t := s + BigEndian(v);
    assert t[|s|..] == BigEndian(v);
    var a, b, c, d := v / 0x100_0000, v / 0x1_0000 % 0x100, v / 0x100 % 0x100, v % 0x100;
    assert v / 0x100 == v / 0x1_0000 * 0x100 + c && v / 0x1_0000 == a * 0x100 + b;
  }

  /** Decodes a zlib stream of one final block with the fixed code, under checksum `adler`. */
  function ZlibDecode(adler: seq<byte> -> u32, s: seq<byte>): Option<seq<byte>> {
    if |s| < 6 || s[0] % 16 != 8 || s[0] / 16 > 7 || (256 * (s[0] as int) + s[1]) % 31 != 0 || s[1] / 32 % 2 != 0 then None
    else
      var b := BytesBits(s[2..]);
      if Value(b[..1]) != 1 || Value(b[1..3]) != 1 then None
      else
        match InflateBlock(b[3..], [])
        case None => None
        case Some((out, rest)) =>
          if |rest| / 8 == 4 && Trailer(s) == adler(out) then Some(out) else None
  }

  // ---------------------------------------------------------- round trips

  /** The first `k` bits of a code that goes on. */
  lemma PrefixValue(code: nat, n: nat, rest: Bits)
    requires n >= 1 && code < Pow2(n)
    ensures var b := CodeBits(code, n) + rest;
            MsbValue(b[..n]) == code && MsbValue(b[..n - 1]) == code / 2
  {
    var b := CodeBits(code, n) + rest;
    assert b[..n] == CodeBits(code, n);
    MsbValueOfCode(code, n);
    CodeBitsLast(code, n);
    assert b[..n - 1] == CodeBits(code / 2, n - 1);
    MsbValueOfCode(code / 2, n - 1);
  }

  lemma ReadSymbolBits(symbol: nat, rest: Bits)
    requires symbol < 288
    ensures ReadSymbol(SymbolBits(symbol) + rest) == Some((symbol, |SymbolBits(symbol)|))
  {
    hide CodeBits, MsbValue;
    Pow2Values();
    var (code, n) := FixedCode(symbol);
    var b := CodeBits(code, n) + rest;
    PrefixValue(code, n, rest);
    if n == 9 {
      CodeBitsLast(code, 9);
      PrefixValue(code / 2, 8, [code % 2 == 1] + rest);
      assert CodeBits(code / 2, 8) + ([code % 2 == 1] + rest) == b;
    }
  }

  lemma Parts(first: Bits, code: Bits, last: Bits, rest: Bits)
    ensures var b := first + code + last + rest;
            && b[..|first|] == first
            && b[|first|..|first| + |code|] == code
            && b[|first| + |code|..|first| + |code| + |last|] == last
  {
  }

  lemma ReadMatchBits(length: nat, distance: nat, rest: Bits)
    requires TokenOk(Match(length, distance))
    ensures var b := RestBits(length, distance);
            ReadMatch(b + rest, LengthIndex(length)) == Some((Match(length, distance), |b|))
  {
    hide CodeBits, MsbValue, LastAtMost, LengthBase, DistanceBase, LengthExtra, DistanceExtra, BitsOf, Value, Pow2,
      FirstLength, FirstDistance, LengthBits, DistanceBits;
    Pow2Values();
    var i, j := LengthIndex(length), DistanceIndex(distance);
    var e, f := LengthExtra(i), DistanceExtra(j);
    LengthFits(length);
    DistanceFits(distance);
    LengthTable(i);
    DistanceTable(j);
    var first, code, last := BitsOf(length - LengthBase(i), e), CodeBits(j, 5), BitsOf(distance - DistanceBase(j), f);
    var b := first + code + last;
    ValueOfBits(length - LengthBase(i), e);
    MsbValueOfCode(j, 5);
    ValueOfBits(distance - DistanceBase(j), f);
    Parts(first, code, last, rest);
  }

  /** The decoder gives back what the tokens stand for, and stops where they end. */
  lemma {:induction false} InflateTokens(tokens: seq<Token>, out: seq<byte>, rest: Bits)
    requires TokensOk(tokens) && Reaches(tokens, out)
    ensures InflateBlock(TokensBits(tokens) + SymbolBits(256) + rest, out) == Some((Expand(tokens, out), rest))
    decreases |tokens|
  {
    hide SymbolBits, ReadSymbol, ReadMatch, BitsOf, CodeBits, Apply, TokenBits;
    var b := TokensBits(tokens) + SymbolBits(256) + rest;
    if tokens == [] {
      ReadSymbolBits(256, rest);
      assert b == SymbolBits(256) + rest;
      assert b[|SymbolBits(256)|..] == rest;
    } else {
      var tail := TokensBits(tokens[1..]) + SymbolBits(256) + rest;
      assert b == TokenBits(tokens[0]) + tail;
      InflateToken(tokens[0], out, tail);
      InflateTokens(tokens[1..], Apply(tokens[0], out), rest);
    }
  }

  /** Decoding one token. */
  lemma InflateToken(t: Token, out: seq<byte>, tail: Bits)
    requires TokenOk(t) && (t.Match? ==> t.distance <= |out|)
    ensures InflateBlock(TokenBits(t) + tail, out) == InflateBlock(tail, Apply(t, out))
  {
    hide SymbolBits, ReadSymbol, ReadMatch, BitsOf, CodeBits, Copy, RestBits, LengthIndex;
    var b := TokenBits(t) + tail;
    match t
    case Literal(c) =>
      ReadSymbolBits(c, tail);
      assert b[|SymbolBits(c)|..] == tail;
    case Match(length, distance) =>
      var i := LengthIndex(length);
      var head, more := SymbolBits(257 + i), RestBits(length, distance);
      assert b == head + (more + tail);
      ReadSymbolBits(257 + i, more + tail);
      assert b[|head|..] == more + tail;
      ReadMatchBits(length, distance, tail);
      assert b[|head| + |more|..] == tail;
  }

  // ------------------------------------------------------- growing a stream

  lemma {:induction false} TokensAppend(tokens: seq<Token>, t: Token)
    requires TokensOk(tokens) && TokenOk(t)
    ensures TokensOk(tokens + [t]) && TokensBits(tokens + [t]) == TokensBits(tokens) + TokenBits(t)
    decreases |tokens|
  {
    hide TokenBits;
    if tokens == [] {
      assert (tokens + [t])[1..] == [];
    } else {
      TokensAppend(tokens[1..], t);
      assert (tokens + [t])[1..] == tokens[1..] + [t];
    }
  }

  lemma {:induction false} ExpandAppend(tokens: seq<Token>, t: Token, out: seq<byte>)
    requires Reaches(tokens, out) && (t.Match? ==> 1 <= t.distance <= |Expand(tokens, out)|)
    ensures Reaches(tokens + [t], out)
    ensures Expand(tokens + [t], out) == Apply(t, Expand(tokens, out))
    decreases |tokens|
  {
    hide Apply;
    if tokens == [] {
      assert (tokens + [t])[1..] == [];
    } else {
      assert (tokens + [t])[1..] == tokens[1..] + [t];
      ExpandAppend(tokens[1..], t, Apply(tokens[0], out));
    }
  }

  /** Copying from where the input repeats itself gives the input. */
  lemma {:induction false} CopyIsInput(input: seq<byte>, position: nat, length: nat, distance: nat)
    requires 1 <= distance <= position && position + length <= |input|
    requires input[position - distance..position - distance + length] == input[position..position + length]
    ensures Copy(input[..position], length, distance) == input[..position + length]
    decreases length
  {
    if length > 0 {
      var at := position - distance;
      assert input[at..at + length][0] == input[position..position + length][0];
      assert input[..position] + [input[..position][at]] == input[..position + 1];
      assert input[at + 1..at + length] == input[at..at + length][1..];
      assert input[position + 1..position + length] == input[position..position + length][1..];
      CopyIsInput(input, position + 1, length - 1, distance);
    }
  }

  /** No token takes more than nine bits for each byte it stands for. */
  lemma TokenCost(t: Token)
    requires TokenOk(t)
    ensures |TokenBits(t)| <= 9 * Span(t)
  {
    hide LastAtMost, BitsOf, CodeBits;
  }
}
