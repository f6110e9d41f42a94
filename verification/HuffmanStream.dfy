/** Writing symbols with a Huffman table and reading them back, through bit packing and byte stuffing. */
module HuffmanStream {
  import opened Options
  import opened LittleEndian
  import opened Arithmetic
  import opened BitStreams
  import opened HuffmanCounts
  import opened HuffmanTables

  // ---------------------------------------------------------- prefix freedom

  /** The first bits of a code are at least what the code is worth at that length. */
  lemma {:induction false} PrefixAtLeast(code: nat, n: nat, k: nat, v: nat)
    requires k <= n && code < Pow2(n) && Pow2(n - k) * v <= code
    ensures MsbValue(CodeBits(code, n)[..k]) >= v
    decreases n
  {
    hide CodeBits, MsbValue;
    if k == n {
      MsbValueOfCode(code, n);
      assert CodeBits(code, n)[..n] == CodeBits(code, n);
    } else {
      DoubleProduct(n - 1 - k, v);
      CodeBitsLast(code, n);
      assert CodeBits(code, n)[..k] == CodeBits(code / 2, n - 1)[..k];
      PrefixAtLeast(code / 2, n - 1, k, v);
    }
  }

  lemma DoubleProduct(n: nat, v: nat)
    ensures Pow2(n + 1) * v == 2 * (Pow2(n) * v)
  {
    assert Pow2(n + 1) == 2 * Pow2(n);
  }

  /** No code starts with another, and none is all ones. */
  lemma PrefixFree(bits: seq<nat>, l: nat, c: nat, l': nat, c': nat)
    requires |bits| == 33 && Codes(bits, 16) < Pow2(16)
    requires Coded(bits, l, c) && Coded(bits, l', c')
    ensures c < Pow2(l) - 1
    ensures l < l' ==> MsbValue(CodeBits(c', l')[..l]) != c
  {
    hide Codes, CodeBits, MsbValue, Pow2;
    ShortAllAlong(bits, l, 16);
    if l < l' {
      ShortAllAlong(bits, l', 16);
      CodesDouble(bits, l, l' - 1);
      DoubleProduct(l' - 1 - l, Codes(bits, l));
      PrefixAtLeast(c', l', l, Codes(bits, l));
    }
  }

  // ---------------------------------------------------------------- decoding

  /** Reads a symbol, trying lengths from `length` up: which, and how many bits it took. */
  function Decode(table: map<(nat, nat), nat>, b: Bits, length: nat): Option<(nat, nat)>
    decreases 17 - length
  {
    if length > 16 || |b| < length then None
    else if (length, MsbValue(b[..length])) in table then Some((table[(length, MsbValue(b[..length]))], length))
    else Decode(table, b, length + 1)
  }

  /** A code is read as the symbol it was assigned to, whatever follows it. */
  lemma DecodeCode(bits: seq<nat>, values: seq<nat>, table: map<(nat, nat), nat>, k: nat, code: nat, length: nat, rest: Bits)
    requires TableOk(bits, values) && DecoderOk(bits, values, table) && k < |values| && Assigned(bits, k, code, length)
    ensures Decode(table, CodeBits(code, length) + rest, 1) == Some((values[k], length))
  {
    hide Codes, Total, CodeBits, MsbValue, Pow2;
    AssignedRange(bits, k, code, length);
    DecodeUpTo(bits, values, table, code, length, rest, 1);
    assert (length, code) in table;
    assert Rank(bits, length, code) == k;
  }

  lemma {:induction false} DecodeUpTo(bits: seq<nat>, values: seq<nat>, table: map<(nat, nat), nat>,
                                      code: nat, length: nat, rest: Bits, n: nat)
    requires TableOk(bits, values) && DecoderOk(bits, values, table)
    requires Coded(bits, length, code) && 1 <= n <= length
    ensures (length, code) in table
    ensures Decode(table, CodeBits(code, length) + rest, n) == Some((table[(length, code)], length))
    decreases length - n
  {
    hide Codes, Total, CodeBits, MsbValue, Pow2;
    var b := CodeBits(code, length) + rest;
    assert b[..n] == CodeBits(code, length)[..n];
    PrefixFree(bits, length, code, length, code);
    if n == length {
      assert b[..n] == CodeBits(code, length);
      MsbValueOfCode(code, length);
    } else {
      NoShorter(bits, n, length, code);
      DecodeUpTo(bits, values, table, code, length, rest, n + 1);
    }
  }

  lemma NoShorter(bits: seq<nat>, n: nat, length: nat, code: nat)
    requires |bits| == 33 && Codes(bits, 16) < Pow2(16) && Coded(bits, length, code) && n < length
    ensures !Coded(bits, n, MsbValue(CodeBits(code, length)[..n]))
  {
    var c := MsbValue(CodeBits(code, length)[..n]);
    if Coded(bits, n, c) {
      PrefixFree(bits, n, c, length, code);
    }
  }

  /** Reads `n` symbols. */
  function DecodeAll(table: map<(nat, nat), nat>, b: Bits, n: nat): Option<seq<nat>>
    decreases n
  {
    if n == 0 then Some([])
    else
      match Decode(table, b, 1)
      case None => None
      case Some((symbol, used)) =>
        if used > |b| then None
        else
          match DecodeAll(table, b[used..], n - 1)
          case None => None
          case Some(symbols) => Some([symbol] + symbols)
  }

  /** The bits of a run of symbols. */
  function SymbolsBits(codes: map<nat, (nat, nat)>, symbols: seq<nat>): Bits
    requires forall s :: s in symbols ==> s in codes
  {
    if symbols == [] then []
    else CodeBits(codes[symbols[0]].0, codes[symbols[0]].1) + SymbolsBits(codes, symbols[1..])
  }

  /** The codes agree with the table. */
  ghost predicate CodesOk(bits: seq<nat>, values: seq<nat>, codes: map<nat, (nat, nat)>)
    requires |bits| == 33
  {
    && (forall s :: s in codes <==> s in values)
    && forall k :: 0 <= k < |values| ==> values[k] in codes && Assigned(bits, k, codes[values[k]].0, codes[values[k]].1)
  }

  lemma DecodeNext(table: map<(nat, nat), nat>, b: Bits, n: nat, symbol: nat, used: nat, rest: seq<nat>)
    requires n > 0 && used <= |b| && Decode(table, b, 1) == Some((symbol, used))
    requires DecodeAll(table, b[used..], n - 1) == Some(rest)
    ensures DecodeAll(table, b, n) == Some([symbol] + rest)
  {
    hide Decode;
  }

  /** What was written is what is read. */
  lemma {:induction false} SymbolsRoundTrip(bits: seq<nat>, values: seq<nat>, codes: map<nat, (nat, nat)>,
                                            table: map<(nat, nat), nat>, symbols: seq<nat>, rest: Bits)
    requires TableOk(bits, values) && CodesOk(bits, values, codes) && DecoderOk(bits, values, table)
    requires forall s :: s in symbols ==> s in values
    ensures DecodeAll(table, SymbolsBits(codes, symbols) + rest, |symbols|) == Some(symbols)
    decreases |symbols|
  {
    hide TableOk, DecoderOk, Assigned, Decode, CodeBits, SymbolsBits;
    if symbols != [] {
      var s, tail := symbols[0], symbols[1..];
      assert s in symbols;
      var k :| 0 <= k < |values| && values[k] == s;
      var code := CodeBits(codes[s].0, codes[s].1);
      var more := SymbolsBits(codes, tail) + rest;
      SymbolsFirst(codes, symbols, rest);
      DecodeCode(bits, values, table, k, codes[s].0, codes[s].1, more);
      assert (code + more)[|code|..] == more;
      SymbolsRoundTrip(bits, values, codes, table, tail, rest);
      DecodeNext(table, code + more, |symbols|, s, |code|, tail);
      assert [s] + tail == symbols;
    }
  }

  // ----------------------------------------------------------------- writing

  lemma TwiceProduct(h: nat, p: nat)
    ensures (2 * h) * p == h * (2 * p) && (2 * h + 1) * p == h * (2 * p) + p
  {
    Distribute(2 * h, 1, p);
  }

  lemma DivTwice(x: nat, p: nat)
    requires p > 0
    ensures x / (2 * p) == x / p / 2
  {
    var q := x / p;
    var h := q / 2;
    assert x == q * p + x % p;
    TwiceProduct(h, p);
    if q % 2 == 0 {
      assert q == 2 * h;
      DivExact(h, 2 * p, x % p);
    } else {
      assert q == 2 * h + 1;
      DivExact(h, 2 * p, p + x % p);
    }
  }

  /** Appends the `n` low bits of a value, highest first. */
  method Emit(buffer: Bits, value: nat, n: nat) returns (longer: Bits)
    requires value < Pow2(n)
    ensures longer == buffer + CodeBits(value, n)
  {
    hide Pow2, CodeBits;
    longer := buffer;
    var i := n;
    CodeBitsNone(value / Pow2(n));
    while i > 0
      invariant 0 <= i <= n && longer == buffer + CodeBits(value / Pow2(i), n - i)
    {
      i := i - 1;
      Halves(value, i);
      CodeBitsLast(value / Pow2(i), n - i);
      longer := longer + [value / Pow2(i) % 2 == 1];
    }
    Halves(value, 0);
  }

  lemma CodeBitsNone(v: nat)
    ensures CodeBits(v, 0) == []
  {
  }

  lemma Halves(value: nat, i: nat)
    ensures value / Pow2(i) / 2 == value / Pow2(i + 1) && value / Pow2(0) == value
  {
    DivTwice(value, Pow2(i));
  }

  /** The bits of all symbols, in order. */
  method EmitSymbols(codes: map<nat, (nat, nat)>, symbols: seq<nat>) returns (buffer: Bits)
    requires forall s :: s in symbols ==> s in codes && codes[s].0 < Pow2(codes[s].1)
    ensures buffer == SymbolsBits(codes, symbols)
  {
    hide Pow2, CodeBits;
    buffer := [];
    for k := 0 to |symbols|
      invariant buffer + SymbolsBits(codes, symbols[k..]) == SymbolsBits(codes, symbols)
    {
      var s := symbols[k];
      assert s in symbols;
      assert symbols[k..][1..] == symbols[k + 1..];
      buffer := Emit(buffer, codes[s].0, codes[s].1);
    }
  }

  // --------------------------------------------------------- bytes on the wire

  /** A byte string as bits, each byte from its high bit down. */
  function MsbBytes(s: seq<byte>): (b: Bits)
    ensures |b| == 8 * |s|
  {
    if s == [] then [] else MsbBytes(s[..|s| - 1]) + CodeBits(s[|s| - 1], 8)
  }

  /** Byte `i` is worth its eight bits, the first of them 128. */
  predicate Weighs(s: seq<byte>, b: Bits, i: nat) {
    && i < |s| && 8 * i + 8 <= |b|
    && s[i] == (if b[8 * i] then 128 else 0) + (if b[8 * i + 1] then 64 else 0) + (if b[8 * i + 2] then 32 else 0)
               + (if b[8 * i + 3] then 16 else 0) + (if b[8 * i + 4] then 8 else 0) + (if b[8 * i + 5] then 4 else 0)
               + (if b[8 * i + 6] then 2 else 0) + if b[8 * i + 7] then 1 else 0
  }

  lemma {:induction false} MsbBytesWeigh(s: seq<byte>, i: nat)
    requires i < |s|
    ensures Weighs(s, MsbBytes(s), i)
    decreases |s|
  {
    hide CodeBits;
    var init, last := s[..|s| - 1], s[|s| - 1];
    if i < |s| - 1 {
      MsbBytesWeigh(init, i);
    } else {
      ByteWeighs(last);
    }
  }

  lemma ByteWeighs(x: byte)
    ensures Weighs([x], CodeBits(x, 8), 0)
  {
    hide CodeBits;
    var b := CodeBits(x, 8);
    var high: nat := x / 16;
    assert high < 16 && high / 16 == 0;
    FourBits(x, b, 4);
    FourBits(high, b[..4], 0);
    assert forall k :: 0 <= k < 4 ==> b[..4][k] == b[k];
  }

  /** The last four bits of a code. */
  lemma FourBits(code: nat, b: Bits, n: nat)
    requires b == CodeBits(code, n + 4)
    ensures b[..n] == CodeBits(code / 16, n)
    ensures code == 16 * (code / 16) + (if b[n] then 8 else 0) + (if b[n + 1] then 4 else 0)
                    + (if b[n + 2] then 2 else 0) + if b[n + 3] then 1 else 0
  {
    hide CodeBits;
    var c1 := code / 2;
    var c2 := c1 / 2;
    var c3 := c2 / 2;
    var c4 := c3 / 2;
    CodeBitsLast(code, n + 4);
    CodeBitsLast(c1, n + 3);
    CodeBitsLast(c2, n + 2);
    CodeBitsLast(c3, n + 1);
    assert c4 == code / 16;
  }

  lemma {:induction false} CodeOfMsb(b: Bits)
    ensures MsbValue(b) < Pow2(|b|) && CodeBits(MsbValue(b), |b|) == b
  {
    if b != [] {
      CodeOfMsb(b[..|b| - 1]);
      CodeBitsLast(MsbValue(b), |b|);
      assert b == b[..|b| - 1] + [b[|b| - 1]];
    } else {
      CodeBitsNone(0);
    }
  }

  /** A zero byte after each 0xFF, so that no marker appears. */
  function Stuffed(s: seq<byte>): seq<byte> {
    if s == [] then [] else Stuffed(s[..|s| - 1]) + [s[|s| - 1]] + if s[|s| - 1] == 0xff then [0] else []
  }

  lemma EightBits(b: Bits)
    requires |b| == 8
    ensures MsbValue(b) < 256 && CodeBits(MsbValue(b), 8) == b
  {
    Pow2Values();
    CodeOfMsb(b);
  }

  lemma OneByteMore(bytes: seq<byte>, value: byte)
    ensures MsbBytes(bytes + [value]) == MsbBytes(bytes) + CodeBits(value, 8)
    ensures Stuffed(bytes + [value]) == Stuffed(bytes) + [value] + if value == 0xff then [0] else []
  {
    assert (bytes + [value])[..|bytes|] == bytes;
  }

  lemma MsbNothing()
    ensures MsbBytes([]) == [] && Stuffed([]) == []
  {
  }

  /** Fills the last byte with ones. */
  method Pad(buffer: Bits) returns (padded: Bits, ghost pad: Bits)
    ensures padded == buffer + pad && |padded| % 8 == 0
    ensures |pad| < 8 && forall k :: 0 <= k < |pad| ==> pad[k]
  {
    padded := buffer;
    pad := [];
    while |padded| % 8 != 0
      invariant padded == buffer + pad && |pad| <= (8 - |buffer| % 8) % 8 && forall k :: 0 <= k < |pad| ==> pad[k]
      decreases 8 - |pad|
    {
      padded, pad := padded + [true], pad + [true];
    }
  }

  /** A zero follows every byte of ones, and is all that stuffing adds. */
  lemma {:induction false} StuffedIs(s: seq<byte>)
    ensures forall i :: 0 <= i < |Stuffed(s)| && Stuffed(s)[i] == 0xff ==> i + 1 < |Stuffed(s)| && Stuffed(s)[i + 1] == 0
  {
    if s != [] {
      StuffedIs(s[..|s| - 1]);
    }
  }

  lemma {:induction false} StuffedLength(s: seq<byte>)
    ensures |Stuffed(s)| == |s| + |set i | 0 <= i < |s| && s[i] == 0xff|
  {
    var all := set i | 0 <= i < |s| && s[i] == 0xff;
    if s == [] {
      assert all == {};
    } else {
      var n, t := |s| - 1, s[..|s| - 1];
      StuffedLength(t);
      var before := set i | 0 <= i < |t| && t[i] == 0xff;
      assert all == if s[n] == 0xff then before + {n} else before;
    }
  }

  /** Pads with ones to a whole byte, packs and stuffs. */
  method Pack(buffer: Bits) returns (out: seq<byte>, ghost bytes: seq<byte>, ghost pad: Bits)
    ensures out == Stuffed(bytes) && MsbBytes(bytes) == buffer + pad
    ensures |pad| < 8 && forall k :: 0 <= k < |pad| ==> pad[k]
    ensures forall i :: 0 <= i < |out| && out[i] == 0xff ==> i + 1 < |out| && out[i + 1] == 0
    ensures forall i: nat :: i < |bytes| ==> Weighs(bytes, buffer + pad, i)
  {
    hide CodeBits, MsbValue, MsbBytes, Stuffed, Weighs;
    var padded;
    padded, pad := Pad(buffer);
    out, bytes := [], [];
    MsbNothing();
    var i := 0;
    while i < |padded|
      invariant i <= |padded| && i == 8 * |bytes| && |padded| % 8 == 0
      invariant out == Stuffed(bytes) && MsbBytes(bytes) == padded[..i]
    {
      EightBits(padded[i..i + 8]);
      var value: byte := MsbValue(padded[i..i + 8]);
      OneByteMore(bytes, value);
      NextEight(padded, i);
      bytes := bytes + [value];
      out := out + [value];
      if value == 0xff {
        out := out + [0];
      }
      i := i + 8;
    }
    assert padded[..i] == padded;
    StuffedIs(bytes);
    forall k: nat | k < |bytes| ensures Weighs(bytes, MsbBytes(bytes), k) {
      MsbBytesWeigh(bytes, k);
    }
  }

  lemma NextEight(b: Bits, i: nat)
    requires i + 8 <= |b|
    ensures b[..i + 8] == b[..i] + b[i..i + 8]
  {
  }

  /** The bytes up to the next marker; none when the data ends in the middle of one. */
  function UnstuffedFrom(data: seq<byte>, i: nat, raw: seq<byte>): Option<seq<byte>>
    requires i <= |data|
    decreases |data| - i
  {
    if i == |data| then Some(raw)
    else if data[i] != 0xff then UnstuffedFrom(data, i + 1, raw + [data[i]])
    else if i + 1 == |data| then None
    else if data[i + 1] == 0 then UnstuffedFrom(data, i + 2, raw + [0xff])
    else Some(raw)
  }

  method Unstuff(data: seq<byte>) returns (r: Option<seq<byte>>)
    ensures r == UnstuffedFrom(data, 0, [])
  {
    var raw: seq<byte> := [];
    var i := 0;
    while i < |data|
      invariant i <= |data| && UnstuffedFrom(data, 0, []) == UnstuffedFrom(data, i, raw)
    {
      var b := data[i];
      if b == 0xff {
        if i + 1 >= |data| {
          return None;
        }
        if data[i + 1] != 0 {
          break;
        }
        raw := raw + [0xff];
        i := i + 2;
      } else {
        raw := raw + [b];
        i := i + 1;
      }
    }
    return Some(raw);
  }

  /** Unstuffing undoes stuffing and stops at the marker. */
  lemma {:induction false} UnstuffStuffed(bytes: seq<byte>, rest: seq<byte>)
    requires rest == [] || (|rest| >= 2 && rest[0] == 0xff && rest[1] != 0)
    ensures UnstuffedFrom(Stuffed(bytes) + rest, 0, []) == Some(bytes)
  {
    UnstuffUpTo(bytes, rest, |bytes|);
    assert bytes[..|bytes|] == bytes;
  }

  lemma {:induction false} UnstuffUpTo(bytes: seq<byte>, rest: seq<byte>, k: nat)
    requires k <= |bytes|
    ensures Stuffed(bytes[..k]) <= Stuffed(bytes) + rest
    ensures UnstuffedFrom(Stuffed(bytes) + rest, 0, [])
         == UnstuffedFrom(Stuffed(bytes) + rest, |Stuffed(bytes[..k])|, bytes[..k])
    decreases k
  {
    if k > 0 {
      UnstuffUpTo(bytes, rest, k - 1);
      StuffedPrefix(bytes, k);
      assert bytes[..k][..k - 1] == bytes[..k - 1];
      assert bytes[..k] == bytes[..k - 1] + [bytes[k - 1]];
    } else {
      assert bytes[..0] == [];
    }
  }

  lemma {:induction false} StuffedPrefix(bytes: seq<byte>, k: nat)
    requires k <= |bytes|
    ensures Stuffed(bytes[..k]) <= Stuffed(bytes)
    decreases |bytes|
  {
    if k < |bytes| {
      var init := bytes[..|bytes| - 1];
      StuffedPrefix(init, k);
      assert init[..k] == bytes[..k];
    } else {
      assert bytes[..k] == bytes;
    }
  }

  // ----------------------------------------------------------------- reading

  /** Bit `i` of the data, high bit of each byte first; zero past the end. */
  function BitAt(raw: seq<byte>, i: nat): bool {
    if i / 8 < |raw| then raw[i / 8] as nat / Pow2(7 - i % 8) % 2 == 1 else false
  }

  /** The next `n` bits. */
  function Ahead(raw: seq<byte>, position: nat, n: nat): (b: Bits)
    ensures |b| == n
    decreases n
  {
    if n == 0 then [] else Ahead(raw, position, n - 1) + [BitAt(raw, position + n - 1)]
  }

  class BitReader {
    const raw: seq<byte>
    var bitpos: nat

    constructor (data: seq<byte>)
      ensures raw == data && bitpos == 0
    {
      raw := data;
      bitpos := 0;
    }

    method ReadBit() returns (bit: nat)
      modifies this
      ensures bitpos == old(bitpos) + 1
      ensures bit == if BitAt(raw, old(bitpos)) then 1 else 0
    {
      var b := if bitpos / 8 < |raw| then raw[bitpos / 8] as nat else 0;
      ZeroBit(7 - bitpos % 8);
      bit := b / Pow2(7 - bitpos % 8) % 2;
      bitpos := bitpos + 1;
    }

    method ReadBits(n: nat) returns (value: nat)
      modifies this
      ensures bitpos == old(bitpos) + n
      ensures value == MsbValue(Ahead(raw, old(bitpos), n))
    {
      hide BitAt;
      value := 0;
      for k := 0 to n
        invariant bitpos == old(bitpos) + k && value == MsbValue(Ahead(raw, old(bitpos), k))
      {
        MsbStep(Ahead(raw, old(bitpos), k), BitAt(raw, old(bitpos) + k));
        var bit := ReadBit();
        value := 2 * value + bit;
      }
    }

    /** Reads one symbol; none when no code fits. */
    method DecodeSymbol(table: map<(nat, nat), nat>) returns (r: Option<nat>)
      modifies this
      ensures match Decode(table, Ahead(raw, old(bitpos), 16), 1)
              case None => r == None
              case Some((symbol, used)) => r == Some(symbol) && bitpos == old(bitpos) + used
    {
      hide BitAt, MsbValue;
      ghost var b := Ahead(raw, bitpos, 16);
      var code := 0;
      MsbNone();
      for length := 1 to 17
        invariant bitpos == old(bitpos) + length - 1 && code == MsbValue(b[..length - 1])
        invariant Decode(table, b, 1) == Decode(table, b, length)
      {
        AheadBit(raw, old(bitpos), 16, length - 1);
        MsbStep(b[..length - 1], b[length - 1]);
        assert b[..length] == b[..length - 1] + [b[length - 1]];
        var bit := ReadBit();
        code := 2 * code + bit;
        if (length, code) in table {
          return Some(table[(length, code)]);
        }
      }
      return None;
    }
  }

  lemma ZeroBit(k: nat)
    ensures 0 / Pow2(k) % 2 == 0
  {
  }

  lemma MsbNone()
    ensures MsbValue([]) == 0
  {
  }

  lemma MsbStep(b: Bits, bit: bool)
    ensures MsbValue(b + [bit]) == 2 * MsbValue(b) + if bit then 1 else 0
  {
    assert (b + [bit])[..|b|] == b;
  }

  lemma {:induction false} AheadBit(raw: seq<byte>, position: nat, n: nat, k: nat)
    requires k < n
    ensures Ahead(raw, position, n)[k] == BitAt(raw, position + k)
    decreases n
  {
    hide BitAt;
    if k < n - 1 {
      AheadBit(raw, position, n - 1, k);
    }
  }

  /** Bit `k` of a code of `n` bits. */
  lemma {:induction false} CodeBit(v: nat, n: nat, k: nat)
    requires k < n
    ensures CodeBits(v, n)[k] <==> v / Pow2(n - 1 - k) % 2 == 1
    decreases n
  {
    hide CodeBits, Pow2;
    CodeBitsLast(v, n);
    if k < n - 1 {
      CodeBit(v / 2, n - 1, k);
      HalfFirst(v, n - 2 - k);
    } else {
      Halves(v, 0);
    }
  }

  lemma HalfFirst(v: nat, i: nat)
    ensures v / 2 / Pow2(i) == v / Pow2(i + 1)
  {
    var p := Pow2(i);
    var h := v / 2;
    var q, r := h / p, h % p;
    assert h == q * p + r;
    assert v == 2 * (q * p + r) + v % 2;
    assert q * (2 * p) == 2 * (q * p);
    DivExact(q, 2 * p, 2 * r + v % 2);
  }

  /** The reader sees the bits of the bytes. */
  lemma {:induction false} BytesBitAt(raw: seq<byte>, i: nat)
    requires i < 8 * |raw|
    ensures MsbBytes(raw)[i] == BitAt(raw, i)
    decreases |raw|
  {
    hide CodeBits, Pow2;
    var init := raw[..|raw| - 1];
    if i < 8 * |init| {
      BytesBitAt(init, i);
    } else {
      CodeBit(raw[|raw| - 1], 8, i - 8 * |init|);
    }
  }

  /** Within the data, what lies ahead is the next bits of the bytes. */
  lemma {:induction false} AheadBits(raw: seq<byte>, position: nat, n: nat)
    requires position + n <= 8 * |raw|
    ensures Ahead(raw, position, n) == MsbBytes(raw)[position..position + n]
    decreases n
  {
    hide BitAt, MsbBytes;
    if n > 0 {
      AheadBits(raw, position, n - 1);
      BytesBitAt(raw, position + n - 1);
    }
  }

  lemma {:induction false} AheadSplit(raw: seq<byte>, position: nat, k: nat, n: nat)
    requires k <= n
    ensures Ahead(raw, position, n) == Ahead(raw, position, k) + Ahead(raw, position + k, n - k)
    decreases n
  {
    hide BitAt;
    if k < n {
      AheadSplit(raw, position, k, n - 1);
    }
  }

  /** Reads the symbols of a stream: they are the ones that were written. */
  method ReadSymbols(reader: BitReader, table: map<(nat, nat), nat>, n: nat, ghost bits: seq<nat>, ghost values: seq<nat>,
                     ghost codes: map<nat, (nat, nat)>, ghost symbols: seq<nat>, ghost pad: Bits)
    returns (r: Option<seq<nat>>)
    requires TableOk(bits, values) && CodesOk(bits, values, codes) && DecoderOk(bits, values, table)
    requires n == |symbols| && forall s :: s in symbols ==> s in values
    requires reader.bitpos == 0 && MsbBytes(reader.raw) == SymbolsBits(codes, symbols) + pad
    modifies reader
    ensures r == Some(symbols)
  {
    hide TableOk, DecoderOk, Assigned, Decode, MsbBytes, SymbolsBits, Ahead;
    var read: seq<nat> := [];
    ghost var b := MsbBytes(reader.raw);
    for k := 0 to n
      invariant read == symbols[..k] && reader.bitpos <= |b|
      invariant b[reader.bitpos..] == SymbolsBits(codes, symbols[k..]) + pad
    {
      assert forall s :: s in symbols[k..] ==> s in symbols;
      NextSymbol(reader.raw, reader.bitpos, bits, values, codes, table, symbols[k..], pad);
      assert symbols[k..][1..] == symbols[k + 1..];
      var symbol := reader.DecodeSymbol(table);
      if symbol.None? {
        return None;
      }
      read := read + [symbol.value];
    }
    assert symbols[..n] == symbols;
    return Some(read);
  }

  /** At the start of a symbol's code the decoder finds that symbol and moves past it. */
  lemma NextSymbol(raw: seq<byte>, position: nat, bits: seq<nat>, values: seq<nat>, codes: map<nat, (nat, nat)>,
                   table: map<(nat, nat), nat>, symbols: seq<nat>, pad: Bits)
    requires TableOk(bits, values) && CodesOk(bits, values, codes) && DecoderOk(bits, values, table)
    requires symbols != [] && forall s :: s in symbols ==> s in values
    requires position <= 8 * |raw| && MsbBytes(raw)[position..] == SymbolsBits(codes, symbols) + pad
    ensures symbols[0] in codes
    ensures var used := codes[symbols[0]].1;
            && Decode(table, Ahead(raw, position, 16), 1) == Some((symbols[0], used))
            && position + used <= 8 * |raw|
            && MsbBytes(raw)[position + used..] == SymbolsBits(codes, symbols[1..]) + pad
  {
    hide TableOk, DecoderOk, Decode, CodeBits, MsbBytes, SymbolsBits, Ahead;
    assert symbols[0] in symbols;
    SymbolsFirst(codes, symbols, pad);
    NextCode(raw, position, bits, values, codes, table, symbols[0], SymbolsBits(codes, symbols[1..]) + pad);
  }

  lemma NextCode(raw: seq<byte>, position: nat, bits: seq<nat>, values: seq<nat>, codes: map<nat, (nat, nat)>,
                 table: map<(nat, nat), nat>, s: nat, more: Bits)
    requires TableOk(bits, values) && CodesOk(bits, values, codes) && DecoderOk(bits, values, table) && s in values
    requires position <= 8 * |raw| && MsbBytes(raw)[position..] == CodeBits(codes[s].0, codes[s].1) + more
    ensures var used := codes[s].1;
            && Decode(table, Ahead(raw, position, 16), 1) == Some((s, used))
            && position + used <= 8 * |raw| && MsbBytes(raw)[position + used..] == more
  {
    hide TableOk, DecoderOk, Decode, CodeBits, MsbBytes, Codes, Total, Ahead;
    var k :| 0 <= k < |values| && values[k] == s;
    var (code, used) := codes[s];
    Slices(MsbBytes(raw), position, CodeBits(code, used), more);
    AheadBits(raw, position, used);
    AheadSplit(raw, position, used, 16);
    DecodeCode(bits, values, table, k, code, used, Ahead(raw, position + used, 16 - used));
  }

  /** The bits of a number are read as that number. */
  lemma NextBits(raw: seq<byte>, position: nat, v: nat, n: nat, more: Bits)
    requires position <= 8 * |raw| && v < Pow2(n) && MsbBytes(raw)[position..] == CodeBits(v, n) + more
    ensures MsbValue(Ahead(raw, position, n)) == v
    ensures position + n <= 8 * |raw| && MsbBytes(raw)[position + n..] == more
  {
    hide MsbBytes, MsbValue, Ahead, Pow2, CodeBits;
    Slices(MsbBytes(raw), position, CodeBits(v, n), more);
    AheadBits(raw, position, n);
    MsbValueOfCode(v, n);
  }

  lemma SymbolsFirst(codes: map<nat, (nat, nat)>, symbols: seq<nat>, pad: Bits)
    requires symbols != [] && forall s :: s in symbols ==> s in codes
    ensures SymbolsBits(codes, symbols) + pad
         == CodeBits(codes[symbols[0]].0, codes[symbols[0]].1) + (SymbolsBits(codes, symbols[1..]) + pad)
  {
    hide CodeBits;
  }

  lemma Slices(b: Bits, position: nat, c: Bits, more: Bits)
    requires position <= |b| && b[position..] == c + more
    ensures position + |c| <= |b| && b[position..position + |c|] == c && b[position + |c|..] == more
  {
    assert b[position..position + |c|] == b[position..][..|c|];
    assert b[position + |c|..] == b[position..][|c|..];
  }

  /**
   A whole scan: the table made from the counts, the symbols written with it,
   and read back from the stuffed bytes that end at a marker.
   */
  method WriteAndRead(counts: seq<nat>, symbols: seq<nat>, marker: byte, tail: seq<byte>)
    returns (r: Option<seq<nat>>, ghost sizes: seq<nat>)
    requires |counts| == 256 && HuffmanCost.Sum(counts + [1]) <= HuffmanMerge.UNLIMITED && marker != 0
    requires forall s :: s in symbols ==> s < 256 && counts[s] > 0
    ensures r.Some? ==> r.value == symbols
    ensures |sizes| == HuffmanMerge.SYMBOLS
    ensures r.None? <==>
      (forall s :: 0 <= s < 256 ==> counts[s] == 0) || exists x :: 0 <= x < HuffmanMerge.SYMBOLS && sizes[x] > 32
    ensures HuffmanCost.Sum(counts + [1]) < 9_227_465 && (exists s :: 0 <= s < 256 && counts[s] > 0) ==> r.Some?
  {
    hide TableOk, DecoderOk, Assigned, MsbBytes, Pow2, Stuffed, SymbolsBits, UnstuffedFrom, HuffmanCost.Sum,
      HuffmanCost.Optimal, Ordered;
    var table;
    table, sizes := OptimalTable(counts);
    if table.None? {
      return None, sizes;
    }
    var (bits, values) := table.value;
    var codes := CodeTable(bits, values);
    TableCodes(bits, values, codes);
    forall s | s in symbols ensures s in codes && codes[s].0 < Pow2(codes[s].1) {
      CodeFits(bits, values, codes, s);
    }
    var buffer := EmitSymbols(codes, symbols);
    var out;
    ghost var bytes, pad;
    out, bytes, pad := Pack(buffer);
    var decoder := BuildDecoder(bits, values);
    UnstuffStuffed(bytes, [0xff, marker] + tail);
    var raw := Unstuff(out + ([0xff, marker] + tail));
    var reader := new BitReader(raw.value);
    r := ReadSymbols(reader, decoder, |symbols|, bits, values, codes, symbols, pad);
  }

  lemma TableCodes(bits: seq<nat>, values: seq<nat>, codes: map<nat, (nat, nat)>)
    requires TableOk(bits, values)
    requires forall s :: s in codes <==> s in values
    requires forall k :: 0 <= k < |values| ==> values[k] in codes && Assigned(bits, k, codes[values[k]].0, codes[values[k]].1)
    ensures CodesOk(bits, values, codes)
  {
  }

  lemma CodeFits(bits: seq<nat>, values: seq<nat>, codes: map<nat, (nat, nat)>, s: nat)
    requires TableOk(bits, values) && CodesOk(bits, values, codes) && s in values
    ensures s in codes && codes[s].0 < Pow2(codes[s].1)
  {
    hide Codes, Total, Pow2;
    var k :| 0 <= k < |values| && values[k] == s;
    AssignedRange(bits, k, codes[s].0, codes[s].1);
    ShortAllAlong(bits, codes[s].1, 16);
  }
}
