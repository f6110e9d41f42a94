/** The zlib compressor: bit writer, hash-chain matcher and the fixed Huffman code. */
module Deflate {
  import opened Options
  import opened LittleEndian
  import opened Arithmetic
  import opened BitStreams
  import opened DeflateFormat
  import opened Adler

  const HASH_SIZE := 32768
  const MAX_CHAIN := 24

  /** The low byte of a buffer of bits, moved to the bytes before it. */
  lemma PutByte(before: seq<byte>, buffer: nat, count: nat)
    requires 8 <= count && buffer < Pow2(count)
    ensures buffer / 256 < Pow2(count - 8)
    ensures BytesBits(before + [(buffer % 256) as byte]) + BitsOf(buffer / 256, count - 8)
         == BytesBits(before) + BitsOf(buffer, count)
  {
    hide Pow2, BitsOf, BytesBits;
    ShiftBound(buffer, count);
    BitsSplit(buffer, count - 8);
    BytesBitsJoin(before, [(buffer % 256) as byte]);
    BytesBitsOne(buffer % 256);
    Associate(BytesBits(before), BitsOf(buffer % 256, 8), BitsOf(buffer / 256, count - 8));
  }

  lemma Associate(a: Bits, b: Bits, c: Bits)
    ensures a + b + c == a + (b + c)
  {
  }

  /** Packs bits into a byte buffer, lowest bit first. */
  class BitWriter {
    const out: array<byte>
    var position: nat
    /** Bits not yet written, and how many. */
    var buffer: nat
    var count: nat
    /** The output was too small. */
    var failed: bool

    constructor (output: array<byte>)
      ensures out == output && Valid() && !failed && Written() == []
    {
      out := output;
      position, buffer, count, failed := 0, 0, 0, false;
    }

    ghost predicate Valid()
      reads this
    {
      position <= out.Length && count < 8 && buffer < Pow2(count)
    }

    /** Every bit put so far. */
    ghost function Written(): (b: Bits)
      requires position <= out.Length
      reads this, out
      ensures |b| == 8 * position + count
    {
      BytesBits(out[..position]) + BitsOf(buffer, count)
    }

    /** Adds the low `bits` bits of a value, or fails if they complete a byte the output has no room for. */
    method Put(value: nat, bits: nat)
      requires Valid() && bits <= 16 && value < Pow2(bits)
      modifies this, out
      ensures Valid()
      ensures old(failed) ==> failed
      ensures !failed ==> Written() == old(Written()) + BitsOf(value, bits)
      ensures !old(failed) ==> (failed <==> (|old(Written())| + bits) / 8 > out.Length)
    {
      hide Pow2, BitsOf, BytesBits;
      ghost var target := Written() + BitsOf(value, bits);
      JoinBound(buffer, count, value, bits);
      BitsJoin(buffer, count, value, bits);
      buffer := buffer + Pow2(count) * value;
      count := count + bits;
      while count >= 8
        invariant position <= out.Length && buffer < Pow2(count) && failed == old(failed)
        invariant BytesBits(out[..position]) + BitsOf(buffer, count) == target
        decreases count
      {
        if position >= out.Length {
          failed, count, buffer := true, 0, 0;
          Pow2Values();
          return;
        }
        ghost var before := out[..position];
        PutByte(before, buffer, count);
        out[position] := buffer % 256;
        assert out[..position + 1] == before + [(buffer % 256) as byte];
        position := position + 1;
        buffer := buffer / 256;
        count := count - 8;
      }
    }

    /** Adds a Huffman code, highest bit first. */
    method PutCode(code: nat, bits: nat)
      requires Valid() && 1 <= bits <= 16 && code < Pow2(bits)
      modifies this, out
      ensures Valid()
      ensures old(failed) ==> failed
      ensures !failed ==> Written() == old(Written()) + CodeBits(code, bits)
      ensures !old(failed) ==> (failed <==> (|old(Written())| + bits) / 8 > out.Length)
    {
      hide Pow2, BitsOf, CodeBits;
      ReverseDown(code, bits);
      ReverseBitsBound(code, bits);
      ReverseIsCode(code, bits);
      Put(ReverseBits(code, 32) / Pow2(32 - bits), bits);
    }

    /** Fills the last byte with zero bits. */
    method Flush()
      requires Valid()
      modifies this, out
      ensures Valid()
      ensures old(failed) ==> failed
      ensures !failed ==> count == 0 && Written() == old(Written()) + BitsOf(0, (8 - old(count)) % 8)
      ensures !old(failed) ==> (failed <==> (|old(Written())| + 7) / 8 > out.Length)
    {
      hide Pow2, BytesBits;
      if count > 0 {
        Put(0, 8 - count);
      }
    }

    method PutSymbol(symbol: nat)
      requires Valid() && symbol < 288
      modifies this, out
      ensures Valid()
      ensures old(failed) ==> failed
      ensures !failed ==> Written() == old(Written()) + SymbolBits(symbol)
      ensures !old(failed) ==> (failed <==> (|old(Written())| + |SymbolBits(symbol)|) / 8 > out.Length)
    {
      hide Pow2, CodeBits, BitsOf, BytesBits, Written;
      Pow2Values();
      if symbol <= 143 {
        PutCode(0x30 + symbol, 8);
      } else if symbol <= 255 {
        PutCode(0x190 + symbol - 144, 9);
      } else if symbol <= 279 {
        PutCode(symbol - 256, 7);
      } else {
        PutCode(0xc0 + symbol - 280, 8);
      }
    }

    /** Adds a token: a literal, or a length and a distance with their extra bits. */
    method PutToken(t: Token)
      requires Valid() && TokenOk(t)
      modifies this, out
      ensures Valid()
      ensures old(failed) ==> failed
      ensures !failed ==> Written() == old(Written()) + TokenBits(t)
      ensures !old(failed) ==> (failed <==> (|old(Written())| + |TokenBits(t)|) / 8 > out.Length)
    {
      hide Pow2, CodeBits, BitsOf, LengthBase, LengthExtra, DistanceBase, DistanceExtra, SymbolBits, LastAtMost,
        BytesBits;
      match t
      case Literal(b) =>
        PutSymbol(b);
      case Match(length, distance) =>
        var i := LengthIndex(length);
        PutSymbol(257 + i);
        PutRest(length - LengthBase(i), LengthExtra(i), i, distance, length);
    }

    /** What follows the length symbol of a copy. */
    method PutRest(extra: nat, extraBits: nat, i: nat, distance: nat, ghost length: nat)
      requires Valid() && 1 <= distance <= WINDOW && MIN_MATCH <= length <= MAX_MATCH && i == LengthIndex(length)
      requires extra == length - LengthBase(i) && extraBits == LengthExtra(i)
      modifies this, out
      ensures Valid()
      ensures old(failed) ==> failed
      ensures !failed ==> Written() == old(Written()) + RestBits(length, distance)
      ensures !old(failed) ==> (failed <==> (|old(Written())| + |RestBits(length, distance)|) / 8 > out.Length)
    {
      hide Pow2, CodeBits, BitsOf, LengthBase, LengthExtra, DistanceBase, DistanceExtra, LastAtMost, BytesBits, Written;
      Pow2Values();
      LengthFits(length);
      ExtraBounds(i, 0);
      Put(extra, extraBits);
      var j := DistanceIndex(distance);
      DistanceFits(distance);
      ExtraBounds(0, j);
      PutCode(j, 5);
      Put(distance - DistanceBase(j), DistanceExtra(j));
    }
  }

  lemma JoinBound(a: nat, m: nat, b: nat, n: nat)
    requires a < Pow2(m) && b < Pow2(n)
    ensures a + Pow2(m) * b < Pow2(m + n)
  {
    hide Pow2;
    Pow2Add(m, n);
    MulMonotone(b + 1, Pow2(n), Pow2(m));
    Distribute(b, 1, Pow2(m));
  }

  lemma ShiftBound(v: nat, n: nat)
    requires n >= 8 && v < Pow2(n)
    ensures v / 256 < Pow2(n - 8)
  {
    Pow2Values();
    Pow2Add(8, n - 8);
  }

  lemma ReverseDown(code: nat, bits: nat)
    requires 1 <= bits <= 16 && code < Pow2(bits)
    ensures ReverseBits(code, 32) / Pow2(32 - bits) == ReverseBits(code, bits)
  {
    ReverseShift(code, bits, 32);
    DivExact(ReverseBits(code, bits), Pow2(32 - bits), 0);
  }

  lemma ExtraBounds(i: nat, j: nat)
    ensures LengthExtra(i) <= 5 && DistanceExtra(j) <= 13
  {
  }

  // -------------------------------------------------------------- matching

  /** Spreads three bytes over the table: a 32-bit product, its top fifteen bits. */
  function Hash3(input: seq<byte>, at: nat): (h: nat)
    requires at + MIN_MATCH <= |input|
    ensures h < HASH_SIZE
  {
    var value: int := input[at] + 0x100 * (input[at + 1] as int) + 0x1_0000 * (input[at + 2] as int);
    value * 0x9e37_79b1 % 0x1_0000_0000 / 0x2_0000
  }

  /** One more than the last position before `position` whose three bytes have that hash; zero if there is none. */
  function Latest(input: seq<byte>, hash: nat, position: nat): (c: nat)
    ensures c <= position
  {
    if position == 0 then 0
    else if position - 1 + MIN_MATCH <= |input| && Hash3(input, position - 1) == hash then position
    else Latest(input, hash, position - 1)
  }

  /** The `j`-th nearest position before `position` with the same hash, plus one; zero past the last. */
  function Candidate(input: seq<byte>, position: nat, j: nat): (c: nat)
    requires position + MIN_MATCH <= |input|
    ensures c <= position
  {
    var hash := Hash3(input, position);
    if j == 0 then Latest(input, hash, position)
    else
      var c := Candidate(input, position, j - 1);
      if c == 0 then 0 else Latest(input, hash, c - 1)
  }

  /** The heads lead to the last position of each hash, and every position still in the window to the one before it. */
  ghost predicate Indexed(input: seq<byte>, position: nat, head: seq<nat>, previous: seq<nat>) {
    && |head| == HASH_SIZE && |previous| == WINDOW
    && (forall h :: 0 <= h < HASH_SIZE ==> head[h] == Latest(input, h, position))
    && (forall q: nat :: q < position && Near(input, position, q) ==>
          previous[q % WINDOW] == Latest(input, Hash3(input, q), q))
  }

  predicate Near(input: seq<byte>, position: nat, q: nat) {
    q <= position <= q + WINDOW && q + MIN_MATCH <= |input|
  }

  lemma {:induction false} LatestHash(input: seq<byte>, hash: nat, position: nat)
    ensures var c := Latest(input, hash, position);
            c > 0 ==> c - 1 + MIN_MATCH <= |input| && Hash3(input, c - 1) == hash
  {
    hide Hash3;
    if position > 0 {
      LatestHash(input, hash, position - 1);
    }
  }

  lemma {:induction false} CandidateHash(input: seq<byte>, position: nat, j: nat)
    requires position + MIN_MATCH <= |input|
    ensures var c := Candidate(input, position, j);
            c > 0 ==> c - 1 + MIN_MATCH <= |input| && Hash3(input, c - 1) == Hash3(input, position)
  {
    hide Hash3, Latest;
    if j == 0 {
      LatestHash(input, Hash3(input, position), position);
    } else if Candidate(input, position, j - 1) > 0 {
      LatestHash(input, Hash3(input, position), Candidate(input, position, j - 1) - 1);
    }
  }

  lemma {:induction false} CandidatesFall(input: seq<byte>, position: nat, i: nat, j: nat)
    requires position + MIN_MATCH <= |input| && i <= j
    ensures Candidate(input, position, j) <= Candidate(input, position, i)
    decreases j
  {
    hide Hash3, Latest;
    if i < j {
      CandidatesFall(input, position, i, j - 1);
    }
  }

  lemma SameSlot(p: nat, q: nat)
    requires q < p < q + WINDOW
    ensures p % WINDOW != q % WINDOW
  {
  }

  lemma LatestStep(input: seq<byte>, h: nat, at: nat)
    ensures Latest(input, h, at + 1) ==
            if at + MIN_MATCH <= |input| && Hash3(input, at) == h then at + 1 else Latest(input, h, at)
  {
    hide Hash3;
  }

  lemma PreviousStep(input: seq<byte>, at: nat, head: seq<nat>, previous: seq<nat>, q: nat)
    requires Indexed(input, at, head, previous) && q < at && Near(input, at + 1, q)
    ensures previous[q % WINDOW] == Latest(input, Hash3(input, q), q) && q % WINDOW != at % WINDOW
  {
    hide Hash3, Latest;
    SameSlot(at, q);
    assert Near(input, at, q);
  }

  lemma IndexStep(input: seq<byte>, at: nat, head: seq<nat>, previous: seq<nat>)
    requires Indexed(input, at, head, previous)
    ensures if at + MIN_MATCH > |input| then Indexed(input, at + 1, head, previous)
            else
              var h := Hash3(input, at);
              Indexed(input, at + 1, head[h := at + 1], previous[at % WINDOW := head[h]])
  {
    hide Hash3, Latest;
    var known := at + MIN_MATCH <= |input|;
    var h := if known then Hash3(input, at) else 0;
    var head' := if known then head[h := at + 1] else head;
    var previous' := if known then previous[at % WINDOW := head[h]] else previous;
    forall k | 0 <= k < HASH_SIZE ensures head'[k] == Latest(input, k, at + 1) {
      LatestStep(input, k, at);
    }
    forall q: nat | q < at + 1 && Near(input, at + 1, q)
      ensures previous'[q % WINDOW] == Latest(input, Hash3(input, q), q)
    {
      if q < at {
        PreviousStep(input, at, head, previous, q);
      }
    }
  }

  /** The bytes from `at` on and from `position` on agree for `n` bytes. */
  ghost predicate Repeats(input: seq<byte>, at: nat, position: nat, n: nat) {
    at <= position && position + n <= |input| && input[at..at + n] == input[position..position + n]
  }

  method CommonLength(input: seq<byte>, at: nat, position: nat, limit: nat) returns (n: nat)
    requires at < position && position + limit <= |input|
    ensures n <= limit && Repeats(input, at, position, n)
    ensures n < limit ==> !Repeats(input, at, position, n + 1)
  {
    n := 0;
    while n < limit && input[at + n] == input[position + n]
      invariant n <= limit && Repeats(input, at, position, n)
    {
      assert input[at..at + n + 1] == input[at..at + n] + [input[at + n]];
      assert input[position..position + n + 1] == input[position..position + n] + [input[position + n]];
      n := n + 1;
    }
    if n < limit {
      assert input[at..at + n + 1][n] != input[position..position + n + 1][n];
    }
  }

  /** The `j`-th candidate, if there is one in the window, does not agree for more than `n` bytes. */
  ghost predicate NoLonger(input: seq<byte>, position: nat, j: nat, n: nat)
    requires position + MIN_MATCH <= |input|
  {
    var c := Candidate(input, position, j);
    c > 0 && position - (c - 1) <= WINDOW ==> !Repeats(input, c - 1, position, n + 1)
  }

  /** None of the first candidates in the window agrees for more than `n` bytes. */
  ghost predicate NoneLongerThan(input: seq<byte>, position: nat, n: nat)
    requires position + MIN_MATCH <= |input|
  {
    forall j: nat :: j < MAX_CHAIN ==> NoLonger(input, position, j, n)
  }

  lemma HeadLeads(input: seq<byte>, position: nat, head: seq<nat>, previous: seq<nat>)
    requires Indexed(input, position, head, previous) && position + MIN_MATCH <= |input|
    ensures head[Hash3(input, position)] == Candidate(input, position, 0)
  {
    hide Hash3;
  }

  lemma PreviousLeads(input: seq<byte>, position: nat, head: seq<nat>, previous: seq<nat>, at: nat)
    requires Indexed(input, position, head, previous) && at < position <= at + WINDOW && at + MIN_MATCH <= |input|
    ensures previous[at % WINDOW] == Latest(input, Hash3(input, at), at)
  {
    hide Hash3, Latest;
    assert Near(input, position, at);
  }

  /** A shorter agreement excludes a longer one. */
  lemma RepeatsLess(input: seq<byte>, at: nat, position: nat, m: nat, n: nat)
    requires Repeats(input, at, position, n) && m <= n
    ensures Repeats(input, at, position, m)
  {
    assert input[at..at + m] == input[at..at + n][..m];
    assert input[position..position + m] == input[position..position + n][..m];
  }

  lemma LongerToo(input: seq<byte>, position: nat, j: nat, m: nat, n: nat)
    requires position + MIN_MATCH <= |input| && m <= n && NoLonger(input, position, j, m)
    ensures NoLonger(input, position, j, n)
  {
    hide Hash3, Candidate, Repeats;
    var c := Candidate(input, position, j);
    if c > 0 && Repeats(input, c - 1, position, n + 1) {
      RepeatsLess(input, c - 1, position, m + 1, n + 1);
    }
  }

  lemma StillNoneLonger(input: seq<byte>, position: nat, m: nat, n: nat)
    requires position + MIN_MATCH <= |input| && m <= n && NoneLongerThan(input, position, m)
    ensures NoneLongerThan(input, position, n)
  {
    hide NoLonger;
    forall j: nat | j < MAX_CHAIN ensures NoLonger(input, position, j, n) {
      LongerToo(input, position, j, m, n);
    }
  }

  lemma NoneLonger(input: seq<byte>, position: nat, j: nat, length: nat, n: nat)
    requires position + MIN_MATCH <= |input| && n <= length
    requires Candidate(input, position, j) > 0 && !Repeats(input, Candidate(input, position, j) - 1, position, n + 1)
    ensures NoLonger(input, position, j, length)
  {
    hide Hash3, Candidate, Repeats;
    var at := Candidate(input, position, j) - 1;
    if Repeats(input, at, position, length + 1) {
      RepeatsLess(input, at, position, n + 1, length + 1);
    }
  }

  /** The longest match on the hash chain, within the window and the first few candidates. */
  method FindMatch(input: seq<byte>, position: nat, head: array<nat>, previous: array<nat>)
    returns (length: nat, distance: nat)
    requires position < |input| && head.Length == HASH_SIZE && previous.Length == WINDOW
    requires Indexed(input, position, head[..], previous[..])
    ensures length <= MAX_MATCH && position + length <= |input|
    ensures length > 0 ==>
      1 <= distance <= WINDOW && distance <= position && Repeats(input, position - distance, position, length)
    ensures length < MAX_MATCH && position + length < |input| && position + MIN_MATCH <= |input| ==>
      NoneLongerThan(input, position, length)
  {
    hide Repeats, Hash3, Latest, Indexed;
    length, distance := 0, 0;
    if position + MIN_MATCH > |input| {
      return;
    }
    HeadLeads(input, position, head[..], previous[..]);
    var candidate: nat := head[Hash3(input, position)];
    var chain := 0;
    var limit := if |input| - position <= MAX_MATCH then |input| - position else MAX_MATCH;
    while candidate != 0 && chain < MAX_CHAIN
      invariant 0 <= chain <= MAX_CHAIN && candidate == Candidate(input, position, chain) && length < limit
      invariant forall j: nat :: j < chain ==> NoLonger(input, position, j, length)
      invariant length > 0 ==>
        1 <= distance <= WINDOW && distance <= position && Repeats(input, position - distance, position, length)
      decreases MAX_CHAIN - chain
    {
      var at := candidate - 1;
      if position - at > WINDOW {
        forall j: nat | chain <= j ensures NoLonger(input, position, j, length) {
          CandidatesFall(input, position, chain, j);
        }
        return;
      }
      CandidateHash(input, position, chain);
      PreviousLeads(input, position, head[..], previous[..], at);
      var n := CommonLength(input, at, position, limit);
      if n > length {
        forall j: nat | j < chain ensures NoLonger(input, position, j, n) {
          LongerToo(input, position, j, length, n);
        }
        length, distance := n, position - at;
        if n == limit {
          return;
        }
      }
      NoneLonger(input, position, chain, length, n);
      candidate := previous[at % WINDOW];
      chain := chain + 1;
    }
    forall j: nat | chain <= j < MAX_CHAIN ensures NoLonger(input, position, j, length) {
      CandidatesFall(input, position, chain, j);
    }
  }

  /** Enters the positions a token covers into the hash chains. */
  method IndexPositions(input: seq<byte>, position: nat, advance: nat, head: array<nat>, previous: array<nat>)
    requires position + advance <= |input| && head.Length == HASH_SIZE && previous.Length == WINDOW && head != previous
    requires Indexed(input, position, head[..], previous[..])
    modifies head, previous
    ensures Indexed(input, position + advance, head[..], previous[..])
  {
    hide Hash3, Indexed;
    for offset := 0 to advance
      invariant Indexed(input, position + offset, head[..], previous[..])
    {
      var at := position + offset;
      IndexStep(input, at, head[..], previous[..]);
      if at + MIN_MATCH <= |input| {
        var hash := Hash3(input, at);
        previous[at % WINDOW] := head[hash];
        head[hash] := at + 1;
      }
    }
  }

  /** The token for the next bytes: the longest match there is among the candidates, or a literal when none is long enough. */
  method NextToken(input: seq<byte>, position: nat, head: array<nat>, previous: array<nat>) returns (t: Token)
    requires position < |input| && head.Length == HASH_SIZE && previous.Length == WINDOW
    requires Indexed(input, position, head[..], previous[..])
    ensures TokenOk(t) && 1 <= Span(t) && position + Span(t) <= |input|
    ensures t.Match? ==> t.distance <= position
    ensures Apply(t, input[..position]) == input[..position + Span(t)]
    ensures position + MIN_MATCH <= |input| && (t.Match? ==> t.length < MAX_MATCH && position + t.length < |input|) ==>
      NoneLongerThan(input, position, if t.Match? then t.length else MIN_MATCH - 1)
  {
    hide NoLonger, Hash3, Indexed;
    var length, distance := FindMatch(input, position, head, previous);
    if length >= MIN_MATCH {
      CopyIsInput(input, position, length, distance);
      return Match(length, distance);
    }
    assert input[..position] + [input[position]] == input[..position + 1];
    if position + MIN_MATCH <= |input| {
      StillNoneLonger(input, position, length, MIN_MATCH - 1);
    }
    return Literal(input[position]);
  }

  // ------------------------------------------------------------ the stream

  /** The zlib header and the header of the one block. */
  function HeaderBits(): Bits {
    BitsOf(0x78, 8) + BitsOf(0x9c, 8) + BitsOf(1, 1) + BitsOf(1, 2)
  }

  /** What has been written stands for the input up to `position`. */
  ghost predicate Encodes(written: Bits, tokens: seq<Token>, input: seq<byte>, position: nat) {
    && position <= |input|
    && TokensOk(tokens) && Reaches(tokens, []) && Expand(tokens, []) == input[..position]
    && written == HeaderBits() + TokensBits(tokens)
    && |written| <= 19 + 9 * position
  }

  lemma EncodesStart(input: seq<byte>)
    ensures Encodes(HeaderBits(), [], input, 0)
  {
  }

  lemma EncodesStep(written: Bits, tokens: seq<Token>, input: seq<byte>, position: nat, t: Token)
    requires Encodes(written, tokens, input, position)
    requires TokenOk(t) && position + Span(t) <= |input| && (t.Match? ==> t.distance <= position)
    requires Apply(t, input[..position]) == input[..position + Span(t)]
    ensures Encodes(written + TokenBits(t), tokens + [t], input, position + Span(t))
  {
    hide TokenBits, HeaderBits, Apply;
    TokensAppend(tokens, t);
    ExpandAppend(tokens, t, []);
    TokenCost(t);
  }

  /** A finished stream decodes to the input. */
  lemma StreamDecodes(adler: seq<byte> -> u32, s: seq<byte>, tokens: seq<Token>, input: seq<byte>, rest: Bits)
    requires TokensOk(tokens) && Reaches(tokens, []) && Expand(tokens, []) == input
    requires 32 <= |rest| < 40 && |s| >= 4 && Trailer(s) == adler(input)
    requires BytesBits(s) == HeaderBits() + (TokensBits(tokens) + SymbolBits(256) + rest)
    ensures ZlibDecode(adler, s) == Some(input) && |s| >= 6 && s[0] == 0x78 && s[1] == 0x9c
  {
    hide InflateBlock, TokensBits, SymbolBits, Expand, Reaches, BytesBits, HeaderBits, Value, Trailer;
    var body := TokensBits(tokens) + SymbolBits(256) + rest;
    StreamHeader(s, body);
    SmallBits();
    InflateTokens(tokens, [], rest);
  }

  lemma StreamHeader(s: seq<byte>, body: Bits)
    requires BytesBits(s) == HeaderBits() + body && |body| >= 32
    ensures |s| >= 6 && s[0] == 0x78 && s[1] == 0x9c
    ensures var b := BytesBits(s[2..]); |b| >= 3 && b[..1] == [true] && b[1..3] == [true, false] && b[3..] == body
  {
    hide BitsOf, BytesBits;
    BytesBitsHead(s);
    BytesBitsHead(s[1..]);
    assert s[1..][1..] == s[2..];
    var all, b := BytesBits(s), BytesBits(s[2..]);
    assert all[..8] == BitsOf(s[0], 8) && all[..8] == BitsOf(0x78, 8);
    assert all[8..16] == BitsOf(s[1], 8) && all[8..16] == BitsOf(0x9c, 8);
    ByteBitsUnique(s[0], 0x78);
    ByteBitsUnique(s[1], 0x9c);
    SmallBits();
    assert all[16..] == b;
    assert all[16..] == [true] + [true, false] + body;
  }

  lemma BytesBitsHead(s: seq<byte>)
    requires s != []
    ensures BytesBits(s) == BitsOf(s[0], 8) + BytesBits(s[1..])
  {
  }

  lemma SmallBits()
    ensures BitsOf(1, 1) == [true] && BitsOf(1, 2) == [true, false]
    ensures Value([true]) == 1 && Value([true, false]) == 1
  {
    assert BitsOf(1, 2) == [true] + BitsOf(0, 1);
    assert [true][1..] == [] && [true, false][1..] == [false] && [false][1..] == [];
  }

  lemma Finish(written: Bits, tokens: seq<Token>, input: seq<byte>, pad: Bits, trailer: Bits, s: seq<byte>)
    requires Encodes(written, tokens, input, |input|) && |pad| < 8
    requires trailer == BytesBits(BigEndian(Checksum(input)))
    requires BytesBits(s) == written + SymbolBits(256) + pad + trailer
    ensures ZlibDecode(Checksum, s) == Some(input)
    ensures |s| >= 6 && s[0] == 0x78 && s[1] == 0x9c && Trailer(s) == Checksum(input)
  {
    hide TokensBits, SymbolBits, BigEndian, Expand, Reaches, BytesBits, HeaderBits, Checksum, ZlibDecode, Trailer;
    var rest, bytes := pad + trailer, BigEndian(Checksum(input));
    assert BytesBits(s) == HeaderBits() + (TokensBits(tokens) + SymbolBits(256) + rest);
    BytesBitsEnd(s, written + SymbolBits(256) + pad, bytes);
    BigEndianValue(s[..|s| - 4], Checksum(input));
    assert input[..|input|] == input;
    StreamDecodes(Checksum, s, tokens, input, rest);
  }

  method WriteHeader(writer: BitWriter)
    requires writer.Valid() && !writer.failed && writer.Written() == []
    modifies writer, writer.out
    ensures writer.Valid()
    ensures !writer.failed ==> writer.Written() == HeaderBits()
    ensures writer.failed <==> writer.out.Length < 2
  {
    hide BitsOf, Pow2;
    Pow2Values();
    writer.Put(0x78, 8);
    writer.Put(0x9c, 8);
    writer.Put(1, 1);
    writer.Put(1, 2);
  }

  /** Writes the whole input as tokens, unless the output runs out. */
  method WriteTokens(writer: BitWriter, input: seq<byte>, head: array<nat>, previous: array<nat>)
    returns (ghost tokens: seq<Token>)
    requires writer.Valid() && (!writer.failed ==> writer.Written() == HeaderBits())
    requires writer.failed ==> writer.out.Length < 2
    requires head.Length == HASH_SIZE && previous.Length == WINDOW && head != previous
    requires Indexed(input, 0, head[..], previous[..])
    modifies writer, writer.out, head, previous
    ensures writer.Valid()
    ensures !writer.failed ==> Encodes(writer.Written(), tokens, input, |input|)
    ensures writer.failed ==> (19 + 9 * |input|) / 8 > writer.out.Length
  {
    hide Pow2, BitsOf, BytesBits, TokenBits, Encodes, HeaderBits, Apply, BitWriter.Written, Indexed;
    tokens := [];
    EncodesStart(input);
    var position := 0;
    while position < |input|
      invariant writer.Valid() && position <= |input|
      invariant Indexed(input, position, head[..], previous[..])
      invariant !writer.failed ==> Encodes(writer.Written(), tokens, input, position)
      invariant writer.failed ==> (19 + 9 * |input|) / 8 > writer.out.Length
    {
      ghost var written := writer.Written();
      var t := NextToken(input, position, head, previous);
      if !writer.failed {
        EncodesStep(written, tokens, input, position, t);
        EncodesSize(written + TokenBits(t), tokens + [t], input, position + Span(t));
      }
      writer.PutToken(t);
      tokens := tokens + [t];
      IndexPositions(input, position, Span(t), head, previous);
      position := position + Span(t);
      if writer.failed {
        return;
      }
    }
  }

  lemma EncodesSize(written: Bits, tokens: seq<Token>, input: seq<byte>, position: nat)
    requires Encodes(written, tokens, input, position)
    ensures |written| <= 19 + 9 * position && position <= |input|
  {
  }

  /** The end-of-block symbol, padding to a whole byte, and the checksum. */
  method WriteEnd(writer: BitWriter, checksum: u32) returns (ghost pad: Bits)
    requires writer.Valid()
    modifies writer, writer.out
    ensures writer.Valid()
    ensures old(writer.failed) ==> writer.failed
    ensures !writer.failed ==>
      && writer.count == 0 && |pad| < 8
      && writer.Written() == old(writer.Written()) + SymbolBits(256) + pad + BytesBits(BigEndian(checksum))
    ensures !old(writer.failed) ==>
      (writer.failed <==> (|old(writer.Written())| + 7 + 7) / 8 + 4 > writer.out.Length)
  {
    hide Pow2, BitsOf, BytesBits, SymbolBits, BitWriter.Written;
    Pow2Values();
    SymbolSize();
    writer.PutSymbol(256);
    pad := BitsOf(0, (8 - writer.count) % 8);
    writer.Flush();
    ghost var written, failed := writer.Written(), writer.failed;
    var bytes := BigEndian(checksum);
    BytesBitsNone();
    for k := 0 to 4
      invariant writer.Valid() && (failed ==> writer.failed)
      invariant !writer.failed ==> writer.count == 0 && writer.Written() == written + BytesBits(bytes[..k])
      invariant !failed ==> (writer.failed <==> |written| / 8 + k > writer.out.Length)
    {
      BytesBitsJoin(bytes[..k], [bytes[k]]);
      BytesBitsOne(bytes[k]);
      assert bytes[..k] + [bytes[k]] == bytes[..k + 1];
      writer.Put(bytes[k], 8);
    }
    assert bytes[..4] == bytes;
  }

  lemma BytesBitsNone()
    ensures BytesBits([]) == []
  {
  }

  lemma SymbolSize()
    ensures |SymbolBits(256)| == 7
  {
  }

  /**
   Compresses `input` into `output`. A stream that fits decodes to the input,
   and one always fits in nine bits for each byte and a little more. `memory`
   says whether the two tables can be allocated.
   */
  method ZlibCompress(input: seq<byte>, output: array<byte>, memory: bool) returns (r: Option<nat>)
    requires |input| < 0x1_0000_0000
    modifies output
    ensures r.Some? ==> r.value <= output.Length && ZlibDecode(Checksum, output[..r.value]) == Some(input)
    ensures r.Some? ==> 6 <= r.value && output[0] == 0x78 && output[1] == 0x9c
    ensures r.Some? ==>
      var n := r.value;
      && 0x100_0000 * (output[n - 4] as int) + 0x1_0000 * (output[n - 3] as int)
         + 0x100 * (output[n - 2] as int) + output[n - 1] == Checksum(input)
    ensures memory && output.Length >= 6 + (9 * |input| + 10 + 7) / 8 ==> r.Some?
    ensures r.Some? ==> r.value <= 6 + (9 * |input| + 10 + 7) / 8
  {
    hide Pow2, BytesBits, TokenBits, SymbolBits, Encodes, HeaderBits, Apply, ZlibDecode, Checksum;
    if !memory {
      return None;
    }
    var head := new nat[HASH_SIZE](_ => 0);
    var previous := new nat[WINDOW](_ => 0);
    var writer := new BitWriter(output);
    WriteHeader(writer);
    ghost var tokens := WriteTokens(writer, input, head, previous);
    if writer.failed {
      return None;
    }
    ghost var written := writer.Written();
    EncodesSize(written, tokens, input, |input|);
    var checksum := Adler32(input);
    ghost var pad := WriteEnd(writer, checksum);
    if writer.failed {
      return None;
    }
    var n := writer.position;
    SymbolSize();
    assert BitsOf(writer.buffer, 0) == [];
    assert BytesBits(output[..n]) == writer.Written();
    Finish(written, tokens, input, pad, BytesBits(BigEndian(checksum)), output[..n]);
    return Some(n);
  }
}
