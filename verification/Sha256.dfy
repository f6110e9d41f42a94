/**
 Streaming SHA-256: buffering, padding and the order of compressions. The
 compression of one block is a parameter; everything holds for any of them.
 */
module Sha256 {
  import opened Arithmetic
  import opened LittleEndian

  type State = seq<u32>
  type Compress = (State, seq<byte>) -> State

  const H0: State := [0x6a09e667, 0xbb67ae85, 0x3c6ef372, 0xa54ff53a, 0x510e527f, 0x9b05688c, 0x1f83d9ab, 0x5be0cd19]

  // ------------------------------------------------------------ the standard

  /** Compression of whole blocks, first to last. */
  function Fold(f: Compress, s: State, blocks: seq<byte>): State
    requires |blocks| % 64 == 0
    decreases |blocks|
  {
    if blocks == [] then s else Fold(f, f(s, blocks[..64]), blocks[64..])
  }

  function ToBigEndian(v: nat, n: nat): (s: seq<byte>)
    ensures |s| == n
  {
    if n == 0 then [] else ToBigEndian(v / 256, n - 1) + [v % 256]
  }

  function FromBigEndian(s: seq<byte>): nat {
    if s == [] then 0 else 256 * FromBigEndian(s[..|s| - 1]) + s[|s| - 1]
  }

  /** Arithmetic on 64-bit counters. */
  function Wrap(n: nat): u64 {
    n % 0x1_0000_0000_0000_0000
  }

  /** The number of zero bytes that bring a message and its marker to 8 bytes short of a block. */
  function ZeroCount(length: nat): (k: nat)
    ensures k < 64 && (length + 1 + k) % 64 == 56
  {
    if length % 64 <= 55 then 55 - length % 64 else 119 - length % 64
  }

  lemma EightMore(n: nat)
    requires n % 64 == 56
    ensures (n + 8) % 64 == 0
  {
  }

  /** Section 5.1.1 of FIPS 180-4: the marker bit, zeros, and the bit length in 64 bits. */
  function Padded(m: seq<byte>): (p: seq<byte>)
    ensures |p| % 64 == 0 && |p| == |m| + 1 + ZeroCount(|m|) + 8
  {
    EightMore(|m| + 1 + ZeroCount(|m|));
    m + [0x80] + Zeros(ZeroCount(|m|)) + ToBigEndian(Wrap(8 * |m|), 8)
  }

  /**
   The padding byte by byte: the message, 0x80, zeros, and in the last eight
   bytes, the highest first, the number of bits; to the end of the nearest block.
   */
  lemma PaddedIs(m: seq<byte>)
    ensures var p, n := Padded(m), |m|;
            && |p| % 64 == 0 && n + 9 <= |p| < n + 73
            && p[..n] == m && p[n] == 0x80 && (forall i :: n < i < |p| - 8 ==> p[i] == 0)
            && EightBytes(p[|p| - 8..]) == 8 * n % 0x1_0000_0000_0000_0000
  {
    hide ToBigEndian, Pow256, EightBytes;
    Pow256Values();
    var p, n := Padded(m), |m|;
    assert p[|p| - 8..] == ToBigEndian(Wrap(8 * n), 8);
    BigEndianRoundTrip(Wrap(8 * n), 8);
    EightBytesIs(p[|p| - 8..]);
  }

  /** The number eight bytes stand for, the highest first. */
  function EightBytes(s: seq<byte>): nat
    requires |s| == 8
  {
    var a: int, b: int, c: int, d: int := s[0], s[1], s[2], s[3];
    var e: int, f: int, g: int, h: int := s[4], s[5], s[6], s[7];
    0x1_0000_0000 * (0x100_0000 * a + 0x1_0000 * b + 0x100 * c + d) + (0x100_0000 * e + 0x1_0000 * f + 0x100 * g + h)
  }

  lemma FromLast(s: seq<byte>)
    requires s != []
    ensures FromBigEndian(s) == 256 * FromBigEndian(s[..|s| - 1]) + s[|s| - 1]
  {
  }

  lemma EightBytesIs(s: seq<byte>)
    requires |s| == 8
    ensures FromBigEndian(s) == EightBytes(s)
  {
    hide FromBigEndian;
    var t := s[..4];
    FourBytesIs(t);
    FromLast(s);
    FromLast(s[..7]);
    FromLast(s[..6]);
    FromLast(s[..5]);
    assert s[..7][..6] == s[..6] && s[..6][..5] == s[..5] && s[..5][..4] == t;
  }

  lemma FourBytesIs(s: seq<byte>)
    requires |s| == 4
    ensures FromBigEndian(s) == 0x100_0000 * (s[0] as int) + 0x1_0000 * (s[1] as int) + 0x100 * (s[2] as int) + s[3]
  {
    hide FromBigEndian;
    FromLast(s);
    FromLast(s[..3]);
    FromLast(s[..2]);
    FromLast(s[..1]);
    assert s[..3][..2] == s[..2] && s[..2][..1] == s[..1] && s[..1][..0] == [];
    FromNothing();
  }

  lemma FromNothing()
    ensures FromBigEndian([]) == 0
  {
  }

  function Digest(f: Compress, m: seq<byte>): State {
    Fold(f, H0, Padded(m))
  }

  lemma {:induction false} FoldSplit(f: Compress, s: State, a: seq<byte>, b: seq<byte>)
    requires |a| % 64 == 0 && |b| % 64 == 0
    ensures Fold(f, s, a + b) == Fold(f, Fold(f, s, a), b)
    decreases |a|
  {
    if a == [] {
      assert a + b == b;
    } else {
      assert (a + b)[..64] == a[..64];
      assert (a + b)[64..] == a[64..] + b;
      FoldSplit(f, f(s, a[..64]), a[64..], b);
    }
  }

  lemma {:induction false} BigEndianRoundTrip(v: nat, n: nat)
    requires v < Pow256(n)
    ensures FromBigEndian(ToBigEndian(v, n)) == v
  {
    if n > 0 {
      BigEndianRoundTrip(v / 256, n - 1);
      assert ToBigEndian(v, n)[..n - 1] == ToBigEndian(v / 256, n - 1);
    }
  }

  /** Different messages pad to different blocks, so a digest is of one message's blocks only. */
  lemma PaddingInjective(a: seq<byte>, b: seq<byte>)
    requires |a| < 0x2000_0000_0000_0000 && |b| < 0x2000_0000_0000_0000
    requires Padded(a) == Padded(b)
    ensures a == b
  {
    var p := Padded(a);
    hide ToBigEndian, FromBigEndian, ZeroCount, Pow256;
    Pow256Values();
    assert p[|p| - 8..] == ToBigEndian(Wrap(8 * |a|), 8);
    assert p[|p| - 8..] == ToBigEndian(Wrap(8 * |b|), 8);
    BigEndianRoundTrip(Wrap(8 * |a|), 8);
    BigEndianRoundTrip(Wrap(8 * |b|), 8);
    assert a == p[..|a|];
    assert b == p[..|b|];
  }

  lemma OneMore(f: Compress, done: seq<byte>, block: seq<byte>)
    requires |done| % 64 == 0 && |block| == 64
    ensures |done + block| % 64 == 0
    ensures Fold(f, H0, done + block) == f(Fold(f, H0, done), block)
  {
    FoldSplit(f, H0, done, block);
    assert block[..64] == block && block[64..] == [];
  }

  lemma ShortTail(done: seq<byte>, rest: seq<byte>)
    requires |done| % 64 == 0 && |rest| < 64
    ensures |done + rest| % 64 == |rest|
    ensures (done + rest)[..|done|] == done && (done + rest)[|done|..] == rest
  {
  }

  // -------------------------------------------------------------- the hasher

  class Hasher {
    const compress: Compress
    var state: State
    var block: seq<byte>
    var filled: nat
    var total: u64
    ghost var message: seq<byte>

    /** The state covers the message's whole blocks and the buffer holds the rest. */
    ghost predicate Valid()
      reads `state, `block, `filled, `message
    {
      && |block| == 64
      && filled == |message| % 64
      && state == Fold(compress, H0, message[..|message| - filled])
      && block[..filled] == message[|message| - filled..]
    }

    constructor (compress: Compress)
      ensures Valid() && Counted() && message == [] && this.compress == compress
    {
      this.compress := compress;
      state, block, filled, total, message := H0, Zeros(64), 0, 0, [];
    }

    /** The counter holds the length of the message, in 64 bits. */
    ghost predicate Counted()
      reads `total, `message
    {
      total == Wrap(|message|)
    }

    lemma Filled()
      requires Valid()
      ensures filled == |message| % 64
    {
    }

    lemma WholeBlocks()
      requires Valid() && filled == 0
      ensures state == Fold(compress, H0, message)
    {
      assert message[..|message|] == message;
    }

    /** The next bytes into the buffer, and the buffer compressed when it is full. */
    method Absorb(data: seq<byte>)
      requires Valid() && 0 < |data| <= 64 - filled
      modifies this
      ensures Valid() && message == old(message) + data && total == old(total)
    {
      ghost var done, rest := message[..|message| - filled], block[..filled];
      assert message == done + rest;
      block := block[..filled] + data + block[filled + |data|..];
      filled := filled + |data|;
      message := message + data;
      assert message == done + (rest + data) && block[..filled] == rest + data;
      if filled == 64 {
        assert block == rest + data;
        OneMore(compress, done, block);
        state := compress(state, block);
        filled := 0;
        assert message[..|message|] == message;
      } else {
        ShortTail(done, rest + data);
      }
    }

    /** Takes any number of bytes; what they were cut into before or after does not matter. */
    method Update(data: seq<byte>)
      requires Valid()
      modifies this
      ensures Valid() && message == old(message) + data
      ensures old(Counted()) ==> Counted()
    {
      hide Valid, Wrap;
      WrapAdds(|message|, |data|);
      total := Wrap(total + |data|);
      var at := 0;
      while at < |data|
        invariant at <= |data| && Valid() && message == old(message) + data[..at]
        invariant total == Wrap(old(total) + |data|)
      {
        Filled();
        var take := if 64 - filled <= |data| - at then 64 - filled else |data| - at;
        assert data[..at] + data[at..at + take] == data[..at + take];
        Absorb(data[at..at + take]);
        at := at + take;
      }
      assert data[..at] == data;
    }

    /** The digest is the fold over the padded message, whatever updates it came in. */
    method Finish() returns (digest: State)
      requires Valid() && Counted()
      modifies this
      ensures digest == Digest(compress, old(message))
    {
      hide Valid, ZeroCount;
      ghost var m := message;
      var bits := Wrap(8 * total);
      Update([0x80]);
      ghost var zeros := 0;
      assert message == m + [0x80] + Zeros(0);
      Filled();
      while filled != 56
        invariant Valid() && zeros <= ZeroCount(|m|)
        invariant message == m + [0x80] + Zeros(zeros)
        invariant filled == (|m| + 1 + zeros) % 64
        decreases ZeroCount(|m|) - zeros
      {
        Update([0]);
        assert Zeros(zeros) + [0] == Zeros(zeros + 1);
        zeros := zeros + 1;
        Filled();
      }
      StopsAt(|m|, zeros);
      LengthBits(|m|);
      Update(ToBigEndian(bits, 8));
      assert message == Padded(m);
      Filled();
      WholeBlocks();
      digest := state;
    }
  }

  lemma StopsAt(length: nat, zeros: nat)
    requires zeros <= ZeroCount(length) && (length + 1 + zeros) % 64 == 56
    ensures zeros == ZeroCount(length)
  {
  }

  lemma LengthBits(length: nat)
    ensures Wrap(8 * Wrap(length)) == Wrap(8 * length)
  {
    var wide := 0x1_0000_0000_0000_0000;
    var r := 8 * (length % wide);
    DivExact(r / wide + 8 * (length / wide), wide, r % wide);
    assert 8 * length == (r / wide + 8 * (length / wide)) * wide + r % wide;
  }

  lemma WrapAdds(a: nat, b: nat)
    ensures Wrap(Wrap(a) + b) == Wrap(a + b)
  {
  }

  function Join(chunks: seq<seq<byte>>): seq<byte> {
    if chunks == [] then [] else Join(chunks[..|chunks| - 1]) + chunks[|chunks| - 1]
  }

  lemma JoinNone(chunks: seq<seq<byte>>)
    ensures Join(chunks[..0]) == []
  {
  }

  lemma JoinNext(chunks: seq<seq<byte>>, i: nat)
    requires i < |chunks|
    ensures Join(chunks[..i + 1]) == Join(chunks[..i]) + chunks[i]
  {
    assert chunks[..i + 1][..i] == chunks[..i];
  }

  /** Every way of cutting a message gives the digest of the whole. */
  method HashChunks(compress: Compress, chunks: seq<seq<byte>>) returns (digest: State)
    ensures digest == Digest(compress, Join(chunks))
  {
    hide Hasher.Valid, Hasher.Counted, Digest, Join;
    JoinNone(chunks);
    var hasher := new Hasher(compress);
    for i := 0 to |chunks|
      invariant hasher.Valid() && fresh(hasher) && hasher.compress == compress
      invariant hasher.message == Join(chunks[..i])
      invariant hasher.Counted()
    {
      JoinNext(chunks, i);
      hasher.Update(chunks[i]);
    }
    assert chunks[..|chunks|] == chunks;
    digest := hasher.Finish();
  }
}
