/** Bit sequences as DEFLATE packs them: numbers from the low bit up, codes from the high bit down. */
module BitStreams {
  import opened LittleEndian

  type Bits = seq<bool>

  function Pow2(n: nat): (p: nat)
    ensures p >= 1
  {
    if n == 0 then 1 else 2 * Pow2(n - 1)
  }

  lemma Pow2Values()
    ensures Pow2(0) == 1 && Pow2(1) == 2 && Pow2(2) == 4 && Pow2(3) == 8 && Pow2(4) == 16 && Pow2(5) == 32
    ensures Pow2(6) == 64 && Pow2(7) == 128 && Pow2(8) == 256 && Pow2(9) == 512 && Pow2(10) == 1024
    ensures Pow2(11) == 2048 && Pow2(12) == 4096 && Pow2(13) == 8192
  {
    assert Pow2(4) == 16;
    assert Pow2(8) == 256;
    assert Pow2(11) == 2048;
  }

  lemma {:induction false} Pow2Add(m: nat, n: nat)
    ensures Pow2(m + n) == Pow2(m) * Pow2(n)
  {
    if m > 0 {
      Pow2Add(m - 1, n);
      assert 2 * (Pow2(m - 1) * Pow2(n)) == 2 * Pow2(m - 1) * Pow2(n);
    }
  }

  /** The `n` low bits of `v`, lowest first. */
  function BitsOf(v: nat, n: nat): (b: Bits)
    ensures |b| == n
    decreases n
  {
    if n == 0 then [] else [v % 2 == 1] + BitsOf(v / 2, n - 1)
  }

  /** The number whose bits, lowest first, are `b`. */
  function Value(b: Bits): (v: nat)
    ensures v < Pow2(|b|)
  {
    if b == [] then 0 else (if b[0] then 1 else 0) + 2 * Value(b[1..])
  }

  lemma {:induction false} ValueOfBits(v: nat, n: nat)
    requires v < Pow2(n)
    ensures Value(BitsOf(v, n)) == v
    decreases n
  {
    if n > 0 {
      ValueOfBits(v / 2, n - 1);
      assert BitsOf(v, n)[1..] == BitsOf(v / 2, n - 1);
    }
  }

  /** Two numbers side by side. */
  lemma {:induction false} BitsJoin(a: nat, m: nat, b: nat, n: nat)
    requires a < Pow2(m)
    ensures BitsOf(a + Pow2(m) * b, m + n) == BitsOf(a, m) + BitsOf(b, n)
    decreases m
  {
    if m > 0 {
      var rest := Pow2(m - 1) * b;
      assert Pow2(m) * b == 2 * rest;
      assert (a + 2 * rest) % 2 == a % 2 && (a + 2 * rest) / 2 == a / 2 + rest;
      BitsJoin(a / 2, m - 1, b, n);
    }
  }

  /** The low byte of a number comes first. */
  lemma BitsSplit(v: nat, n: nat)
    ensures BitsOf(v, 8 + n) == BitsOf(v % 256, 8) + BitsOf(v / 256, n)
  {
    Pow2Values();
    BitsJoin(v % 256, 8, v / 256, n);
  }

  lemma Distribute(a: nat, b: nat, k: nat)
    ensures (a + b) * k == a * k + b * k
  {
  }

  // ------------------------------------------------------- high bit first

  function Reversed(b: Bits): (r: Bits)
    ensures |r| == |b|
  {
    if b == [] then [] else Reversed(b[1..]) + [b[0]]
  }

  /** The number whose bits, highest first, are `b`. */
  function MsbValue(b: Bits): nat {
    if b == [] then 0 else 2 * MsbValue(b[..|b| - 1]) + if b[|b| - 1] then 1 else 0
  }

  /** A code of `n` bits, highest first. */
  function CodeBits(code: nat, n: nat): (b: Bits)
    ensures |b| == n
  {
    Reversed(BitsOf(code, n))
  }

  lemma CodeBitsLast(code: nat, n: nat)
    requires n > 0
    ensures CodeBits(code, n) == CodeBits(code / 2, n - 1) + [code % 2 == 1]
  {
    assert BitsOf(code, n)[1..] == BitsOf(code / 2, n - 1);
  }

  lemma {:induction false} MsbValueOfCode(code: nat, n: nat)
    requires code < Pow2(n)
    ensures MsbValue(CodeBits(code, n)) == code
    decreases n
  {
    if n > 0 {
      CodeBitsLast(code, n);
      assert CodeBits(code, n)[..n - 1] == CodeBits(code / 2, n - 1);
      MsbValueOfCode(code / 2, n - 1);
    }
  }

  /** `v` with its `n` low bits in the opposite order. */
  function ReverseBits(v: nat, n: nat): nat
    decreases n
  {
    if n == 0 then 0 else (if v % 2 == 1 then Pow2(n - 1) else 0) + ReverseBits(v / 2, n - 1)
  }

  lemma {:induction false} ReverseBitsBound(v: nat, n: nat)
    ensures ReverseBits(v, n) < Pow2(n)
    decreases n
  {
    if n > 0 {
      ReverseBitsBound(v / 2, n - 1);
    }
  }

  lemma {:induction false} ReverseIsCode(v: nat, n: nat)
    ensures BitsOf(ReverseBits(v, n), n) == CodeBits(v, n)
    decreases n
  {
    if n > 0 {
      var low := ReverseBits(v / 2, n - 1);
      ReverseBitsBound(v / 2, n - 1);
      BitsJoin(low, n - 1, if v % 2 == 1 then 1 else 0, 1);
      ReverseIsCode(v / 2, n - 1);
      CodeBitsLast(v, n);
      assert BitsOf(1, 1) == [true] && BitsOf(0, 1) == [false];
    }
  }

  lemma {:induction false} ReverseZero(n: nat)
    ensures ReverseBits(0, n) == 0
  {
    if n > 0 {
      ReverseZero(n - 1);
    }
  }

  /** Reversing all of a wider word and shifting down reverses the code alone. */
  lemma {:induction false} ReverseShift(v: nat, n: nat, width: nat)
    requires v < Pow2(n) && n <= width
    ensures ReverseBits(v, width) == ReverseBits(v, n) * Pow2(width - n)
    decreases n
  {
    if n == 0 {
      ReverseZero(width);
    } else {
      ReverseShift(v / 2, n - 1, width - 1);
      Pow2Add(n - 1, width - n);
      Distribute(if v % 2 == 1 then Pow2(n - 1) else 0, ReverseBits(v / 2, n - 1), Pow2(width - n));
    }
  }

  // ------------------------------------------------------------- bytes

  /** A byte string as bits, each byte from its low bit up. */
  function BytesBits(s: seq<byte>): (b: Bits)
    ensures |b| == 8 * |s|
  {
    if s == [] then [] else BitsOf(s[0], 8) + BytesBits(s[1..])
  }

  lemma {:induction false} BytesBitsJoin(s: seq<byte>, t: seq<byte>)
    ensures BytesBits(s + t) == BytesBits(s) + BytesBits(t)
  {
    if s == [] {
      assert s + t == t;
    } else {
      assert (s + t)[1..] == s[1..] + t;
      BytesBitsJoin(s[1..], t);
    }
  }

  lemma BytesBitsOne(b: byte)
    ensures BytesBits([b]) == BitsOf(b, 8)
  {
    assert BytesBits([b]) == BitsOf(b, 8) + BytesBits([]);
  }

  /** Bytes whose bits end as those of other bytes do. */
  lemma {:induction false} BytesBitsUnique(s: seq<byte>, t: seq<byte>)
    requires BytesBits(s) == BytesBits(t)
    ensures s == t
  {
    hide BitsOf;
    assert |s| == |t|;
    if s != [] {
      assert BytesBits(s)[..8] == BitsOf(s[0], 8) && BytesBits(t)[..8] == BitsOf(t[0], 8);
      ByteBitsUnique(s[0], t[0]);
      assert BytesBits(s)[8..] == BytesBits(s[1..]) && BytesBits(t)[8..] == BytesBits(t[1..]);
      BytesBitsUnique(s[1..], t[1..]);
    }
  }

  lemma BytesBitsEnd(s: seq<byte>, b: Bits, t: seq<byte>)
    requires BytesBits(s) == b + BytesBits(t)
    ensures |t| <= |s| && s == s[..|s| - |t|] + t
  {
    hide BytesBits;
    var k := |s| - |t|;
    assert s == s[..k] + s[k..];
    BytesBitsJoin(s[..k], s[k..]);
    assert BytesBits(s)[8 * k..] == BytesBits(s[k..]) && BytesBits(s)[8 * k..] == BytesBits(t);
    BytesBitsUnique(s[k..], t);
  }

  lemma ByteBitsUnique(a: byte, b: byte)
    requires BitsOf(a, 8) == BitsOf(b, 8)
    ensures a == b
  {
    Pow2Values();
    ValueOfBits(a, 8);
    ValueOfBits(b, 8);
  }
}
