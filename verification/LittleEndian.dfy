/** Machine integers and their little-endian byte encodings. */
module LittleEndian {

  type byte = x: int | 0 <= x < 0x100
  type u16 = x: int | 0 <= x < 0x1_0000
  type u32 = x: int | 0 <= x < 0x1_0000_0000
  type u64 = x: int | 0 <= x < 0x1_0000_0000_0000_0000

  function Pow256(n: nat): (p: nat)
    ensures p > 0
  {
    if n == 0 then 1 else 256 * Pow256(n - 1)
  }

  lemma Pow256Values()
    ensures Pow256(2) == 0x1_0000
    ensures Pow256(4) == 0x1_0000_0000
    ensures Pow256(8) == 0x1_0000_0000_0000_0000
  {
    assert Pow256(6) == 0x1_0000_0000_0000 by {
      assert Pow256(4) == 0x1_0000_0000;
    }
  }

  /** The `n` low bytes of `v`, least significant first. */
  function ToBytes(v: nat, n: nat): (s: seq<byte>)
    ensures |s| == n
  {
    if n == 0 then [] else [v % 256] + ToBytes(v / 256, n - 1)
  }

  function FromBytes(s: seq<byte>): (v: nat)
    ensures v < Pow256(|s|)
  {
    if s == [] then 0 else s[0] + 256 * FromBytes(s[1..])
  }

  lemma {:induction false} FromToBytes(v: nat, n: nat)
    requires v < Pow256(n)
    ensures FromBytes(ToBytes(v, n)) == v
  {
    if n > 0 {
      FromToBytes(v / 256, n - 1);
      assert ToBytes(v, n)[1..] == ToBytes(v / 256, n - 1);
    }
  }

  lemma {:induction false} ToFromBytes(s: seq<byte>)
    ensures ToBytes(FromBytes(s), |s|) == s
  {
    if s != [] {
      ToFromBytes(s[1..]);
      assert FromBytes(s) / 256 == FromBytes(s[1..]);
    }
  }

  function Le16(v: u16): (s: seq<byte>)
    ensures |s| == 2 && FromLe16(s) == v
  {
    Pow256Values();
    FromToBytes(v, 2);
    ToBytes(v, 2)
  }

  function FromLe16(s: seq<byte>): u16
    requires |s| == 2
  {
    Pow256Values();
    FromBytes(s)
  }

  function Le32(v: u32): (s: seq<byte>)
    ensures |s| == 4 && FromLe32(s) == v
  {
    Pow256Values();
    FromToBytes(v, 4);
    ToBytes(v, 4)
  }

  function FromLe32(s: seq<byte>): u32
    requires |s| == 4
  {
    Pow256Values();
    FromBytes(s)
  }

  function Le64(v: u64): (s: seq<byte>)
    ensures |s| == 8 && FromLe64(s) == v
  {
    Pow256Values();
    FromToBytes(v, 8);
    ToBytes(v, 8)
  }

  function FromLe64(s: seq<byte>): u64
    requires |s| == 8
  {
    Pow256Values();
    FromBytes(s)
  }

  function Zeros(n: nat): (s: seq<byte>)
    ensures |s| == n
    ensures forall i :: 0 <= i < n ==> s[i] == 0
  {
    seq(n, i => 0)
  }

  lemma {:induction false} FromZeros(n: nat)
    ensures FromBytes(Zeros(n)) == 0
  {
    if n > 0 {
      FromZeros(n - 1);
      assert Zeros(n)[1..] == Zeros(n - 1);
    }
  }

  // ------------------------------------------------------------------ by place

  /** The 16-bit number whose low byte is at `at`. */
  function Short(s: seq<byte>, at: nat): nat
    requires at + 2 <= |s|
  {
    var a, b: int := s[at], s[at + 1];
    a + 0x100 * b
  }

  /** The 32-bit number whose low byte is at `at`. */
  function Word(s: seq<byte>, at: nat): nat
    requires at + 4 <= |s|
  {
    var a, b, c, d: int := s[at], s[at + 1], s[at + 2], s[at + 3];
    a + 0x100 * b + 0x1_0000 * c + 0x100_0000 * d
  }

  /** The 64-bit number whose low byte is at `at`. */
  function Long(s: seq<byte>, at: nat): nat
    requires at + 8 <= |s|
  {
    Word(s, at) + 0x1_0000_0000 * Word(s, at + 4)
  }

  lemma ShortIs(s: seq<byte>)
    requires |s| == 2
    ensures FromLe16(s) == Short(s, 0)
  {
    assert FromBytes(s[1..]) == s[1] + 256 * FromBytes(s[1..][1..]);
  }

  lemma {:induction false} LowWord(s: seq<byte>)
    requires |s| >= 4
    ensures FromBytes(s) == Word(s, 0) + 0x1_0000_0000 * FromBytes(s[4..])
  {
    var a := s[1..];
    var b := a[1..];
    var c := b[1..];
    assert c[1..] == s[4..];
    assert FromBytes(s) == s[0] + 256 * FromBytes(a);
    assert FromBytes(a) == s[1] + 256 * FromBytes(b);
    assert FromBytes(b) == s[2] + 256 * FromBytes(c);
    assert FromBytes(c) == s[3] + 256 * FromBytes(s[4..]);
  }

  lemma WordIs(s: seq<byte>, at: nat)
    requires at + 4 <= |s|
    ensures FromLe32(s[at..at + 4]) == Word(s, at)
  {
    LowWord(s[at..at + 4]);
  }

  lemma LongIs(s: seq<byte>, at: nat)
    requires at + 8 <= |s|
    ensures FromLe64(s[at..at + 8]) == Long(s, at)
  {
    var t := s[at..at + 8];
    LowWord(t);
    LowWord(t[4..]);
  }
}
