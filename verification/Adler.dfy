/** The Adler-32 checksum: section 8.2 of RFC 1950, and the loop that puts the reductions off. */
module Adler {
  import opened LittleEndian
  import opened Arithmetic

  const MODULUS := 65521
  const CHUNK := 5552

  /** One more than the sum of the bytes. */
  function SumA(s: seq<byte>): nat {
    if s == [] then 1 else SumA(s[..|s| - 1]) + s[|s| - 1]
  }

  /** The sum of `SumA` over all non-empty prefixes. */
  function SumB(s: seq<byte>): nat {
    if s == [] then 0 else SumB(s[..|s| - 1]) + SumA(s)
  }

  function Checksum(s: seq<byte>): u32 {
    SumB(s) % MODULUS * 0x1_0000 + SumA(s) % MODULUS
  }

  /** The checksum of nothing, and what one more byte makes of a checksum. */
  lemma ChecksumSteps(s: seq<byte>, x: byte)
    ensures Checksum([]) == 1
    ensures var a, b := Checksum(s) % 65536, Checksum(s) / 65536;
            var a' := (a + x) % 65521;
            Checksum(s + [x]) == (b + a') % 65521 * 65536 + a'
  {
    hide SumA, SumB;
    Empty();
    var t := s + [x];
    assert t[..|s|] == s && t[..|s| + 1] == t;
    Prefix(t, |s|);
    ModAdd(SumA(s), SumA(s) % MODULUS, x, x);
    ModAdd(SumB(s), SumB(s) % MODULUS, SumA(t), SumA(t) % MODULUS);
    Halves(s);
  }

  /** The two sums in a checksum. */
  lemma Halves(s: seq<byte>)
    ensures Checksum(s) % 65536 == SumA(s) % MODULUS && Checksum(s) / 65536 == SumB(s) % MODULUS
  {
    hide SumA, SumB;
    DivExact(SumB(s) % MODULUS, 65536, SumA(s) % MODULUS);
  }

  lemma ModAdd(a: nat, a': nat, b: nat, b': nat)
    requires a % MODULUS == a' % MODULUS && b % MODULUS == b' % MODULUS
    ensures (a + b) % MODULUS == (a' + b') % MODULUS
  {
    Carried(a, b);
    Carried(a', b');
  }

  lemma Carried(a: nat, b: nat)
    ensures (a + b) % MODULUS == (a % MODULUS + b % MODULUS) % MODULUS
  {
    var r := a % MODULUS + b % MODULUS;
    DivExact(a / MODULUS + b / MODULUS + r / MODULUS, MODULUS, r % MODULUS);
  }

  lemma Prefix(s: seq<byte>, k: nat)
    requires k < |s|
    ensures SumA(s[..k + 1]) == SumA(s[..k]) + s[k] && SumB(s[..k + 1]) == SumB(s[..k]) + SumA(s[..k + 1])
  {
    assert s[..k + 1][..k] == s[..k];
  }

  /** What the second sum reaches within a chunk stays below 2^32. */
  lemma ChunkBound(j: nat, b: nat)
    requires j <= CHUNK && 2 * b <= 131040 * (j + 1) + 255 * (j * (j + 1))
    ensures b < 0x1_0000_0000
  {
    MulMonotone(j, CHUNK, j + 1);
  }

  lemma ChunkStep(j: nat, a: nat, b: nat)
    requires a <= 65520 + 255 * (j + 1) && 2 * b <= 131040 * (j + 1) + 255 * (j * (j + 1))
    ensures 2 * (b + a) <= 131040 * (j + 2) + 255 * ((j + 1) * (j + 2))
  {
    assert (j + 1) * (j + 2) == j * (j + 1) + 2 * (j + 1);
  }

  /** The checksum, reducing only once in each chunk; no sum leaves 32 bits. */
  method Adler32(data: seq<byte>) returns (r: u32)
    ensures r == Checksum(data)
  {
    hide SumA, SumB;
    var a: u32, b: u32 := 1, 0;
    var at := 0;
    Empty();
    while at < |data|
      invariant at <= |data| && a < MODULUS && b < MODULUS
      invariant a == SumA(data[..at]) % MODULUS && b == SumB(data[..at]) % MODULUS
    {
      var end := if at + CHUNK <= |data| then at + CHUNK else |data|;
      var i := at;
      while i < end
        invariant at <= i <= end
        invariant a <= 65520 + 255 * (i - at)
        invariant 2 * b <= 131040 * (i - at + 1) + 255 * ((i - at) * (i - at + 1))
        invariant a % MODULUS == SumA(data[..i]) % MODULUS && b % MODULUS == SumB(data[..i]) % MODULUS
      {
        Prefix(data, i);
        ModAdd(a, SumA(data[..i]), data[i], data[i]);
        a := a + data[i];
        ModAdd(b, SumB(data[..i]), a, SumA(data[..i + 1]));
        ChunkStep(i - at, a, b);
        ChunkBound(i - at + 1, b + a);
        b := b + a;
        i := i + 1;
      }
      a, b := a % MODULUS, b % MODULUS;
      at := end;
    }
    assert data[..|data|] == data;
    r := b * 0x1_0000 + a;
  }

  lemma Empty()
    ensures SumA([]) == 1 && SumB([]) == 0
  {
  }
}
