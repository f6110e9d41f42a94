/**
 The first scan of an image's DC values: each is written as the size of its
 difference from the one before and then the difference itself, with a table
 made from a first pass that only counts the sizes.
 */
module DcScan {
  import opened Options
  import opened LittleEndian
  import opened BitStreams
  import opened HuffmanTables
  import opened HuffmanStream

  // ------------------------------------------------------------- amplitudes

  /** The signed number that `n` bits stand for. */
  function Extend(value: nat, n: nat): int {
    if n > 0 && value < Pow2(n - 1) then value - Pow2(n) + 1 else value
  }

  /** The bits a number of magnitude category `n` is written with. */
  function Amplitude(diff: int, n: nat): int {
    if diff >= 0 then diff else diff - 1 + Pow2(n)
  }

  /** `n` is how many bits the magnitude takes. */
  predicate Category(diff: int, n: nat) {
    if diff == 0 then n == 0 else n > 0 && Pow2(n - 1) <= (if diff < 0 then -diff else diff) < Pow2(n)
  }

  lemma AmplitudeRoundTrip(diff: int, n: nat)
    requires Category(diff, n)
    ensures 0 <= Amplitude(diff, n) < Pow2(n) && Extend(Amplitude(diff, n), n) == diff
  {
  }

  /**
   The numbers that `n` bits stand for, in order: the lower half rises by one
   from `1 - 2^n`, the upper half by one from `2^(n - 1)`.
   */
  lemma ExtendTable(value: nat, n: nat)
    requires n > 0 && value < Pow2(n)
    ensures Extend(0, n) == 1 - Pow2(n) && Extend(Pow2(n - 1), n) == Pow2(n - 1)
    ensures value + 1 < Pow2(n) && value + 1 != Pow2(n - 1) ==> Extend(value + 1, n) == Extend(value, n) + 1
  {
  }

  /** A negative number less one, as far as its `n` bits go, in the lower half; another as it is. */
  lemma AmplitudeIs(diff: int, n: nat)
    requires Category(diff, n)
    ensures diff < 0 ==>
      n > 0 && 0 <= Amplitude(diff, n) < Pow2(n - 1) && (Amplitude(diff, n) - (diff - 1)) % Pow2(n) == 0
    ensures diff >= 0 ==> Amplitude(diff, n) == diff
  {
    hide Pow2;
    if diff < 0 {
      Doubles(n);
      WholeTurn(Amplitude(diff, n) - (diff - 1), Pow2(n));
    }
  }

  lemma Doubles(n: nat)
    requires n > 0
    ensures Pow2(n) == 2 * Pow2(n - 1)
  {
  }

  lemma WholeTurn(x: int, p: nat)
    requires x == p > 0
    ensures x % p == 0
  {
  }

  function BitLength(m: nat): nat {
    if m == 0 then 0 else BitLength(m / 2) + 1
  }

  function Size(diff: int): nat {
    BitLength(if diff < 0 then -diff else diff)
  }

  lemma {:induction false} BitLengthBounds(m: nat)
    requires m > 0
    ensures BitLength(m) > 0 && Pow2(BitLength(m) - 1) <= m < Pow2(BitLength(m))
  {
    if m > 1 {
      BitLengthBounds(m / 2);
    }
  }

  lemma SizeIsCategory(diff: int)
    ensures Category(diff, Size(diff))
  {
    if diff != 0 {
      BitLengthBounds(if diff < 0 then -diff else diff);
    }
  }

  lemma AmplitudeFits(diff: int)
    ensures 0 <= Amplitude(diff, Size(diff)) < Pow2(Size(diff))
    ensures Extend(Amplitude(diff, Size(diff)), Size(diff)) == diff
  {
    SizeIsCategory(diff);
    AmplitudeRoundTrip(diff, Size(diff));
  }

  // ---------------------------------------------------------------- the bits

  /** How far a value is from the one before it; the first is taken from zero. */
  function Diff(values: seq<int>, k: nat): int
    requires k < |values|
  {
    values[k] - if k == 0 then 0 else values[k - 1]
  }

  lemma DiffIs(values: seq<int>, k: nat)
    requires k < |values|
    ensures Diff(values, k) + (if k == 0 then 0 else values[k - 1]) == values[k]
  {
  }

  /** The places of a size among the first `n` differences. */
  ghost function Occurs(values: seq<int>, s: nat, n: nat): set<nat>
    requires n <= |values|
  {
    set k: nat | k < n && Size(Diff(values, k)) == s
  }

  lemma OccursMore(values: seq<int>, s: nat, n: nat)
    requires n < |values|
    ensures |Occurs(values, s, n + 1)| == |Occurs(values, s, n)| + if Size(Diff(values, n)) == s then 1 else 0
  {
    hide Size, Diff;
    if Size(Diff(values, n)) == s {
      assert Occurs(values, s, n + 1) == Occurs(values, s, n) + {n};
    } else {
      assert Occurs(values, s, n + 1) == Occurs(values, s, n);
    }
  }

  ghost predicate Covers(codes: map<nat, (nat, nat)>, values: seq<int>) {
    forall k :: 0 <= k < |values| ==> Size(Diff(values, k)) in codes
  }

  /** What the values from `k` on are written as. */
  ghost function DcBits(codes: map<nat, (nat, nat)>, values: seq<int>, k: nat): Bits
    requires k <= |values| && Covers(codes, values)
    decreases |values| - k
  {
    if k == |values| then []
    else
      var diff := Diff(values, k);
      var n := Size(diff);
      AmplitudeFits(diff);
      CodeBits(codes[n].0, codes[n].1) + (CodeBits(Amplitude(diff, n), n) + DcBits(codes, values, k + 1))
  }

  // --------------------------------------------------------------- two passes

  lemma {:induction false} SumLast(freq: seq<nat>, v: nat)
    ensures HuffmanCost.Sum(freq + [v]) == HuffmanCost.Sum(freq) + v
  {
    if freq == [] {
      assert freq + [v] == [v];
    } else {
      assert (freq + [v])[1..] == freq[1..] + [v];
      SumLast(freq[1..], v);
    }
  }

  lemma {:induction false} SumNone(freq: seq<nat>)
    requires forall i :: 0 <= i < |freq| ==> freq[i] == 0
    ensures HuffmanCost.Sum(freq) == 0
  {
    if freq != [] {
      SumNone(freq[1..]);
    }
  }

  /** The first pass: how often each size comes up. */
  method Count(values: seq<int>) returns (freq: seq<nat>)
    requires forall k :: 0 <= k < |values| ==> Size(Diff(values, k)) < 256
    ensures |freq| == 256 && HuffmanCost.Sum(freq) == |values|
    ensures forall s :: 0 <= s < 256 ==> (freq[s] > 0 <==> exists k :: 0 <= k < |values| && Size(Diff(values, k)) == s)
    ensures forall s: nat :: s < 256 ==> freq[s] == |Occurs(values, s, |values|)|
  {
    hide HuffmanCost.Sum, Size, Occurs;
    freq := seq(256, _ => 0);
    SumNone(freq);
    forall s: nat | s < 256 ensures Occurs(values, s, 0) == {} {
      OccursNone(values, s);
    }
    var last := 0;
    for k := 0 to |values|
      invariant |freq| == 256 && HuffmanCost.Sum(freq) == k && last == if k == 0 then 0 else values[k - 1]
      invariant forall s :: 0 <= s < 256 ==> (freq[s] > 0 <==> exists j :: 0 <= j < k && Size(Diff(values, j)) == s)
      invariant forall s: nat :: s < 256 ==> freq[s] == |Occurs(values, s, k)|
    {
      var n := Size(values[k] - last);
      assert n == Size(Diff(values, k));
      last := values[k];
      HuffmanCost.SumUpdate(freq, n, freq[n] + 1);
      forall s: nat | s < 256
        ensures |Occurs(values, s, k + 1)| == |Occurs(values, s, k)| + if Size(Diff(values, k)) == s then 1 else 0
      {
        OccursMore(values, s, k);
      }
      freq := freq[n := freq[n] + 1];
    }
  }

  lemma OccursNone(values: seq<int>, s: nat)
    ensures Occurs(values, s, 0) == {}
  {
  }

  /**
   From `from` to `to` are the code of a size and then as many bits: the
   difference, or for a negative one what it is less one, as far as the bits go.
   */
  ghost predicate Group(codes: map<nat, (nat, nat)>, diff: int, buffer: Bits, from: nat, to: nat) {
    exists n: nat ::
      && Category(diff, n) && n in codes
      && var mid := from + codes[n].1;
         && to == mid + n <= |buffer|
         && MsbValue(buffer[from..mid]) == codes[n].0
         && MsbValue(buffer[mid..to]) == if diff >= 0 then diff else diff - 1 + Pow2(n)
  }

  lemma GroupWritten(codes: map<nat, (nat, nat)>, diff: int, before: Bits, buffer: Bits)
    requires var n := Size(diff);
             && n in codes && codes[n].0 < Pow2(codes[n].1) && Amplitude(diff, n) >= 0
             && buffer == before + CodeBits(codes[n].0, codes[n].1) + CodeBits(Amplitude(diff, n), n)
    ensures Group(codes, diff, buffer, |before|, |buffer|)
  {
    hide Pow2, CodeBits, MsbValue, Size;
    var n := Size(diff);
    SizeIsCategory(diff);
    AmplitudeRoundTrip(diff, n);
    var mid := |before| + codes[n].1;
    assert buffer[|before|..mid] == CodeBits(codes[n].0, codes[n].1);
    assert buffer[mid..] == CodeBits(Amplitude(diff, n), n) && buffer[mid..|buffer|] == buffer[mid..];
    MsbValueOfCode(codes[n].0, codes[n].1);
    MsbValueOfCode(Amplitude(diff, n), n);
  }

  lemma GroupStays(codes: map<nat, (nat, nat)>, diff: int, buffer: Bits, from: nat, to: nat, more: Bits)
    requires Group(codes, diff, buffer, from, to)
    ensures Group(codes, diff, buffer + more, from, to)
  {
    hide Pow2, MsbValue, Category;
    var n: nat :| && Category(diff, n) && n in codes
                  && var mid := from + codes[n].1;
                     && to == mid + n <= |buffer|
                     && MsbValue(buffer[from..mid]) == codes[n].0
                     && MsbValue(buffer[mid..to]) == if diff >= 0 then diff else diff - 1 + Pow2(n);
    var mid := from + codes[n].1;
    assert (buffer + more)[from..mid] == buffer[from..mid] && (buffer + more)[mid..to] == buffer[mid..to];
  }

  /** The first values of a scan, one group after the other; `at` says where each begins. */
  ghost predicate Laid(codes: map<nat, (nat, nat)>, values: seq<int>, k: nat, buffer: Bits, at: seq<nat>) {
    && |at| == k + 1 <= |values| + 1 && at[0] == 0 && at[k] == |buffer|
    && forall j :: 0 <= j < k ==> Group(codes, Diff(values, j), buffer, at[j], at[j + 1])
  }

  lemma LaidMore(codes: map<nat, (nat, nat)>, values: seq<int>, k: nat, buffer: Bits, at: seq<nat>, more: Bits)
    requires Laid(codes, values, k, buffer, at) && k < |values|
    requires Group(codes, Diff(values, k), buffer + more, |buffer|, |buffer + more|)
    ensures Laid(codes, values, k + 1, buffer + more, at + [|buffer + more|])
  {
    hide Group, Diff;
    forall j | 0 <= j < k ensures Group(codes, Diff(values, j), buffer + more, at[j], at[j + 1]) {
      GroupStays(codes, Diff(values, j), buffer, at[j], at[j + 1], more);
    }
  }

  /** The second pass: each size's code and the bits of the difference. */
  method Write(codes: map<nat, (nat, nat)>, values: seq<int>) returns (buffer: Bits, ghost at: seq<nat>)
    requires Covers(codes, values) && forall s :: s in codes ==> codes[s].0 < Pow2(codes[s].1)
    ensures buffer == DcBits(codes, values, 0) && Laid(codes, values, |values|, buffer, at)
  {
    hide Pow2, CodeBits, Size, Amplitude, Group;
    buffer, at := [], [0];
    var last := 0;
    for k := 0 to |values|
      invariant last == if k == 0 then 0 else values[k - 1]
      invariant buffer + DcBits(codes, values, k) == DcBits(codes, values, 0)
      invariant Laid(codes, values, k, buffer, at)
    {
      var diff := values[k] - last;
      assert diff == Diff(values, k);
      last := values[k];
      var n := Size(diff);
      AmplitudeFits(diff);
      ghost var before, more := buffer, CodeBits(codes[n].0, codes[n].1) + CodeBits(Amplitude(diff, n), n);
      buffer := Emit(buffer, codes[n].0, codes[n].1);
      if n > 0 {
        buffer := Emit(buffer, Amplitude(diff, n), n);
      } else {
        CodeBitsNone(Amplitude(diff, n));
      }
      assert buffer == before + more;
      GroupWritten(codes, diff, before, buffer);
      LaidMore(codes, values, k, before, at, more);
      at := at + [|buffer|];
    }
  }

  /** Reading a size, that many bits, and adding up: the values that were written. */
  method Read(reader: BitReader, table: map<(nat, nat), nat>, n: nat, ghost bits: seq<nat>, ghost symbols: seq<nat>,
              ghost codes: map<nat, (nat, nat)>, ghost values: seq<int>, ghost pad: Bits)
    returns (r: Option<seq<int>>)
    requires TableOk(bits, symbols) && CodesOk(bits, symbols, codes) && DecoderOk(bits, symbols, table)
    requires n == |values| && Covers(codes, values)
    requires reader.bitpos == 0 && MsbBytes(reader.raw) == DcBits(codes, values, 0) + pad
    modifies reader
    ensures r == Some(values)
  {
    hide TableOk, DecoderOk, Assigned, Decode, MsbBytes, Ahead, Pow2, CodeBits, MsbValue, Size, Amplitude, Extend;
    var read: seq<int> := [];
    var predictor := 0;
    ghost var b := MsbBytes(reader.raw);
    for k := 0 to n
      invariant read == values[..k] && reader.bitpos <= |b| && predictor == if k == 0 then 0 else values[k - 1]
      invariant b[reader.bitpos..] == DcBits(codes, values, k) + pad
    {
      ghost var diff := Diff(values, k);
      ghost var more := DcBits(codes, values, k + 1) + pad;
      AmplitudeFits(diff);
      DcFirst(codes, values, k, pad);
      NextCode(reader.raw, reader.bitpos, bits, symbols, codes, table, Size(diff),
               CodeBits(Amplitude(diff, Size(diff)), Size(diff)) + more);
      var size := reader.DecodeSymbol(table);
      if size.None? {
        return None;
      }
      NextBits(reader.raw, reader.bitpos, Amplitude(diff, Size(diff)), Size(diff), more);
      if size.value > 0 {
        var value := reader.ReadBits(size.value);
        predictor := predictor + Extend(value, size.value);
      } else {
        ZeroSize(diff);
      }
      read := read + [predictor];
    }
    assert values[..n] == values;
    return Some(read);
  }

  lemma ZeroSize(diff: int)
    requires Size(diff) == 0
    ensures diff == 0
  {
  }

  lemma DcFirst(codes: map<nat, (nat, nat)>, values: seq<int>, k: nat, pad: Bits)
    requires k < |values| && Covers(codes, values)
    ensures var diff := Diff(values, k);
            var n := Size(diff);
            && 0 <= Amplitude(diff, n)
            && DcBits(codes, values, k) + pad
               == CodeBits(codes[n].0, codes[n].1) + (CodeBits(Amplitude(diff, n), n) + (DcBits(codes, values, k + 1) + pad))
  {
    hide CodeBits, Size, Amplitude;
    AmplitudeFits(Diff(values, k));
  }

  /**
   A whole scan: sizes counted, a table made of the counts, the values written
   with it, packed and stuffed; and read back up to the marker.
   */
  method WriteAndRead(values: seq<int>, marker: byte, tail: seq<byte>)
    returns (r: Option<seq<int>>)
    requires |values| < HuffmanMerge.UNLIMITED && marker != 0
    requires forall k :: 0 <= k < |values| ==> Size(Diff(values, k)) < 256
    ensures r.Some? ==> r.value == values
    ensures 0 < |values| < 9_227_464 ==> r.Some?
    ensures |values| == 0 ==> r.None?
  {
    hide TableOk, DecoderOk, Assigned, MsbBytes, Pow2, Stuffed, UnstuffedFrom, HuffmanCost.Sum, HuffmanCost.Optimal,
      Ordered, DcBits;
    var freq := Count(values);
    SumLast(freq, 1);
    if values != [] {
      assert freq[Size(Diff(values, 0))] > 0;
    }
    var table;
    ghost var sizes;
    table, sizes := OptimalTable(freq);
    if table.None? {
      return None;
    }
    var (bits, symbols) := table.value;
    var codes := CodeTable(bits, symbols);
    TableCodes(bits, symbols, codes);
    forall s | s in codes ensures codes[s].0 < Pow2(codes[s].1) {
      CodeFits(bits, symbols, codes, s);
    }
    assert Covers(codes, values);
    var buffer;
    ghost var at;
    buffer, at := Write(codes, values);
    var out;
    ghost var bytes, pad;
    out, bytes, pad := Pack(buffer);
    var decoder := BuildDecoder(bits, symbols);
    UnstuffStuffed(bytes, [0xff, marker] + tail);
    var raw := Unstuff(out + ([0xff, marker] + tail));
    var reader := new BitReader(raw.value);
    r := Read(reader, decoder, |values|, bits, symbols, codes, values, pad);
  }
}
