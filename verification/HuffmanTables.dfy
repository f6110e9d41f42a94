/**
 From code lengths to a table of at most sixteen-bit codes and back: counting
 the lengths, ordering the symbols, assigning the canonical codes and the
 decoder's table (section K.2 and Annex C of ITU-T T.81).
 */
module HuffmanTables {
  import opened Options
  import opened BitStreams
  import opened HuffmanMerge
  import HuffmanCost
  import opened HuffmanCounts

  // ----------------------------------------------------------- counting

  /** How many of the first `n` symbols have a code shorter than `limit` bits. */
  function Count(sizes: seq<nat>, n: nat, limit: nat): (c: nat)
    requires n <= |sizes|
    ensures c <= n
  {
    if n == 0 then 0 else Count(sizes, n - 1, limit) + if 1 <= sizes[n - 1] < limit then 1 else 0
  }

  function Fits(size: nat): (r: nat) {
    if 1 <= size <= 32 then Pow2(32 - size) else 0
  }

  /** The share of all bit strings the first `n` symbols take, in units of 2^-32. */
  ghost function Scaled(sizes: seq<nat>, n: nat, among: set<nat>): nat
    requires n <= |sizes|
  {
    if n == 0 then 0 else Scaled(sizes, n - 1, among) + if n - 1 in among then Fits(sizes[n - 1]) else 0
  }

  lemma {:induction false} ScaledOne(sizes: seq<nat>, n: nat, among: set<nat>, m: nat)
    requires n <= |sizes| && m !in among
    ensures Scaled(sizes, n, among + {m}) == Scaled(sizes, n, among) + if m < n then Fits(sizes[m]) else 0
  {
    if n > 0 {
      ScaledOne(sizes, n - 1, among, m);
    }
  }

  lemma {:induction false} ScaledNone(sizes: seq<nat>, n: nat)
    requires n <= |sizes|
    ensures Scaled(sizes, n, {}) == 0
  {
    if n > 0 {
      ScaledNone(sizes, n - 1);
    }
  }

  /** `a` parts of size `h`. */
  ghost function Share(a: nat, h: real): real {
    a as real * h
  }

  lemma ShareFacts(a: nat, b: nat, h: real)
    ensures Share(0, h) == 0.0 && Share(1, h) == h && Share(a + b, h) == Share(a, h) + Share(b, h)
    ensures h > 0.0 && Share(a, h) == Share(b, h) ==> a == b
  {
  }

  lemma Steps(c: nat, n: nat)
    ensures Half(c) == 2.0 * Half(c + 1) && Pow2(n + 1) == Pow2(n) + Pow2(n) && Pow2(0) == 1 && Half(0) == 1.0
  {
  }

  lemma {:induction false} HalfScale(c: nat, h: real)
    requires c <= 32 && h == Half(32)
    ensures Half(c) == Share(Pow2(32 - c), h)
    decreases 32 - c
  {
    hide Half, Pow2, Share;
    if c < 32 {
      HalfScale(c + 1, h);
      Steps(c, 31 - c);
      ShareFacts(Pow2(31 - c), Pow2(31 - c), h);
    } else {
      Steps(0, 0);
      ShareFacts(0, 0, h);
    }
  }

  /** The weight of a list of symbols, as the sum over its set. */
  lemma {:induction false} WeightScaled(sizes: seq<nat>, members: seq<nat>, among: set<nat>, h: real)
    requires Bounded(members, |sizes|) && NoRepeat(members) && h == Half(32)
    requires among == set x | x in members
    requires forall k :: 0 <= k < |members| ==> 1 <= sizes[members[k]] <= 32
    ensures Weight(sizes, members) == Share(Scaled(sizes, |sizes|, among), h)
  {
    hide Half, Pow2, Share;
    if members == [] {
      ScaledNone(sizes, |sizes|);
      assert among == {};
      ShareFacts(0, 0, h);
    } else {
      var m, rest := members[0], members[1..];
      var others := set x | x in rest;
      forall k | 0 <= k < |rest| ensures 1 <= sizes[rest[k]] <= 32 && rest[k] != m {
        assert rest[k] == members[k + 1];
      }
      WeightScaled(sizes, rest, others, h);
      assert among == others + {m};
      ScaledOne(sizes, |sizes|, others, m);
      HalfScale(sizes[m], h);
      ShareFacts(Scaled(sizes, |sizes|, others), Pow2(32 - sizes[m]), h);
    }
  }

  lemma WeightOne(sizes: seq<nat>, members: seq<nat>, among: set<nat>)
    requires Bounded(members, |sizes|) && NoRepeat(members) && Weight(sizes, members) == 1.0
    requires among == set x | x in members
    requires forall x :: 0 <= x < |sizes| ==> (sizes[x] > 0 <==> x in members)
    requires forall x :: 0 <= x < |sizes| ==> sizes[x] <= 32
    ensures Scaled(sizes, |sizes|, among) == Pow2(32)
  {
    hide Weight, Scaled, Half, Pow2, Share;
    forall k | 0 <= k < |members| ensures 1 <= sizes[members[k]] <= 32 {
      assert members[k] in members;
    }
    WeightScaled(sizes, members, among, Half(32));
    HalfScale(0, Half(32));
    Steps(0, 0);
    ShareFacts(Scaled(sizes, |sizes|, among), Pow2(32), Half(32));
  }

  /** How many symbols have each code length; none when a length is over 32. */
  method CountSizes(sizes: seq<nat>, ghost members: seq<nat>) returns (r: Option<seq<nat>>)
    requires |sizes| == SYMBOLS && Bounded(members, SYMBOLS) && NoRepeat(members) && Weight(sizes, members) == 1.0
    requires forall x :: 0 <= x < SYMBOLS ==> (sizes[x] > 0 <==> x in members)
    ensures r.None? <==> exists x :: 0 <= x < SYMBOLS && sizes[x] > 32
    ensures r.Some? ==>
      && |r.value| == 33 && Complete(r.value, 32) && Total(r.value, 32) == Count(sizes, SYMBOLS, 33)
      && forall l :: 1 <= l <= 32 ==> r.value[l] == CountAt(sizes, SYMBOLS, l)
  {
    hide Weight, Codes, Total, Pow2;
    var bits := seq(33, _ => 0);
    assert Codes(bits, 32) == 0 && Total(bits, 32) == 0 by { NothingShort(bits, 32); }
    ghost var among := set x | x in members;
    for i := 0 to SYMBOLS
      invariant |bits| == 33 && forall x :: 0 <= x < i ==> sizes[x] <= 32
      invariant Codes(bits, 32) == Scaled(sizes, i, among) && Total(bits, 32) == Count(sizes, i, 33)
      invariant forall l :: 1 <= l <= 32 ==> bits[l] == CountAt(sizes, i, l)
    {
      if sizes[i] > 0 {
        if sizes[i] > 32 {
          return None;
        }
        OneMore(bits, sizes[i], 32);
        bits := bits[sizes[i] := bits[sizes[i]] + 1];
      }
    }
    WeightOne(sizes, members, among);
    return Some(bits);
  }

  // ----------------------------------------------------------- symbol order

  /** Symbol `a` comes before `b`: a shorter code, or the same length and a smaller number. */
  ghost predicate Before(sizes: seq<nat>, a: nat, b: nat)
    requires a < |sizes| && b < |sizes|
  {
    sizes[a] < sizes[b] || (sizes[a] == sizes[b] && a < b)
  }

  ghost predicate Ordered(sizes: seq<nat>, values: seq<nat>) {
    && Bounded(values, |sizes|)
    && forall j, k :: 0 <= j < k < |values| ==> Before(sizes, values[j], values[k])
  }

  /** How many of the first `n` symbols have codes of exactly `size` bits. */
  function CountAt(sizes: seq<nat>, n: nat, size: nat): nat
    requires n <= |sizes|
  {
    if n == 0 then 0 else CountAt(sizes, n - 1, size) + if sizes[n - 1] == size then 1 else 0
  }

  lemma {:induction false} CountNext(sizes: seq<nat>, n: nat, size: nat)
    requires n <= |sizes| && size >= 1
    ensures Count(sizes, n, size + 1) == Count(sizes, n, size) + CountAt(sizes, n, size)
    ensures Count(sizes, n, 1) == 0
  {
    if n > 0 {
      CountNext(sizes, n - 1, size);
    }
  }

  lemma {:induction false} CountAtGrows(sizes: seq<nat>, m: nat, n: nat, size: nat)
    requires m <= n <= |sizes|
    ensures CountAt(sizes, m, size) <= CountAt(sizes, n, size)
  {
    if m < n {
      CountAtGrows(sizes, m, n - 1, size);
    }
  }

  /** Place `k` is among those of symbol `x`'s code length. */
  ghost predicate InTurn(sizes: seq<nat>, x: nat, k: nat) {
    && |sizes| == SYMBOLS && x < |sizes|
    && Count(sizes, 256, sizes[x]) <= k < Count(sizes, 256, sizes[x] + 1)
  }

  lemma InTurnAt(sizes: seq<nat>, x: nat, k: nat)
    requires |sizes| == SYMBOLS && x < 256 && sizes[x] >= 1
    requires k == Count(sizes, 256, sizes[x]) + CountAt(sizes, x, sizes[x])
    ensures InTurn(sizes, x, k)
  {
    hide Count;
    CountNext(sizes, 256, sizes[x]);
    CountAtGrows(sizes, x + 1, 256, sizes[x]);
  }

  /** The symbols that have codes, by code length and then by number; the reserved one is left out. */
  method SortSymbols(sizes: seq<nat>) returns (values: seq<nat>)
    requires |sizes| == SYMBOLS
    ensures Ordered(sizes, values) && |values| == Count(sizes, 256, 33)
    ensures forall x :: x in values <==> 0 <= x < 256 && 1 <= sizes[x] <= 32
    ensures forall k :: 0 <= k < |values| ==> InTurn(sizes, values[k], k)
  {
    hide Count, InTurn;
    values := [];
    CountNext(sizes, 256, 1);
    for size := 1 to 33
      invariant Ordered(sizes, values) && |values| == Count(sizes, 256, size)
      invariant forall x :: x in values <==> 0 <= x < 256 && 1 <= sizes[x] < size
      invariant forall k :: 0 <= k < |values| ==> InTurn(sizes, values[k], k)
    {
      CountNext(sizes, 256, size);
      for sym := 0 to 256
        invariant Ordered(sizes, values) && |values| == Count(sizes, 256, size) + CountAt(sizes, sym, size)
        invariant forall x :: x in values <==>
          0 <= x < 256 && (1 <= sizes[x] < size || (sizes[x] == size && x < sym))
        invariant forall k :: 0 <= k < |values| ==> InTurn(sizes, values[k], k)
      {
        if sizes[sym] == size {
          InTurnAt(sizes, sym, |values|);
          forall j | 0 <= j < |values| ensures Before(sizes, values[j], sym) {
            assert values[j] in values;
          }
          values := values + [sym];
        }
      }
    }
  }

  lemma OrderedDistinct(sizes: seq<nat>, values: seq<nat>)
    requires Ordered(sizes, values)
    ensures NoRepeat(values)
  {
    forall j, k | 0 <= j < k < |values| ensures values[j] != values[k] {
      assert Before(sizes, values[j], values[k]);
    }
  }

  // ------------------------------------------------------- the whole table

  /**
   A table a decoder can use: codes of at most sixteen bits, one for each value,
   with at least one bit string to spare.
   */
  ghost predicate TableOk(bits: seq<nat>, values: seq<nat>) {
    && |bits| == 33 && Within(bits, 16)
    && Codes(bits, 16) < Pow2(16)
    && |values| == Total(bits, 16) && NoRepeat(values)
  }

  lemma {:induction false} TotalWithin(bits: seq<nat>, n: nat, m: nat)
    requires n <= m < |bits| && Within(bits, n)
    ensures Total(bits, m) == Total(bits, n)
    decreases m
  {
    if n < m {
      assert bits[m] == 0;
      TotalWithin(bits, n, m - 1);
    }
  }

  /** The counts of a table: how many symbols have each length, limited to sixteen bits, less one of the longest. */
  ghost predicate Emitted(sizes: seq<nat>, bits: seq<nat>)
    requires |sizes| == SYMBOLS
  {
    exists counted, limited, k :: Issues(sizes, counted, limited, k, bits)
  }

  ghost predicate Issues(sizes: seq<nat>, counted: seq<nat>, limited: seq<nat>, k: nat, bits: seq<nat>)
    requires |sizes| == SYMBOLS
  {
    && |counted| == |limited| == 33 && (forall l :: 1 <= l <= 32 ==> counted[l] == CountAt(sizes, SYMBOLS, l))
    && Limited(counted, limited) && 1 <= k <= 16 && limited[k] > 0 && Within(limited, k) && bits == limited[k := limited[k] - 1]
  }

  /**
   A table for the symbols that occur. There is none when no symbol occurs, or
   when Huffman's algorithm, whose lengths `sizes` no prefix code betters, gives
   a code of more than 32 bits. That takes a total count of over nine million.
   */
  method OptimalTable(counts: seq<nat>) returns (r: Option<(seq<nat>, seq<nat>)>, ghost sizes: seq<nat>)
    requires |counts| == 256 && HuffmanCost.Sum(counts + [1]) <= UNLIMITED
    ensures |sizes| == SYMBOLS
    ensures r.None? <==> (forall s :: 0 <= s < 256 ==> counts[s] == 0) || exists x :: 0 <= x < SYMBOLS && sizes[x] > 32
    ensures HuffmanCost.Optimal(counts + [1], sizes)
    ensures HuffmanCost.Sum(counts + [1]) < 9_227_465 && (exists s :: 0 <= s < 256 && counts[s] > 0) ==> r.Some?
    ensures r.Some? ==>
      && TableOk(r.value.0, r.value.1) && Ordered(sizes, r.value.1)
      && forall s :: s in r.value.1 <==> 0 <= s < 256 && counts[s] > 0
    ensures forall x :: 0 <= x < SYMBOLS ==> sizes[x] <= sizes[256]
    ensures r.Some? && sizes[256] <= 16 ==>
      forall k: nat, code: nat, length: nat :: Assigned(r.value.0, k, code, length) ==>
        k < |r.value.1| && length == sizes[r.value.1[k]]
    ensures r.Some? ==> Emitted(sizes, r.value.0)
  {
    hide Limited, Within, Weight, Codes, Total, Pow2, HuffmanCost.Sum, HuffmanCost.Optimal, Count, Ordered, NoRepeat,
      Least;
    var lengths;
    ghost var members;
    lengths, members := CodeSizes(counts);
    ShortEnough(lengths, HuffmanCost.Sum(counts + [1]));
    sizes := lengths;
    assert (counts + [1])[256] == 1;
    assert forall s :: 0 <= s < 256 ==> (counts + [1])[s] == counts[s];
    assert 256 in members;
    if lengths[256] == 0 {
      Alone(members, counts);
      return None, sizes;
    }
    OnlyReserved(members, counts);
    var counted := CountSizes(lengths, members);
    if counted.None? {
      return None, sizes;
    }
    CountReserved(lengths);
    var limited := Limit(counted.value);
    var bits;
    ghost var longest;
    bits, longest := DropLongest(limited);
    TotalWithin(bits, 16, 32);
    assert Issues(lengths, counted.value, limited, longest, bits);
    var values := SortSymbols(lengths);
    OrderedDistinct(lengths, values);
    if lengths[256] <= 16 {
      LengthsKept(lengths, counted.value, longest, bits, values);
    }
    return Some((bits, values)), sizes;
  }

  lemma {:induction false} NoneAt(sizes: seq<nat>, n: nat, size: nat)
    requires n <= |sizes| && forall x :: 0 <= x < n ==> sizes[x] != size
    ensures CountAt(sizes, n, size) == 0
  {
    if n > 0 {
      NoneAt(sizes, n - 1, size);
    }
  }

  lemma {:induction false} TotalCounts(sizes: seq<nat>, bits: seq<nat>, n: nat)
    requires |sizes| == SYMBOLS && n < |bits| && forall l :: 1 <= l <= n ==> bits[l] == CountAt(sizes, 256, l)
    ensures Total(bits, n) == Count(sizes, 256, n + 1)
  {
    hide Count, CountAt;
    CountNext(sizes, 256, 1);
    if n > 0 {
      TotalCounts(sizes, bits, n - 1);
      CountNext(sizes, 256, n);
    }
  }

  /** The one length whose places hold `k` is the length of the symbol there. */
  lemma InTurnLength(sizes: seq<nat>, bits: seq<nat>, x: nat, k: nat, code: nat, length: nat)
    requires |bits| == 33 && |sizes| == SYMBOLS && x < SYMBOLS && InTurn(sizes, x, k) && Assigned(bits, k, code, length)
    requires 1 <= sizes[x] <= 16 && forall l :: 1 <= l <= 16 ==> bits[l] == CountAt(sizes, 256, l)
    ensures length == sizes[x]
  {
    hide Count, CountAt, Total, Codes;
    TotalCounts(sizes, bits, sizes[x]);
    TotalCounts(sizes, bits, sizes[x] - 1);
    if length < sizes[x] {
      TotalGrows(bits, length, sizes[x] - 1);
    } else if length > sizes[x] {
      TotalGrows(bits, sizes[x], length - 1);
    }
  }

  /** With no code over sixteen bits, and the reserved symbol's dropped, every symbol gets a code of its own length. */
  lemma LengthsKept(sizes: seq<nat>, counted: seq<nat>, longest: nat, bits: seq<nat>, values: seq<nat>)
    requires |sizes| == SYMBOLS && |counted| == |bits| == 33 && 1 <= sizes[256] <= 16
    requires forall x :: 0 <= x < SYMBOLS ==> sizes[x] <= sizes[256]
    requires forall l :: 1 <= l <= 32 ==> counted[l] == CountAt(sizes, SYMBOLS, l)
    requires 1 <= longest <= 16 && (Within(counted, 16) ==>
      counted[longest] > 0 && Within(counted, longest) && bits == counted[longest := counted[longest] - 1])
    requires |values| == Total(bits, 16) && forall k :: 0 <= k < |values| ==>
      values[k] < SYMBOLS && InTurn(sizes, values[k], k) && 1 <= sizes[values[k]] <= 16
    ensures forall k: nat, code: nat, length: nat :: Assigned(bits, k, code, length) ==>
      k < |values| && length == sizes[values[k]]
  {
    hide Count, Total, Codes, CountAt, InTurn;
    var h := sizes[256];
    forall l | h < l <= 32 ensures counted[l] == 0 {
      NoneAt(sizes, SYMBOLS, l);
    }
    LastAt(sizes);
    assert longest == h;
    assert bits == counted[h := counted[h] - 1];
    forall l | 1 <= l <= 16 ensures bits[l] == CountAt(sizes, 256, l) {
      LastOther(sizes, l);
    }
    forall k: nat, code: nat, length: nat | Assigned(bits, k, code, length)
      ensures k < |values| && length == sizes[values[k]]
    {
      TotalGrows(bits, length, 16);
      InTurnLength(sizes, bits, values[k], k, code, length);
    }
  }

  lemma LastAt(sizes: seq<nat>)
    requires |sizes| == SYMBOLS
    ensures CountAt(sizes, SYMBOLS, sizes[256]) == CountAt(sizes, 256, sizes[256]) + 1
  {
  }

  lemma LastOther(sizes: seq<nat>, l: nat)
    requires |sizes| == SYMBOLS
    ensures CountAt(sizes, SYMBOLS, l) == CountAt(sizes, 256, l) + if sizes[256] == l then 1 else 0
  {
  }

  lemma ShortEnough(sizes: seq<nat>, total: nat)
    requires |sizes| == SYMBOLS && forall x :: 0 <= x < SYMBOLS ==> sizes[x] > 0 ==> Least(sizes[x]) <= total
    ensures total < 9_227_465 ==> forall x :: 0 <= x < SYMBOLS ==> sizes[x] <= 32
  {
    hide Least;
    LeastValue();
    forall x | 0 <= x < SYMBOLS && sizes[x] > 32 ensures total >= 9_227_465 {
      LeastGrows(33, sizes[x]);
    }
  }

  lemma Alone(members: seq<nat>, counts: seq<nat>)
    requires |counts| == 256 && |members| <= 1 && 256 in members
    requires forall x :: x in members <==> x in HuffmanMerge.Used(counts + [1])
    ensures forall s :: 0 <= s < 256 ==> counts[s] == 0
  {
    forall s | 0 <= s < 256 ensures counts[s] == 0 {
      assert (counts + [1])[s] == counts[s];
      assert s !in members;
    }
  }

  /** When more symbols than the reserved one have codes, some symbol occurs. */
  lemma OnlyReserved(members: seq<nat>, counts: seq<nat>)
    requires |counts| == 256 && |members| > 1 && NoRepeat(members)
    requires forall x :: x in members <==> x in HuffmanMerge.Used(counts + [1])
    ensures exists s :: 0 <= s < 256 && counts[s] > 0
  {
    assert members[0] != members[1];
    var s := if members[0] == 256 then members[1] else members[0];
    assert s in members;
    assert (counts + [1])[s] == counts[s];
  }

  lemma CountReserved(sizes: seq<nat>)
    requires |sizes| == SYMBOLS && 1 <= sizes[256] <= 32
    ensures Count(sizes, SYMBOLS, 33) == Count(sizes, 256, 33) + 1 <= 257
  {
  }

  // -------------------------------------------------------------- the codes

  /** The `k`-th value has code `code` of `length` bits. */
  ghost predicate Assigned(bits: seq<nat>, k: nat, code: nat, length: nat)
    requires |bits| == 33
  {
    && 1 <= length <= 16
    && Total(bits, length - 1) <= k < Total(bits, length)
    && code == 2 * Codes(bits, length - 1) + (k - Total(bits, length - 1))
  }

  /** Where the codes of one length lie. */
  lemma AssignedRange(bits: seq<nat>, k: nat, code: nat, length: nat)
    requires |bits| == 33 && Assigned(bits, k, code, length)
    ensures 2 * Codes(bits, length - 1) <= code < Codes(bits, length)
  {
  }

  lemma {:induction false} CodesDouble(bits: seq<nat>, k: nat, n: nat)
    requires k <= n < |bits|
    ensures Pow2(n - k) * Codes(bits, k) <= Codes(bits, n)
    decreases n
  {
    if k < n {
      CodesDouble(bits, k, n - 1);
      Doubled(Pow2(n - 1 - k), Codes(bits, k), Codes(bits, n - 1), Pow2(n - k), Codes(bits, n));
    }
  }

  lemma Doubled(p: nat, c: nat, d: nat, p': nat, d': nat)
    requires p * c <= d && p' == 2 * p && d' >= 2 * d
    ensures p' * c <= d'
  {
    assert p' * c == 2 * (p * c);
  }

  /** Between two lengths with no code in between, the codes of the shorter are doubled and no more. */
  lemma {:induction false} CodesSkip(bits: seq<nat>, m: nat, n: nat)
    requires m <= n < |bits| && Total(bits, m) == Total(bits, n)
    ensures Codes(bits, n) == Codes(bits, m) * Pow2(n - m)
    decreases n
  {
    if m < n {
      TotalGrows(bits, m, n - 1);
      CodesSkip(bits, m, n - 1);
      assert Codes(bits, n) == 2 * Codes(bits, n - 1);
      DoubleProduct(Codes(bits, m), Pow2(n - 1 - m), Pow2(n - m));
    }
  }

  lemma DoubleProduct(c: nat, p: nat, p': nat)
    requires p' == 2 * p
    ensures 2 * (c * p) == c * p'
  {
  }

  /**
   Codes count up: the first is zero, and each is one more than the one before,
   with as many zero bits behind it as it is longer.
   */
  lemma CountUp(bits: seq<nat>, k: nat, code: nat, length: nat, next: nat, longer: nat)
    requires |bits| == 33 && Assigned(bits, k, code, length)
    ensures k == 0 ==> code == 0
    ensures Assigned(bits, k + 1, next, longer) ==> length <= longer && next == (code + 1) * Pow2(longer - length)
  {
    if k == 0 {
      TotalGrows(bits, 0, length - 1);
      CodesSkip(bits, 0, length - 1);
    }
    if Assigned(bits, k + 1, next, longer) {
      if longer < length {
        TotalGrows(bits, longer, length - 1);
      } else if longer > length {
        TotalGrows(bits, length, longer - 1);
        assert Total(bits, length) == k + 1;
        CodesSkip(bits, length, longer - 1);
        assert code + 1 == Codes(bits, length);
        DoubleProduct(code + 1, Pow2(longer - 1 - length), Pow2(longer - length));
      }
    }
  }

  /** The codes of the values in turn, each from the one before. */
  ghost predicate Counting(values: seq<nat>, codes: map<nat, (nat, nat)>) {
    && (forall k :: 0 <= k < |values| ==> values[k] in codes)
    && (values != [] ==> codes[values[0]].0 == 0)
    && forall j, k :: 0 <= j < k < |values| && k == j + 1 ==> Follows(codes[values[j]], codes[values[k]])
  }

  ghost predicate Follows(a: (nat, nat), b: (nat, nat)) {
    a.1 <= b.1 && b.0 == (a.0 + 1) * Pow2(b.1 - a.1)
  }

  lemma CountingCodes(bits: seq<nat>, values: seq<nat>, codes: map<nat, (nat, nat)>)
    requires |bits| == 33
    requires forall k :: 0 <= k < |values| ==> values[k] in codes && Assigned(bits, k, codes[values[k]].0, codes[values[k]].1)
    ensures Counting(values, codes)
  {
    hide Assigned, Pow2;
    if values != [] {
      CountUp(bits, 0, codes[values[0]].0, codes[values[0]].1, 0, 0);
    }
    forall j, k | 0 <= j < k < |values| && k == j + 1 ensures Follows(codes[values[j]], codes[values[k]]) {
      CountUp(bits, j, codes[values[j]].0, codes[values[j]].1, codes[values[k]].0, codes[values[k]].1);
    }
  }

  /** The codes for the values, shortest first and counting up. */
  method CodeTable(bits: seq<nat>, values: seq<nat>) returns (codes: map<nat, (nat, nat)>)
    requires TableOk(bits, values)
    ensures forall s :: s in codes <==> s in values
    ensures forall k :: 0 <= k < |values| ==> values[k] in codes && Assigned(bits, k, codes[values[k]].0, codes[values[k]].1)
    ensures Counting(values, codes)
  {
    hide Pow2, Counting;
    codes := map[];
    var code, index := 0, 0;
    for length := 1 to 17
      invariant index == Total(bits, length - 1) <= |values| && code == 2 * Codes(bits, length - 1)
      invariant forall s :: s in codes <==> s in values[..index]
      invariant forall k :: 0 <= k < index ==>
        k < |values| && values[k] in codes && Assigned(bits, k, codes[values[k]].0, codes[values[k]].1)
    {
      TotalGrows(bits, length, 16);
      for n := 0 to bits[length]
        invariant index == Total(bits, length - 1) + n <= |values| && code == 2 * Codes(bits, length - 1) + n
        invariant forall s :: s in codes <==> s in values[..index]
        invariant forall k :: 0 <= k < index ==>
          k < |values| && values[k] in codes && Assigned(bits, k, codes[values[k]].0, codes[values[k]].1)
      {
        assert values[..index + 1] == values[..index] + [values[index]];
        codes := codes[values[index] := (code, length)];
        code, index := code + 1, index + 1;
      }
      code := 2 * code;
    }
    assert values[..index] == values;
    CountingCodes(bits, values, codes);
  }

  /** The decoder's table, from length and code to value. */
  method BuildDecoder(bits: seq<nat>, values: seq<nat>) returns (table: map<(nat, nat), nat>)
    requires TableOk(bits, values)
    ensures DecoderOk(bits, values, table)
  {
    hide Pow2, NoRepeat;
    table := map[];
    var code, index := 0, 0;
    for length := 1 to 17
      invariant index == Total(bits, length - 1) && code == 2 * Codes(bits, length - 1)
      invariant forall l: nat, c: nat :: (l, c) in table <==> l < length && Coded(bits, l, c)
      invariant forall l: nat, c: nat :: (l, c) in table ==>
        Rank(bits, l, c) < |values| && table[(l, c)] == values[Rank(bits, l, c)]
    {
      TotalGrows(bits, length, 16);
      for n := 0 to bits[length]
        invariant index == Total(bits, length - 1) + n <= |values| && code == 2 * Codes(bits, length - 1) + n
        invariant forall l: nat, c: nat :: (l, c) in table <==>
          (l < length && Coded(bits, l, c)) || (l == length && 2 * Codes(bits, l - 1) <= c < code)
        invariant forall l: nat, c: nat :: (l, c) in table ==>
          Coded(bits, l, c) && Rank(bits, l, c) < |values| && table[(l, c)] == values[Rank(bits, l, c)]
      {
        table := table[(length, code) := values[index]];
        code, index := code + 1, index + 1;
      }
      code := 2 * code;
    }
  }

  /** There is a code `c` of `l` bits. */
  ghost predicate Coded(bits: seq<nat>, l: nat, c: nat)
    requires |bits| == 33
  {
    1 <= l <= 16 && 2 * Codes(bits, l - 1) <= c < Codes(bits, l)
  }

  /** Which value it stands for. */
  ghost function Rank(bits: seq<nat>, l: nat, c: nat): nat
    requires |bits| == 33 && Coded(bits, l, c)
  {
    Total(bits, l - 1) + (c - 2 * Codes(bits, l - 1))
  }

  ghost predicate DecoderOk(bits: seq<nat>, values: seq<nat>, table: map<(nat, nat), nat>)
    requires |bits| == 33
  {
    && (forall l: nat, c: nat :: (l, c) in table <==> Coded(bits, l, c))
    && (forall l: nat, c: nat :: (l, c) in table ==>
          Rank(bits, l, c) < |values| && table[(l, c)] == values[Rank(bits, l, c)])
  }
}
