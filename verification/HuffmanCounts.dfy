/**
 A prefix code given by how many codes it has of each length: completeness,
 limiting the longest codes to sixteen bits (section K.2 of ITU-T T.81), and
 the canonical codes (Annex C).
 */
module HuffmanCounts {
  import opened BitStreams

  /**
   Where the canonical code counter stands after the codes of length `n`. It is
   also the Kraft sum up to that length in units of 2^-n.
   */
  function Codes(bits: seq<nat>, n: nat): nat
    requires n < |bits|
  {
    if n == 0 then 0 else 2 * Codes(bits, n - 1) + bits[n]
  }

  /** How many codes there are up to length `n`. */
  function Total(bits: seq<nat>, n: nat): nat
    requires n < |bits|
  {
    if n == 0 then 0 else Total(bits, n - 1) + bits[n]
  }

  /** The code is complete: no bit string is left over. */
  predicate Complete(bits: seq<nat>, n: nat)
    requires n < |bits|
  {
    Codes(bits, n) == Pow2(n)
  }

  /** No code is longer than `n`. */
  predicate Within(bits: seq<nat>, n: nat) {
    forall k :: n < k < |bits| ==> bits[k] == 0
  }

  lemma {:induction false} CompleteDown(bits: seq<nat>, n: nat, m: nat)
    requires n <= m < |bits| && Complete(bits, m) && Within(bits, n)
    ensures Complete(bits, n)
    decreases m
  {
    if n < m {
      assert bits[m] == 0;
      CompleteDown(bits, n, m - 1);
    }
  }

  lemma {:induction false} TotalGrows(bits: seq<nat>, k: nat, n: nat)
    requires k <= n < |bits|
    ensures Total(bits, k) <= Total(bits, n)
    ensures 1 <= k ==> bits[k] <= Total(bits, n)
    decreases n
  {
    if k < n {
      TotalGrows(bits, k, n - 1);
    }
  }

  lemma {:induction false} NothingShort(bits: seq<nat>, n: nat)
    requires n < |bits| && forall k :: 1 <= k <= n ==> bits[k] == 0
    ensures Codes(bits, n) == 0 && Total(bits, n) == 0
  {
    if n > 0 {
      NothingShort(bits, n - 1);
    }
  }

  // -------------------------------------------------------------- limiting

  /**
   A pair of codes of length `i` becomes one of length `i - 1`, and a code of
   length `j` makes room below it for the other.
   */
  function Split(bits: seq<nat>, i: nat, j: nat): seq<nat>
    requires 1 <= j && j + 2 <= i < |bits| && bits[i] >= 2 && bits[j] >= 1
  {
    var a := bits[i := bits[i] - 2];
    var b := a[i - 1 := a[i - 1] + 1];
    var c := b[j + 1 := b[j + 1] + 2];
    c[j := c[j] - 1]
  }

  lemma {:induction false} SplitCodes(bits: seq<nat>, i: nat, j: nat, n: nat)
    requires 1 <= j && j + 2 <= i < |bits| && bits[i] >= 2 && bits[j] >= 1 && n < |bits|
    ensures Codes(Split(bits, i, j), n) == Codes(bits, n) + if n == j then -1 else if n == i - 1 then 1 else 0
    ensures Total(Split(bits, i, j), n)
         == Total(bits, n) + if n < j then 0 else if n == j then -1 else if n < i - 1 then 1 else if n < i then 2 else 0
  {
    if n > 0 {
      SplitCodes(bits, i, j, n - 1);
    }
  }

  /** The longest codes come in pairs. */
  lemma LongestEven(bits: seq<nat>, i: nat)
    requires 1 <= i < |bits| && Complete(bits, |bits| - 1) && Within(bits, i)
    ensures bits[i] % 2 == 0
  {
    CompleteDown(bits, i, |bits| - 1);
  }

  lemma {:induction false} Pow2Grows(m: nat, n: nat)
    requires m <= n
    ensures Pow2(m) <= Pow2(n)
    decreases n
  {
    if m < n {
      Pow2Grows(m, n - 1);
    }
  }

  /** With few enough codes there is always a code more than one bit shorter than the longest. */
  lemma ShorterExists(bits: seq<nat>, i: nat)
    requires 17 <= i < |bits| && Complete(bits, |bits| - 1) && Within(bits, i) && Total(bits, |bits| - 1) <= 257
    ensures exists j :: 1 <= j <= i - 2 && bits[j] > 0
  {
    if forall j :: 1 <= j <= i - 2 ==> bits[j] == 0 {
      CompleteDown(bits, i, |bits| - 1);
      NothingShort(bits, i - 2);
      assert Codes(bits, i) == 2 * bits[i - 1] + bits[i];
      assert Total(bits, i) == bits[i - 1] + bits[i];
      TotalGrows(bits, i, |bits| - 1);
      Pow2Grows(17, i);
      Pow2Values();
      assert false;
    }
  }

  /** Of the longest codes, over sixteen bits, two go; of those at least two bits shorter the longest makes way for them. */
  ghost predicate Shortens(bits: seq<nat>, bits': seq<nat>, i: nat, j: nat) {
    && 17 <= i < |bits| == |bits'| && Within(bits, i) && bits[i] > 0
    && 1 <= j <= i - 2 && bits[j] > 0 && (forall k :: j < k <= i - 2 ==> bits[k] == 0)
    && forall k :: 0 <= k < |bits| ==>
         bits'[k] + (if k == i then 2 else 0) + (if k == j then 1 else 0)
         == bits[k] + (if k == i - 1 then 1 else 0) + (if k == j + 1 then 2 else 0)
  }

  ghost predicate Shortened(bits: seq<nat>, bits': seq<nat>) {
    exists i, j :: Shortens(bits, bits', i, j)
  }

  /** One such step after the other, until no code is over sixteen bits. */
  ghost predicate Limited(start: seq<nat>, bits: seq<nat>) {
    Within(bits, 16) && exists steps :: Steps(start, bits, steps)
  }

  ghost predicate Steps(start: seq<nat>, bits: seq<nat>, steps: seq<seq<nat>>) {
    && |steps| > 0 && steps[0] == start && steps[|steps| - 1] == bits
    && forall n :: 0 <= n < |steps| - 1 ==> Shortened(steps[n], steps[n + 1])
  }

  lemma SplitShortens(bits: seq<nat>, i: nat, j: nat)
    requires 17 <= i < |bits| && Within(bits, i) && bits[i] >= 2 && 1 <= j <= i - 2 && bits[j] > 0
    requires forall k :: j < k <= i - 2 ==> bits[k] == 0
    ensures Shortened(bits, Split(bits, i, j))
  {
    assert Shortens(bits, Split(bits, i, j), i, j);
  }

  lemma OneStep(start: seq<nat>)
    ensures Steps(start, start, [start])
  {
  }

  lemma StepMore(start: seq<nat>, bits: seq<nat>, steps: seq<seq<nat>>, next: seq<nat>)
    requires Steps(start, bits, steps) && Shortened(bits, next)
    ensures Steps(start, next, steps + [next])
  {
    hide Shortened;
  }

  /** The longest length in use of those at least two bits shorter than `i`. */
  method Shorter(bits: seq<nat>, i: nat) returns (j: nat)
    requires 17 <= i < |bits| && Complete(bits, |bits| - 1) && Within(bits, i) && Total(bits, |bits| - 1) <= 257
    ensures 1 <= j <= i - 2 && bits[j] > 0 && forall k :: j < k <= i - 2 ==> bits[k] == 0
  {
    ShorterExists(bits, i);
    j := i - 2;
    while bits[j] == 0
      invariant 1 <= j <= i - 2 && exists k :: 1 <= k <= j && bits[k] > 0
      invariant forall k :: j < k <= i - 2 ==> bits[k] == 0
      decreases j
    {
      j := j - 1;
    }
  }

  /** Limits the code lengths to sixteen. */
  method Limit(start: seq<nat>) returns (bits: seq<nat>)
    requires |start| == 33 && Complete(start, 32) && Total(start, 32) <= 257
    ensures |bits| == 33 && Complete(bits, 32) && Total(bits, 32) == Total(start, 32) && Within(bits, 16)
    ensures Within(start, 16) ==> bits == start
    ensures Limited(start, bits)
  {
    hide Codes, Total, Shortened, Steps;
    bits := start;
    ghost var steps := [start];
    assert Steps(start, bits, steps) by { OneStep(start); }
    var i := 32;
    while i > 16
      invariant 16 <= i <= 32 && |bits| == 33
      invariant Complete(bits, 32) && Total(bits, 32) == Total(start, 32) && Within(bits, i)
      invariant Within(start, 16) ==> bits == start
      invariant Steps(start, bits, steps)
    {
      while bits[i] > 0
        invariant |bits| == 33 && Steps(start, bits, steps)
        invariant Complete(bits, 32) && Total(bits, 32) == Total(start, 32) && Within(bits, i)
        invariant Within(start, 16) ==> bits == start
        decreases bits[i]
      {
        var j := Shorter(bits, i);
        LongestEven(bits, i);
        SplitCodes(bits, i, j, 32);
        SplitShortens(bits, i, j);
        StepMore(start, bits, steps, Split(bits, i, j));
        bits := Split(bits, i, j);
        steps := steps + [bits];
      }
      i := i - 1;
    }
  }

  // -------------------------------------------------------- one code less

  /** One more code of length `k`. */
  lemma {:induction false} OneMore(bits: seq<nat>, k: nat, n: nat)
    requires 1 <= k < |bits| && n < |bits|
    ensures var more := bits[k := bits[k] + 1];
            && Codes(more, n) == Codes(bits, n) + (if n < k then 0 else Pow2(n - k))
            && Total(more, n) == Total(bits, n) + (if n < k then 0 else 1)
  {
    if n > 0 {
      OneMore(bits, k, n - 1);
    }
  }

  /** A counter that falls short of 2^n has fallen short all along: no code is all ones. */
  lemma {:induction false} ShortAllAlong(bits: seq<nat>, k: nat, n: nat)
    requires k <= n < |bits| && Codes(bits, n) < Pow2(n)
    ensures Codes(bits, k) < Pow2(k)
    decreases n
  {
    if k < n {
      ShortAllAlong(bits, k, n - 1);
    }
  }

  /** Drops one code of the greatest length: the one the reserved symbol would have. */
  method DropLongest(start: seq<nat>) returns (bits: seq<nat>, ghost longest: nat)
    requires |start| == 33 && Complete(start, 32) && Within(start, 16)
    ensures |bits| == 33 && Within(bits, 16) && Codes(bits, 16) < Pow2(16)
    ensures Total(bits, 32) + 1 == Total(start, 32)
    ensures 1 <= longest <= 16 && start[longest] > 0 && Within(start, longest) && bits == start[longest := start[longest] - 1]
  {
    hide Codes, Total, Pow2;
    CompleteDown(start, 16, 32);
    var i := 16;
    while start[i] == 0
      invariant 1 <= i <= 16 && forall k :: i < k <= 16 ==> start[k] == 0
      decreases i
    {
      if i == 1 {
        NothingShort(start, 16);
        assert false;
      }
      i := i - 1;
    }
    bits, longest := start[i := start[i] - 1], i;
    OneMore(bits, i, 16);
    OneMore(bits, i, 32);
    assert bits[i := bits[i] + 1] == start;
  }
}
