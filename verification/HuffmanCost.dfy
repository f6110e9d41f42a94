/**
 Why Huffman's algorithm is optimal: from any code lengths for the trees of a
 forest, lengths for the forest with its two lightest trees merged can be had
 that cost less by at least what the merge costs.
 */
module HuffmanCost {
  import opened BitStreams

  function Sum(freq: seq<nat>): nat {
    if freq == [] then 0 else freq[0] + Sum(freq[1..])
  }

  lemma {:induction false} SumUpdate(freq: seq<nat>, i: nat, v: nat)
    requires i < |freq|
    ensures Sum(freq[i := v]) + freq[i] == Sum(freq) + v && freq[i] <= Sum(freq)
  {
    if i > 0 {
      SumUpdate(freq[1..], i - 1, v);
      assert freq[i := v][1..] == freq[1..][i - 1 := v];
    } else {
      assert freq[i := v][1..] == freq[1..];
    }
  }

  lemma SumMove(freq: seq<nat>, i: nat, j: nat)
    requires i < |freq| && j < |freq| && i != j
    ensures Sum(freq[i := freq[i] + freq[j]][j := 0]) == Sum(freq)
  {
    SumUpdate(freq, i, freq[i] + freq[j]);
    SumUpdate(freq[i := freq[i] + freq[j]], j, 0);
  }

  lemma SumBounds(freq: seq<nat>)
    ensures forall i :: 0 <= i < |freq| ==> freq[i] <= Sum(freq)
  {
    forall i | 0 <= i < |freq| ensures freq[i] <= Sum(freq) {
      SumUpdate(freq, i, 0);
    }
  }

  // ------------------------------------------------------ cost and Kraft sum

  /** The bits it takes to write everything once with codes of these lengths. */
  ghost function Cost(freq: seq<nat>, len: seq<nat>): nat
    requires |freq| == |len|
  {
    if freq == [] then 0 else freq[0] * len[0] + Cost(freq[1..], len[1..])
  }

  lemma {:induction false} CostUpdate(freq: seq<nat>, len: seq<nat>, i: nat, f: nat, l: nat)
    requires i < |freq| == |len|
    ensures Cost(freq[i := f], len[i := l]) + freq[i] * len[i] == Cost(freq, len) + f * l
    decreases i
  {
    if i > 0 {
      CostUpdate(freq[1..], len[1..], i - 1, f, l);
      assert freq[i := f][1..] == freq[1..][i - 1 := f];
      assert len[i := l][1..] == len[1..][i - 1 := l];
    } else {
      assert freq[i := f][1..] == freq[1..];
      assert len[i := l][1..] == len[1..];
    }
  }

  /** How many strings of `n` bits start with a code of `l` bits. */
  ghost function Share(f: nat, l: nat, n: nat): nat {
    if f > 0 && l <= n then Pow2(n - l) else 0
  }

  ghost function Kraft(freq: seq<nat>, len: seq<nat>, n: nat): nat
    requires |freq| == |len|
  {
    if freq == [] then 0 else Share(freq[0], len[0], n) + Kraft(freq[1..], len[1..], n)
  }

  lemma {:induction false} KraftUpdate(freq: seq<nat>, len: seq<nat>, n: nat, i: nat, f: nat, l: nat)
    requires i < |freq| == |len|
    ensures Kraft(freq[i := f], len[i := l], n) + Share(freq[i], len[i], n) == Kraft(freq, len, n) + Share(f, l, n)
    decreases i
  {
    hide Share;
    if i > 0 {
      KraftUpdate(freq[1..], len[1..], n, i - 1, f, l);
      assert freq[i := f][1..] == freq[1..][i - 1 := f];
      assert len[i := l][1..] == len[1..][i - 1 := l];
    } else {
      assert freq[i := f][1..] == freq[1..];
      assert len[i := l][1..] == len[1..];
    }
  }

  ghost predicate Within(freq: seq<nat>, len: seq<nat>, n: nat)
    requires |freq| == |len|
  {
    forall i :: 0 <= i < |freq| && freq[i] > 0 ==> len[i] <= n
  }

  /** Lengths that a prefix code can have: at most `n`, and together no more than all strings of `n` bits. */
  ghost predicate Fits(freq: seq<nat>, len: seq<nat>, n: nat)
    requires |freq| == |len|
  {
    Within(freq, len, n) && Kraft(freq, len, n) <= Pow2(n)
  }

  lemma {:induction false} KraftDouble(freq: seq<nat>, len: seq<nat>, n: nat)
    requires |freq| == |len| && Within(freq, len, n)
    ensures Kraft(freq, len, n + 1) == 2 * Kraft(freq, len, n)
  {
    if freq != [] {
      assert forall i :: 0 <= i < |freq| - 1 ==> freq[1..][i] == freq[i + 1] && len[1..][i] == len[i + 1];
      KraftDouble(freq[1..], len[1..], n);
      assert Share(freq[0], len[0], n + 1) == 2 * Share(freq[0], len[0], n);
    }
  }

  // ------------------------------------------------------------ rearranging

  function Swap(len: seq<nat>, i: nat, j: nat): (r: seq<nat>)
    requires i < |len| && j < |len|
    ensures |r| == |len|
  {
    len[i := len[j]][j := len[i]]
  }

  /** Giving the lighter of two symbols the longer code costs no more. */
  lemma SwapCost(freq: seq<nat>, len: seq<nat>, n: nat, i: nat, j: nat)
    requires i < |freq| == |len| && j < |freq| && 0 < freq[i] <= freq[j] && len[i] <= len[j]
    requires Fits(freq, len, n)
    ensures Fits(freq, Swap(len, i, j), n) && Cost(freq, Swap(len, i, j)) <= Cost(freq, len)
  {
    hide Cost, Kraft, Share;
    var once := len[i := len[j]];
    assert freq[i := freq[i]] == freq && freq[j := freq[j]] == freq;
    CostUpdate(freq, len, i, freq[i], len[j]);
    CostUpdate(freq, once, j, freq[j], len[i]);
    KraftUpdate(freq, len, n, i, freq[i], len[j]);
    KraftUpdate(freq, once, n, j, freq[j], len[i]);
    SameShare(freq[i], freq[j], len[i], n);
    SameShare(freq[i], freq[j], len[j], n);
    Lighter(freq[i], freq[j], len[i], len[j]);
  }

  lemma SameShare(f: nat, g: nat, l: nat, n: nat)
    requires f > 0 && g > 0
    ensures Share(f, l, n) == Share(g, l, n)
  {
  }

  lemma Lighter(f: nat, g: nat, a: nat, b: nat)
    requires f <= g && a <= b
    ensures f * b + g * a <= f * a + g * b
  {
    assert (g - f) * (b - a) >= 0;
  }

  // ------------------------------------------------------------ the deepest

  lemma PairKraft(freq: seq<nat>, len: seq<nat>, n: nat, p: nat, q: nat)
    requires |freq| == |len| && p < |freq| && q < |freq| && p != q
    ensures Share(freq[p], len[p], n) + Share(freq[q], len[q], n) <= Kraft(freq, len, n)
  {
    hide Kraft;
    assert len[p := len[p]] == len && len[q := len[q]] == len;
    KraftUpdate(freq, len, n, p, 0, len[p]);
    KraftUpdate(freq[p := 0], len, n, q, 0, len[q]);
  }

  /** Lengths that all stay below `n` fit `n - 1` as well. */
  lemma FitsLower(freq: seq<nat>, len: seq<nat>, n: nat)
    requires |freq| == |len| && n > 0 && Within(freq, len, n - 1) && Kraft(freq, len, n) <= Pow2(n) + 1
    ensures Fits(freq, len, n - 1)
  {
    KraftDouble(freq, len, n - 1);
    assert Pow2(n) == 2 * Pow2(n - 1);
  }

  /** A code that alone has the greatest length can be made shorter. */
  lemma Shorten(freq: seq<nat>, len: seq<nat>, n: nat, p: nat)
    requires p < |freq| == |len| && freq[p] > 0 && len[p] == n > 0 && Fits(freq, len, n)
    requires forall i :: 0 <= i < |freq| && i != p && freq[i] > 0 ==> len[i] < n
    ensures Fits(freq, len[p := n - 1], n - 1) && Cost(freq, len[p := n - 1]) <= Cost(freq, len)
  {
    hide Kraft, Cost;
    assert freq[p := freq[p]] == freq;
    KraftUpdate(freq, len, n, p, freq[p], n - 1);
    assert Share(freq[p], n, n) == 1 && Share(freq[p], n - 1, n) == 2 by {
      assert Pow2(0) == 1 && Pow2(1) == 2;
    }
    CostUpdate(freq, len, p, freq[p], n - 1);
    assert freq[p] * (n - 1) <= freq[p] * n;
    FitsLower(freq, len[p := n - 1], n);
  }

  /** Without more cost, two symbols can share the greatest length. */
  lemma {:induction false} Deepest(freq: seq<nat>, len: seq<nat>, n: nat, c1: nat, c2: nat)
    returns (len': seq<nat>, n': nat, p: nat, q: nat)
    requires c1 < |freq| == |len| && c2 < |freq| && c1 != c2 && freq[c1] > 0 && freq[c2] > 0
    requires Fits(freq, len, n)
    ensures |len'| == |len| && Fits(freq, len', n') && Cost(freq, len') <= Cost(freq, len)
    ensures n' > 0 && p < |freq| && q < |freq| && p != q && freq[p] > 0 && freq[q] > 0 && len'[p] == len'[q] == n'
    decreases n
  {
    hide Kraft, Cost;
    if n == 0 {
      PairKraft(freq, len, n, c1, c2);
      assert false;
    } else if p0: nat :| p0 < |freq| && freq[p0] > 0 && len[p0] == n {
      if q0: nat :| q0 < |freq| && q0 != p0 && freq[q0] > 0 && len[q0] == n {
        return len, n, p0, q0;
      }
      Shorten(freq, len, n, p0);
      len', n', p, q := Deepest(freq, len[p0 := n - 1], n - 1, c1, c2);
    } else {
      assert forall i :: 0 <= i < |freq| && freq[i] > 0 ==> len[i] < n;
      FitsLower(freq, len, n);
      len', n', p, q := Deepest(freq, len, n - 1, c1, c2);
    }
  }

  /** Without more cost, the two lightest symbols can be the two. */
  lemma LightestDeepest(freq: seq<nat>, len: seq<nat>, n: nat, c1: nat, c2: nat) returns (len': seq<nat>, n': nat)
    requires Lightest(freq, c1, c2) && |len| == |freq| && Fits(freq, len, n)
    ensures |len'| == |len| && Fits(freq, len', n') && Cost(freq, len') <= Cost(freq, len)
    ensures n' > 0 && len'[c1] == len'[c2] == n'
  {
    hide Fits, Cost;
    var p, q;
    len', n', p, q := Deepest(freq, len, n, c1, c2);
    var first := if len'[c1] == n' then c1 else if p != c2 then p else q;
    var second := if first == p then q else p;
    FitsWithin(freq, len', n', c1);
    SwapCost(freq, len', n', c1, first);
    len' := Swap(len', c1, first);
    assert len'[c1] == n' && len'[second] == n' && second != c1;
    FitsWithin(freq, len', n', c2);
    SwapCost(freq, len', n', c2, second);
    len' := Swap(len', c2, second);
  }

  lemma FitsWithin(freq: seq<nat>, len: seq<nat>, n: nat, i: nat)
    requires i < |freq| == |len| && freq[i] > 0 && Fits(freq, len, n)
    ensures len[i] <= n
  {
  }

  ghost predicate Lightest(freq: seq<nat>, c1: nat, c2: nat) {
    && c1 < |freq| && c2 < |freq| && c1 != c2 && 0 < freq[c1] && 0 < freq[c2]
    && (forall i :: 0 <= i < |freq| && freq[i] > 0 ==> freq[c1] <= freq[i])
    && (forall i :: 0 <= i < |freq| && i != c1 && freq[i] > 0 ==> freq[c2] <= freq[i])
  }

  /** Lengths for the merged forest: cheaper by what the merge costs. */
  lemma MergeCheaper(freq: seq<nat>, len: seq<nat>, n: nat, c1: nat, c2: nat) returns (len': seq<nat>, n': nat)
    requires Lightest(freq, c1, c2) && |len| == |freq| && Fits(freq, len, n)
    ensures |len'| == |len| && Fits(freq[c1 := freq[c1] + freq[c2]][c2 := 0], len', n')
    ensures Cost(freq[c1 := freq[c1] + freq[c2]][c2 := 0], len') + freq[c1] + freq[c2] <= Cost(freq, len)
  {
    hide Kraft, Cost, Share;
    var pair;
    pair, n' := LightestDeepest(freq, len, n, c1, c2);
    var f1, f2 := freq[c1], freq[c2];
    var once := freq[c1 := f1 + f2];
    len' := pair[c1 := n' - 1];
    assert len'[c2 := n'] == len';
    CostUpdate(freq, pair, c1, f1 + f2, n' - 1);
    CostUpdate(once, len', c2, 0, n');
    KraftUpdate(freq, pair, n', c1, f1 + f2, n' - 1);
    KraftUpdate(once, len', n', c2, 0, n');
    PairShares(f1, f2, n');
    assert (f1 + f2) * (n' - 1) + f1 + f2 == f1 * n' + f2 * n';
  }

  lemma PairShares(f1: nat, f2: nat, n: nat)
    requires f1 > 0 && f2 > 0 && n > 0
    ensures Share(f1, n, n) == 1 && Share(f2, n, n) == 1 && Share(f1 + f2, n - 1, n) == 2 && Share(0, n, n) == 0
  {
    assert Pow2(0) == 1 && Pow2(1) == 2;
  }

  // ------------------------------------------------------------- optimality

  /** No lengths that a prefix code can have cost less. */
  ghost predicate Optimal(freq: seq<nat>, sizes: seq<nat>) {
    |sizes| == |freq| && forall rival, n: nat :: |rival| == |freq| && Fits(freq, rival, n) ==> Cost(freq, sizes) <= Cost(freq, rival)
  }

  /** Whatever the rival lengths, some lengths for the forest at hand still lead to no higher cost. */
  ghost predicate OnCourse(freq: seq<nat>, sizes: seq<nat>, forest: seq<nat>) {
    && |sizes| == |freq| == |forest|
    && forall rival, n: nat :: |rival| == |freq| && Fits(freq, rival, n) ==> Beaten(Cost(freq, sizes), forest, Cost(freq, rival))
  }

  ghost predicate Beaten(spent: nat, forest: seq<nat>, cost: nat) {
    exists len, m: nat :: |len| == |forest| && Fits(forest, len, m) && spent + Cost(forest, len) <= cost
  }

  lemma {:induction false} CostNothing(freq: seq<nat>, sizes: seq<nat>)
    requires |freq| == |sizes| && forall i :: 0 <= i < |freq| ==> sizes[i] == 0
    ensures Cost(freq, sizes) == 0
  {
    if freq != [] {
      CostNothing(freq[1..], sizes[1..]);
    }
  }

  lemma CourseBegins(freq: seq<nat>, sizes: seq<nat>)
    requires |freq| == |sizes| && forall i :: 0 <= i < |freq| ==> sizes[i] == 0
    ensures OnCourse(freq, sizes, freq)
  {
    hide Cost, Fits;
    CostNothing(freq, sizes);
    forall rival, n: nat | |rival| == |freq| && Fits(freq, rival, n)
      ensures Beaten(Cost(freq, sizes), freq, Cost(freq, rival))
    {
      assert Fits(freq, rival, n) && 0 + Cost(freq, rival) <= Cost(freq, rival);
    }
  }

  ghost function Merged(forest: seq<nat>, c1: nat, c2: nat): (r: seq<nat>)
    requires c1 < |forest| && c2 < |forest|
    ensures |r| == |forest|
  {
    forest[c1 := forest[c1] + forest[c2]][c2 := 0]
  }

  lemma BeatenStep(spent: nat, forest: seq<nat>, cost: nat, c1: nat, c2: nat)
    requires Beaten(spent, forest, cost) && Lightest(forest, c1, c2)
    ensures Beaten(spent + forest[c1] + forest[c2], Merged(forest, c1, c2), cost)
  {
    hide Cost, Fits;
    var len, m: nat :| |len| == |forest| && Fits(forest, len, m) && spent + Cost(forest, len) <= cost;
    var len', m' := MergeCheaper(forest, len, m, c1, c2);
    assert Fits(Merged(forest, c1, c2), len', m');
  }

  /** Merging the two lightest trees, each of their symbols one bit deeper. */
  lemma CourseStep(freq: seq<nat>, sizes: seq<nat>, forest: seq<nat>, c1: nat, c2: nat, deeper: seq<nat>)
    requires OnCourse(freq, sizes, forest) && Lightest(forest, c1, c2) && |deeper| == |freq|
    requires Cost(freq, deeper) == Cost(freq, sizes) + forest[c1] + forest[c2]
    ensures OnCourse(freq, deeper, Merged(forest, c1, c2))
  {
    hide Cost, Fits, Beaten, Merged;
    forall rival, n: nat | |rival| == |freq| && Fits(freq, rival, n)
      ensures Beaten(Cost(freq, deeper), Merged(forest, c1, c2), Cost(freq, rival))
    {
      BeatenStep(Cost(freq, sizes), forest, Cost(freq, rival), c1, c2);
    }
  }

  lemma CourseEnds(freq: seq<nat>, sizes: seq<nat>, forest: seq<nat>)
    requires OnCourse(freq, sizes, forest)
    ensures Optimal(freq, sizes)
  {
    hide Cost, Fits;
    forall rival, n: nat | |rival| == |freq| && Fits(freq, rival, n) ensures Cost(freq, sizes) <= Cost(freq, rival) {
      assert Beaten(Cost(freq, sizes), forest, Cost(freq, rival));
    }
  }
}
