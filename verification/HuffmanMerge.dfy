/**
 Huffman's algorithm as section K.2 of ITU-T T.81 draws it: trees are linked
 lists of their symbols, and merging two adds one to the code length of every
 symbol in both.
 */
module HuffmanMerge {
  import opened HuffmanCost

  const SYMBOLS := 257
  /** Larger than any frequency the search for the smallest will look at. */
  const UNLIMITED := 1_000_000_000_000_000_000

  /** 2^-n. */
  function Half(n: nat): (h: real)
    ensures 0.0 < h <= 1.0
  {
    if n == 0 then 1.0 else Half(n - 1) / 2.0
  }

  ghost predicate Bounded(members: seq<nat>, n: nat) {
    forall k :: 0 <= k < |members| ==> members[k] < n
  }

  /** The share of all bit strings that the codes of these symbols take. */
  ghost function Weight(sizes: seq<nat>, members: seq<nat>): real
    requires Bounded(members, |sizes|)
  {
    if members == [] then 0.0 else Half(sizes[members[0]]) + Weight(sizes, members[1..])
  }

  lemma {:induction false} WeightJoin(sizes: seq<nat>, a: seq<nat>, b: seq<nat>)
    requires Bounded(a, |sizes|) && Bounded(b, |sizes|)
    ensures Bounded(a + b, |sizes|) && Weight(sizes, a + b) == Weight(sizes, a) + Weight(sizes, b)
  {
    if a == [] {
      assert a + b == b;
    } else {
      assert (a + b)[1..] == a[1..] + b;
      WeightJoin(sizes, a[1..], b);
    }
  }

  /** One more bit for each symbol halves their share. */
  lemma {:induction false} WeightDeeper(sizes: seq<nat>, deeper: seq<nat>, members: seq<nat>)
    requires |deeper| == |sizes| && Bounded(members, |sizes|)
    requires forall k :: 0 <= k < |members| ==> deeper[members[k]] == sizes[members[k]] + 1
    ensures Weight(deeper, members) == Weight(sizes, members) / 2.0
  {
    if members != [] {
      assert deeper[members[0]] == sizes[members[0]] + 1;
      WeightDeeper(sizes, deeper, members[1..]);
    }
  }

  lemma {:induction false} WeightSame(sizes: seq<nat>, sizes': seq<nat>, members: seq<nat>)
    requires |sizes'| == |sizes| && Bounded(members, |sizes|)
    requires forall k :: 0 <= k < |members| ==> sizes'[members[k]] == sizes[members[k]]
    ensures Weight(sizes', members) == Weight(sizes, members)
  {
    if members != [] {
      assert sizes'[members[0]] == sizes[members[0]];
      WeightSame(sizes, sizes', members[1..]);
    }
  }

  // ------------------------------------------------------------------ lists

  /** Following `others` from the first member visits exactly these symbols. */
  ghost predicate Chain(others: seq<int>, members: seq<nat>) {
    && members != [] && Bounded(members, |others|)
    && (forall k :: 0 <= k < |members| - 1 ==> others[members[k]] == members[k + 1])
    && others[members[|members| - 1]] < 0
  }

  ghost predicate NoRepeat(members: seq<nat>) {
    forall j, k :: 0 <= j < k < |members| ==> members[j] != members[k]
  }

  lemma ChainJoin(others: seq<int>, a: seq<nat>, b: seq<nat>)
    requires Chain(others, a) && Chain(others, b) && NoRepeat(a) && forall x :: x in a ==> x !in b
    ensures Chain(others[a[|a| - 1] := b[0]], a + b)
  {
    var last := a[|a| - 1];
    var joined := others[last := b[0]];
    forall k | 0 <= k < |a + b| - 1 ensures joined[(a + b)[k]] == (a + b)[k + 1] {
      if k < |a| - 1 {
        assert a[k] != last;
      } else if k >= |a| {
        assert b[k - |a|] in b;
        assert last in a;
      }
    }
    assert b[|b| - 1] in b && last in a;
  }

  lemma ChainFrame(others: seq<int>, members: seq<nat>, at: nat, v: int)
    requires Chain(others, members) && at < |others| && at !in members
    ensures Chain(others[at := v], members)
  {
    forall k | 0 <= k < |members| ensures members[k] != at {
      assert members[k] in members;
    }
  }

  lemma NoRepeatJoin(a: seq<nat>, b: seq<nat>)
    requires NoRepeat(a) && NoRepeat(b) && forall x :: x in a ==> x !in b
    ensures NoRepeat(a + b)
  {
    forall j, k | 0 <= j < k < |a + b| ensures (a + b)[j] != (a + b)[k] {
      if j < |a| <= k {
        assert a[j] in a;
        assert b[k - |a|] in b;
      }
    }
  }

  // ----------------------------------------------------------------- forest

  type Lists = map<nat, seq<nat>>

  ghost predicate ListOk(sizes: seq<nat>, others: seq<int>, r: nat, members: seq<nat>) {
    && Chain(others, members) && NoRepeat(members) && members[0] == r
    && Bounded(members, |sizes|) && Weight(sizes, members) == 1.0
    && forall k :: 0 <= k < |members| ==> (sizes[members[k]] > 0 <==> |members| > 1)
  }

  /** Each symbol with a frequency left heads the list of a tree; every used symbol is in one. */
  ghost predicate ForestOk(freq: seq<nat>, sizes: seq<nat>, others: seq<int>, lists: Lists, used: set<nat>) {
    && |freq| == |sizes| == |others| == SYMBOLS
    && (forall i :: 0 <= i < SYMBOLS ==> (i in lists <==> freq[i] > 0))
    && (forall r :: r in lists ==> r < SYMBOLS && ListOk(sizes, others, r, lists[r]))
    && (forall r, s, x :: r in lists && s in lists && x in lists[r] && x in lists[s] ==> r == s)
    && (forall x :: x in used <==> exists r :: r in lists && x in lists[r])
    && (forall x :: 0 <= x < SYMBOLS && x !in used ==> sizes[x] == 0)
  }

  /** Adds a bit to every symbol of a list and gives its last symbol. */
  method Deepen(sizes: seq<nat>, others: seq<int>, start: nat, ghost members: seq<nat>)
    returns (deeper: seq<nat>, last: nat)
    requires |sizes| == |others| && Chain(others, members) && NoRepeat(members) && members[0] == start
    ensures Deeper(sizes, deeper, members) && last == members[|members| - 1] && last < |sizes| == |deeper|
  {
    ghost var k := 0;
    last := start;
    deeper := sizes[last := sizes[last] + 1];
    while others[last] >= 0
      invariant 0 <= k < |members| && last == members[k] && last < |sizes| && |deeper| == |sizes|
      invariant k + 1 < |members| ==> others[last] == members[k + 1]
      invariant forall x :: 0 <= x < |sizes| ==> deeper[x] == sizes[x] + if x in members[..k + 1] then 1 else 0
      decreases |members| - k
    {
      assert members[k + 1] !in members[..k + 1];
      assert members[..k + 2] == members[..k + 1] + [members[k + 1]];
      k := k + 1;
      last := others[last];
      deeper := deeper[last := deeper[last] + 1];
    }
    assert k == |members| - 1;
    assert members[..k + 1] == members;
  }

  ghost predicate Deeper(sizes: seq<nat>, deeper: seq<nat>, members: seq<nat>) {
    && |deeper| == |sizes|
    && forall x :: 0 <= x < |sizes| ==> deeper[x] == sizes[x] + if x in members then 1 else 0
  }

  /** Merging two trees makes one. */
  lemma JoinedOk(sizes: seq<nat>, others: seq<int>, a: seq<nat>, b: seq<nat>, deeper: seq<nat>)
    requires |sizes| == |others| && a != [] && b != []
    requires ListOk(sizes, others, a[0], a) && ListOk(sizes, others, b[0], b)
    requires forall x :: x in a ==> x !in b
    requires Deeper(sizes, deeper, a + b)
    ensures ListOk(deeper, others[a[|a| - 1] := b[0]], a[0], a + b)
  {
    hide Weight;
    ChainJoin(others, a, b);
    NoRepeatJoin(a, b);
    forall k | 0 <= k < |a| ensures deeper[a[k]] == sizes[a[k]] + 1 {
      assert (a + b)[k] == a[k];
    }
    forall k | 0 <= k < |b| ensures deeper[b[k]] == sizes[b[k]] + 1 {
      assert (a + b)[|a| + k] == b[k];
    }
    WeightDeeper(sizes, deeper, a);
    WeightDeeper(sizes, deeper, b);
    WeightJoin(deeper, a, b);
    forall k | 0 <= k < |a + b| ensures deeper[(a + b)[k]] > 0 {
      assert (a + b)[k] in a + b;
    }
  }

  /** A tree apart from the two is as it was. */
  lemma OtherOk(sizes: seq<nat>, others: seq<int>, r: nat, members: seq<nat>, deeper: seq<nat>, joined: seq<nat>,
                at: nat, v: int)
    requires |sizes| == |others| && at < |others| && ListOk(sizes, others, r, members)
    requires Deeper(sizes, deeper, joined) && at in joined && forall x :: x in members ==> x !in joined
    ensures ListOk(deeper, others[at := v], r, members)
  {
    hide Weight;
    ChainFrame(others, members, at, v);
    forall k | 0 <= k < |members| ensures deeper[members[k]] == sizes[members[k]] {
      assert members[k] in members;
    }
    WeightSame(sizes, deeper, members);
  }

  lemma MergeOk(freq: seq<nat>, sizes: seq<nat>, others: seq<int>, lists: Lists, used: set<nat>,
                c1: nat, c2: nat, deeper: seq<nat>, last: nat, lists': Lists)
    requires |freq| == |sizes| == |others| == SYMBOLS && c1 < SYMBOLS && c2 < SYMBOLS && last < SYMBOLS && c1 != c2
    requires c1 in lists && c2 in lists && lists[c1] != [] && last == lists[c1][|lists[c1]| - 1]
    requires lists' == (lists - {c2})[c1 := lists[c1] + lists[c2]]
    requires ForestOk(freq, sizes, others, lists, used)
    requires Deeper(sizes, deeper, lists[c1] + lists[c2])
    ensures ForestOk(freq[c1 := freq[c1] + freq[c2]][c2 := 0], deeper, others[last := c2], lists', used)
  {
    hide ListOk, Deeper;
    var a, b := lists[c1], lists[c2];
    ListFacts(sizes, others, c1, a);
    ListFacts(sizes, others, c2, b);
    var others' := others[last := c2];
    forall x | x in a ensures x !in b {}
    JoinedOk(sizes, others, a, b, deeper);
    forall r | r in lists' ensures r < SYMBOLS && ListOk(deeper, others', r, lists'[r]) {
      if r != c1 {
        forall x | x in lists[r] ensures x !in a + b {}
        assert last in a + b;
        OtherOk(sizes, others, r, lists[r], deeper, a + b, last, c2);
      }
    }
    MergedLists(lists, c1, c2, used);
    DeeperUnused(sizes, deeper, a + b, used);
  }

  lemma DeeperUnused(sizes: seq<nat>, deeper: seq<nat>, members: seq<nat>, used: set<nat>)
    requires Deeper(sizes, deeper, members) && forall x :: x in members ==> x in used
    requires forall x :: 0 <= x < |sizes| && x !in used ==> sizes[x] == 0
    ensures |deeper| == |sizes| && forall x :: 0 <= x < |sizes| && x !in used ==> deeper[x] == 0
  {
  }

  lemma ListFacts(sizes: seq<nat>, others: seq<int>, r: nat, members: seq<nat>)
    requires ListOk(sizes, others, r, members)
    ensures members != [] && members[0] == r && Bounded(members, |others|) && NoRepeat(members) && Chain(others, members)
  {
  }

  /** Who is in which list after a merge. */
  lemma MergedLists(lists: Lists, c1: nat, c2: nat, used: set<nat>)
    requires c1 in lists && c2 in lists && c1 != c2
    requires forall r, s, x :: r in lists && s in lists && x in lists[r] && x in lists[s] ==> r == s
    requires forall x :: x in used <==> exists r :: r in lists && x in lists[r]
    ensures var lists' := (lists - {c2})[c1 := lists[c1] + lists[c2]];
            && (forall r, s, x :: r in lists' && s in lists' && x in lists'[r] && x in lists'[s] ==> r == s)
            && (forall x :: x in used <==> exists r :: r in lists' && x in lists'[r])
  {
    var lists' := (lists - {c2})[c1 := lists[c1] + lists[c2]];
    forall x ensures x in used <==> exists r :: r in lists' && x in lists'[r] {
      if x in used {
        var r :| r in lists && x in lists[r];
        var r' := if r == c2 then c1 else r;
        assert r' in lists' && x in lists'[r'];
      }
      if r :| r in lists' && x in lists'[r] {
        if r == c1 && x !in lists[c1] {
          assert x in lists[c2];
        } else {
          assert x in lists[r];
        }
      }
    }
  }

  // -------------------------------------------------------------- searching

  /** The symbol of least frequency, the last of several; -1 when there is none. */
  method Smallest(freq: seq<nat>, skip: int) returns (c: int)
    requires |freq| == SYMBOLS && forall i :: 0 <= i < SYMBOLS ==> freq[i] <= UNLIMITED
    ensures c == -1 || (0 <= c < SYMBOLS && c != skip && freq[c] > 0)
    ensures c == -1 ==> forall i :: 0 <= i < SYMBOLS && i != skip ==> freq[i] == 0
    ensures c != -1 ==> forall i :: 0 <= i < SYMBOLS && i != skip && freq[i] > 0 ==>
      freq[c] <= freq[i] && (c < i ==> freq[c] < freq[i])
  {
    c := -1;
    var v := UNLIMITED;
    for i := 0 to SYMBOLS
      invariant c == -1 || (0 <= c < i && c != skip && freq[c] > 0 && v == freq[c])
      invariant c == -1 ==> v == UNLIMITED && forall k :: 0 <= k < i && k != skip ==> freq[k] == 0
      invariant c != -1 ==> forall k :: 0 <= k < i && k != skip && freq[k] > 0 ==>
        freq[c] <= freq[k] && (c < k ==> freq[c] < freq[k])
    {
      if freq[i] > 0 && freq[i] <= v && i != skip {
        v, c := freq[i], i;
      }
    }
  }

  // ------------------------------------------------------------- the loop

  /** The symbols with a frequency, and the reserved one. */
  ghost function Used(freq: seq<nat>): set<nat>
    requires |freq| == SYMBOLS
  {
    set i | 0 <= i < SYMBOLS && freq[i] > 0
  }

  lemma StartOk(freq: seq<nat>, sizes: seq<nat>, others: seq<int>, lists: Lists)
    requires |freq| == |sizes| == |others| == SYMBOLS
    requires forall i :: 0 <= i < SYMBOLS ==> sizes[i] == 0 && others[i] == -1
    requires lists == map i | i in Used(freq) :: [i]
    ensures ForestOk(freq, sizes, others, lists, Used(freq))
  {
    hide ListOk;
    forall r | r in lists ensures ListOk(sizes, others, r, lists[r]) {
      SingleOk(sizes, others, r);
    }
    forall x ensures x in Used(freq) <==> exists r :: r in lists && x in lists[r] {
      if x in Used(freq) {
        assert x in lists && x in lists[x];
      }
    }
  }

  lemma SingleOk(sizes: seq<nat>, others: seq<int>, r: nat)
    requires |sizes| == |others| && r < |sizes| && sizes[r] == 0 && others[r] == -1
    ensures ListOk(sizes, others, r, [r])
  {
    assert Weight(sizes, [r]) == Half(0) + Weight(sizes, []);
  }

  lemma ForestHeads(freq: seq<nat>, sizes: seq<nat>, others: seq<int>, lists: Lists, used: set<nat>)
    requires ForestOk(freq, sizes, others, lists, used) && 256 in used
    ensures |freq| == |sizes| == |others| == SYMBOLS
    ensures forall i :: 0 <= i < SYMBOLS ==> (i in lists <==> freq[i] > 0)
    ensures exists i :: 0 <= i < SYMBOLS && freq[i] > 0
  {
    hide ListOk;
    var r :| r in lists && 256 in lists[r];
    assert freq[r] > 0;
  }

  lemma ForestPair(freq: seq<nat>, sizes: seq<nat>, others: seq<int>, lists: Lists, used: set<nat>, c1: nat, c2: nat)
    requires ForestOk(freq, sizes, others, lists, used) && c1 in lists && c2 in lists && c1 != c2
    ensures lists[c1] != [] && lists[c2] != [] && lists[c1][0] == c1 && lists[c2][0] == c2
    ensures Chain(others, lists[c1]) && NoRepeat(lists[c1]) && Chain(others, lists[c2]) && NoRepeat(lists[c2])
    ensures forall x :: x in lists[c1] ==> x !in lists[c2]
  {
    hide Weight;
  }

  /** When one list is left it holds every symbol used. */
  lemma LastOk(freq: seq<nat>, sizes: seq<nat>, others: seq<int>, lists: Lists, used: set<nat>, c: nat)
    requires ForestOk(freq, sizes, others, lists, used) && c in lists
    requires forall i :: 0 <= i < SYMBOLS && i != c ==> freq[i] == 0
    ensures Bounded(lists[c], SYMBOLS) && NoRepeat(lists[c]) && |sizes| == SYMBOLS && Weight(sizes, lists[c]) == 1.0
    ensures forall x :: x in lists[c] <==> x in used
    ensures forall x :: 0 <= x < SYMBOLS ==> (sizes[x] > 0 <==> x in lists[c] && |lists[c]| > 1)
  {
    hide Weight;
    var members := lists[c];
    forall x ensures x in members <==> x in used {
      if x in used {
        var r :| r in lists && x in lists[r];
        assert r == c;
      }
    }
    forall x | 0 <= x < SYMBOLS ensures sizes[x] > 0 <==> x in members && |members| > 1 {
      if x in members {
        var k :| 0 <= k < |members| && members[k] == x;
      }
    }
  }

  // ------------------------------------------------------------------ depth

  /** The least total frequency that can give a code of `d` bits: the Fibonacci numbers. */
  function Least(d: nat): (n: nat)
    ensures n >= 1
  {
    if d == 0 then 1 else if d == 1 then 2 else Least(d - 1) + Least(d - 2)
  }

  lemma {:induction false} LeastGrows(a: nat, b: nat)
    requires a <= b
    ensures Least(a) <= Least(b)
    decreases b - a
  {
    if a < b {
      LeastGrows(a, b - 1);
    }
  }

  lemma LeastValue()
    ensures Least(33) == 9_227_465
  {
    assert Least(10) == 144;
    assert Least(20) == 17711;
    assert Least(21) == 28657;
  }

  /** A deep tree is heavy, and so is every other tree beside it. */
  ghost predicate DepthOk(freq: seq<nat>, sizes: seq<nat>, lists: Lists) {
    forall r: nat, x: nat :: Member(lists, r, x) ==> x < |sizes| && Heavy(freq, lists, r, sizes[x])
  }

  ghost predicate Member(lists: Lists, r: nat, x: nat) {
    r in lists && x in lists[r]
  }

  ghost predicate Heavy(freq: seq<nat>, lists: Lists, r: nat, depth: nat) {
    && r < |freq| && Least(depth) <= freq[r]
    && (depth > 0 ==> forall s :: s in lists && s != r ==> s < |freq| && Least(depth - 1) <= freq[s])
  }

  /** A symbol of one of the two lightest trees, one bit deeper after they merge. */
  lemma HeavyMerged(freq: seq<nat>, lists: Lists, c: nat, d: nat, depth: nat, c1: nat, c2: nat, lists': Lists)
    requires Lightest(freq, c1, c2) && c1 in lists && c2 in lists && (c, d) in {(c1, c2), (c2, c1)}
    requires Heavy(freq, lists, c, depth)
    requires lists'.Keys == lists.Keys - {c2} && forall s :: s in lists ==> s < |freq| && freq[s] > 0
    ensures Heavy(Merged(freq, c1, c2), lists', c1, depth + 1)
  {
    if depth > 0 {
      assert Least(depth - 1) <= freq[d];
      assert Least(depth + 1) == Least(depth) + Least(depth - 1);
    }
  }

  lemma HeavyBeside(freq: seq<nat>, lists: Lists, r: nat, depth: nat, c1: nat, c2: nat, lists': Lists)
    requires Lightest(freq, c1, c2) && c1 in lists && c2 in lists && r != c1 && r != c2
    requires Heavy(freq, lists, r, depth) && lists'.Keys == lists.Keys - {c2}
    ensures Heavy(Merged(freq, c1, c2), lists', r, depth)
  {
  }

  lemma DepthAt(freq: seq<nat>, sizes: seq<nat>, lists: Lists, r: nat, x: nat)
    requires DepthOk(freq, sizes, lists) && r in lists && x in lists[r]
    ensures x < |sizes| && Heavy(freq, lists, r, sizes[x])
  {
    assert Member(lists, r, x);
  }

  lemma DepthStep(freq: seq<nat>, sizes: seq<nat>, lists: Lists, c1: nat, c2: nat, deeper: seq<nat>, lists': Lists)
    requires c1 != c2 && c1 < |freq| && c2 < |freq| && Lightest(freq, c1, c2) && c1 in lists && c2 in lists
    requires forall s :: s in lists ==> s < |freq| && freq[s] > 0
    requires forall r, s, x :: r in lists && s in lists && x in lists[r] && x in lists[s] ==> r == s
    requires DepthOk(freq, sizes, lists) && Deeper(sizes, deeper, lists[c1] + lists[c2])
    requires lists' == (lists - {c2})[c1 := lists[c1] + lists[c2]]
    ensures DepthOk(Merged(freq, c1, c2), deeper, lists')
  {
    hide Heavy, Lightest;
    assert lists'.Keys == lists.Keys - {c2};
    forall r: nat, x: nat | Member(lists', r, x)
      ensures x < |deeper| && Heavy(Merged(freq, c1, c2), lists', r, deeper[x])
    {
      if r != c1 {
        assert x in lists[r] && x !in lists[c1] && x !in lists[c2];
        DepthAt(freq, sizes, lists, r, x);
        HeavyBeside(freq, lists, r, sizes[x], c1, c2, lists');
      } else if x in lists[c1] {
        DepthAt(freq, sizes, lists, c1, x);
        HeavyMerged(freq, lists, c1, c2, sizes[x], c1, c2, lists');
      } else {
        assert x in lists[c2];
        DepthAt(freq, sizes, lists, c2, x);
        HeavyMerged(freq, lists, c2, c1, sizes[x], c1, c2, lists');
      }
    }
  }

  // ------------------------------------------------------ the reserved symbol

  /** Of trees equally light, the last ones are merged first. */
  ghost predicate LastLightest(freq: seq<nat>, c1: nat, c2: nat) {
    && c1 < |freq| && c2 < |freq|
    && (forall i :: c1 < i < |freq| && freq[i] > 0 ==> freq[c1] < freq[i])
    && (forall i :: c2 < i < |freq| && i != c1 && freq[i] > 0 ==> freq[c2] < freq[i])
  }

  /** A weight that keeps a tree behind the one at `home`, which wins ties as long as it is the last of all. */
  ghost predicate Behind(freq: seq<nat>, home: nat, weight: nat) {
    home < |freq| && freq[home] <= weight && (home != 256 ==> freq[home] < weight)
  }

  ghost predicate MemberLow(freq: seq<nat>, sizes: seq<nat>, home: nat, s: nat, x: nat) {
    && s < |freq| && x < |sizes| && 256 < |sizes| && sizes[x] <= sizes[256]
    && (s != home && sizes[x] == sizes[256] ==> Behind(freq, home, freq[s]))
  }

  /** Two trees beside the reserved symbol's: together not lighter, and behind if one could become as deep. */
  ghost predicate PairLate(freq: seq<nat>, sizes: seq<nat>, lists: Lists, home: nat, s: nat, t: nat) {
    && s < |freq| && t < |freq| && home < |freq| && 256 < |sizes| && freq[home] <= freq[s] + freq[t]
    && forall x: nat :: Member(lists, s, x) && x < |sizes| && sizes[x] + 1 == sizes[256] ==>
         Behind(freq, home, freq[s] + freq[t])
  }

  ghost predicate Beside(lists: Lists, home: nat, s: nat, t: nat) {
    s in lists && t in lists && s != home && t != home && s != t
  }

  /** No symbol is deeper than the reserved one, and none will be. */
  ghost predicate ReservedDeepest(freq: seq<nat>, sizes: seq<nat>, lists: Lists, home: nat) {
    && Member(lists, home, 256)
    && (forall s: nat, x: nat :: Member(lists, s, x) ==> MemberLow(freq, sizes, home, s, x))
    && (forall s: nat, t: nat :: Beside(lists, home, s, t) ==> PairLate(freq, sizes, lists, home, s, t))
  }

  lemma DeepestBegins(freq: seq<nat>, sizes: seq<nat>, lists: Lists)
    requires |freq| == |sizes| == SYMBOLS && freq[256] == 1 && forall i :: 0 <= i < SYMBOLS ==> sizes[i] == 0
    requires lists == map i | i in Used(freq) :: [i]
    ensures ReservedDeepest(freq, sizes, lists, 256)
  {
  }

  /** Two trees that leave the reserved symbol's alone are both less deep. */
  lemma AloneLow(freq: seq<nat>, sizes: seq<nat>, lists: Lists, home: nat, c1: nat, c2: nat, c: nat, x: nat)
    requires ReservedDeepest(freq, sizes, lists, home) && |freq| == SYMBOLS && home < SYMBOLS && freq[home] > 0
    requires Lightest(freq, c1, c2) && LastLightest(freq, c1, c2) && home != c1 && home != c2
    requires c in {c1, c2} && Member(lists, c, x)
    ensures x < |sizes| && 256 < |sizes| && sizes[x] < sizes[256]
  {
    assert MemberLow(freq, sizes, home, c, x);
  }

  ghost predicate Together(lists: Lists, c1: nat, c2: nat, lists': Lists) {
    && c1 in lists && c2 in lists && c1 != c2
    && lists' == (lists - {c2})[c1 := lists[c1] + lists[c2]]
    && (forall r, s, x :: r in lists && s in lists && x in lists[r] && x in lists[s] ==> r == s)
  }

  /** What a merge does to a symbol and to the weights. */
  lemma TogetherFacts(freq: seq<nat>, sizes: seq<nat>, lists: Lists, c1: nat, c2: nat, deeper: seq<nat>, lists': Lists,
                      s: nat, x: nat)
    requires Together(lists, c1, c2, lists') && Deeper(sizes, deeper, lists[c1] + lists[c2])
    requires Member(lists', s, x) && x < |sizes|
    ensures s != c1 ==> Member(lists, s, x) && s != c2 && deeper[x] == sizes[x]
    ensures s == c1 ==> (Member(lists, c1, x) || Member(lists, c2, x)) && deeper[x] == sizes[x] + 1
  {
  }

  /** A merge beside the reserved symbol's tree, seen from one symbol. */
  lemma LowApart(freq: seq<nat>, sizes: seq<nat>, lists: Lists, home: nat, c1: nat, c2: nat, deeper: seq<nat>, lists': Lists,
                 s: nat, x: nat)
    requires ReservedDeepest(freq, sizes, lists, home) && |freq| == |sizes| == |deeper| == SYMBOLS && home < SYMBOLS && freq[home] > 0
    requires Lightest(freq, c1, c2) && LastLightest(freq, c1, c2) && home != c1 && home != c2
    requires Together(lists, c1, c2, lists') && Deeper(sizes, deeper, lists[c1] + lists[c2])
    requires Member(lists', s, x) && deeper[256] == sizes[256]
    ensures MemberLow(Merged(freq, c1, c2), deeper, home, s, x)
  {
    hide Deeper, Together;
    var c := if s != c1 then s else if Member(lists, c1, x) then c1 else c2;
    assert Member(lists, c, x) by { MembersBefore(lists, c1, c2, lists', s, x); }
    assert MemberLow(freq, sizes, home, c, x);
    TogetherFacts(freq, sizes, lists, c1, c2, deeper, lists', s, x);
    if s == c1 {
      AloneLow(freq, sizes, lists, home, c1, c2, c, x);
      var d := if c == c1 then c2 else c1;
      assert Beside(lists, home, c, d) by { MembersHome(lists, c1, c2, lists', home); }
      assert PairLate(freq, sizes, lists, home, c, d);
    }
  }

  lemma MembersHome(lists: Lists, c1: nat, c2: nat, lists': Lists, home: nat)
    requires Together(lists, c1, c2, lists') && home != c1 && home != c2
    ensures Beside(lists, home, c1, c2) && Beside(lists, home, c2, c1)
    ensures forall s :: s in lists' ==> s in lists && s != c2
  {
  }

  lemma MembersBefore(lists: Lists, c1: nat, c2: nat, lists': Lists, s: nat, x: nat)
    requires Together(lists, c1, c2, lists') && Member(lists', s, x)
    ensures if s != c1 then Member(lists, s, x) else Member(lists, c1, x) || Member(lists, c2, x)
  {
  }

  lemma PairApart(freq: seq<nat>, sizes: seq<nat>, lists: Lists, home: nat, c1: nat, c2: nat, deeper: seq<nat>, lists': Lists,
                  s: nat, t: nat)
    requires ReservedDeepest(freq, sizes, lists, home) && |freq| == |sizes| == |deeper| == SYMBOLS && home < SYMBOLS && freq[home] > 0
    requires Lightest(freq, c1, c2) && home != c1 && home != c2
    requires Together(lists, c1, c2, lists') && Deeper(sizes, deeper, lists[c1] + lists[c2])
    requires Beside(lists', home, s, t) && deeper[256] == sizes[256]
    ensures PairLate(Merged(freq, c1, c2), deeper, lists', home, s, t)
  {
    hide Deeper, Together;
    MembersHome(lists, c1, c2, lists', home);
    assert Beside(lists, home, s, t);
    assert PairLate(freq, sizes, lists, home, s, t);
    assert Merged(freq, c1, c2)[home] == freq[home];
    forall x: nat | Member(lists', s, x) && x < |deeper| && deeper[x] + 1 == deeper[256]
      ensures Behind(Merged(freq, c1, c2), home, Merged(freq, c1, c2)[s] + Merged(freq, c1, c2)[t])
    {
      TogetherFacts(freq, sizes, lists, c1, c2, deeper, lists', s, x);
    }
  }

  /** The reserved symbol's tree is one of the two: it becomes deeper than all others. */
  lemma PairWithin(freq: seq<nat>, sizes: seq<nat>, lists: Lists, home: nat, c1: nat, c2: nat, deeper: seq<nat>, lists': Lists,
                   s: nat, t: nat)
    requires ReservedDeepest(freq, sizes, lists, home) && |freq| == |sizes| == |deeper| == SYMBOLS && home in {c1, c2}
    requires forall s :: s in lists ==> s < SYMBOLS && freq[s] > 0
    requires Lightest(freq, c1, c2) && LastLightest(freq, c1, c2)
    requires Together(lists, c1, c2, lists') && Deeper(sizes, deeper, lists[c1] + lists[c2])
    requires Beside(lists', c1, s, t) && deeper[256] == sizes[256] + 1
    ensures PairLate(Merged(freq, c1, c2), deeper, lists', c1, s, t)
  {
    hide Deeper;
    assert s in lists && t in lists && s !in {c1, c2} && t !in {c1, c2};
    forall x: nat | Member(lists', s, x) && x < |deeper| && deeper[x] + 1 == deeper[256]
      ensures Behind(Merged(freq, c1, c2), c1, Merged(freq, c1, c2)[s] + Merged(freq, c1, c2)[t])
    {
      TogetherFacts(freq, sizes, lists, c1, c2, deeper, lists', s, x);
      assert MemberLow(freq, sizes, home, s, x);
    }
  }

  lemma LowWithin(freq: seq<nat>, sizes: seq<nat>, lists: Lists, home: nat, c1: nat, c2: nat, deeper: seq<nat>, lists': Lists,
                  s: nat, x: nat)
    requires ReservedDeepest(freq, sizes, lists, home) && |freq| == |sizes| == |deeper| == SYMBOLS && home in {c1, c2}
    requires Together(lists, c1, c2, lists') && Deeper(sizes, deeper, lists[c1] + lists[c2])
    requires Lightest(freq, c1, c2) && Member(lists', s, x) && deeper[256] == sizes[256] + 1
    ensures MemberLow(Merged(freq, c1, c2), deeper, c1, s, x)
  {
    hide Deeper, Together;
    MembersBefore(lists, c1, c2, lists', s, x);
    var c := if s != c1 then s else if Member(lists, c1, x) then c1 else c2;
    assert MemberLow(freq, sizes, home, c, x);
    TogetherFacts(freq, sizes, lists, c1, c2, deeper, lists', s, x);
  }

  /** Merging the two lightest, the last of equals first, leaves the reserved symbol deepest. */
  lemma DeepestStep(freq: seq<nat>, sizes: seq<nat>, lists: Lists, home: nat, c1: nat, c2: nat, deeper: seq<nat>, lists': Lists)
    returns (home': nat)
    requires ReservedDeepest(freq, sizes, lists, home) && |freq| == |sizes| == SYMBOLS
    requires forall s :: s in lists ==> s < SYMBOLS && freq[s] > 0
    requires Lightest(freq, c1, c2) && LastLightest(freq, c1, c2)
    requires Together(lists, c1, c2, lists') && Deeper(sizes, deeper, lists[c1] + lists[c2])
    ensures ReservedDeepest(Merged(freq, c1, c2), deeper, lists', home')
  {
    hide PairLate, MemberLow, Lightest, LastLightest, Merged;
    home' := if home in {c1, c2} then c1 else home;
    assert Member(lists', home', 256);
    TogetherFacts(freq, sizes, lists, c1, c2, deeper, lists', home', 256);
    var freq' := Merged(freq, c1, c2);
    forall s: nat, x: nat | Member(lists', s, x) ensures MemberLow(freq', deeper, home', s, x) {
      if home in {c1, c2} {
        LowWithin(freq, sizes, lists, home, c1, c2, deeper, lists', s, x);
      } else {
        LowApart(freq, sizes, lists, home, c1, c2, deeper, lists', s, x);
      }
    }
    forall s: nat, t: nat | Beside(lists', home', s, t) ensures PairLate(freq', deeper, lists', home', s, t) {
      if home in {c1, c2} {
        PairWithin(freq, sizes, lists, home, c1, c2, deeper, lists', s, t);
      } else {
        PairApart(freq, sizes, lists, home, c1, c2, deeper, lists', s, t);
      }
    }
  }

  lemma ForestTogether(freq: seq<nat>, sizes: seq<nat>, others: seq<int>, lists: Lists, used: set<nat>,
                       c1: nat, c2: nat, lists': Lists)
    requires ForestOk(freq, sizes, others, lists, used) && c1 in lists && c2 in lists && c1 != c2
    requires lists' == (lists - {c2})[c1 := lists[c1] + lists[c2]]
    ensures Together(lists, c1, c2, lists')
    ensures forall s :: s in lists ==> s < SYMBOLS && freq[s] > 0
  {
    hide ListOk;
  }

  lemma DeepestEnds(freq: seq<nat>, sizes: seq<nat>, lists: Lists, home: nat, c: nat)
    requires ReservedDeepest(freq, sizes, lists, home) && |sizes| == SYMBOLS
    requires c in lists && forall x :: 0 <= x < SYMBOLS ==> sizes[x] > 0 ==> x in lists[c]
    ensures forall x :: 0 <= x < SYMBOLS ==> sizes[x] <= sizes[256]
  {
    forall x: nat | x < SYMBOLS && sizes[x] > 0 ensures sizes[x] <= sizes[256] {
      assert Member(lists, c, x);
    }
  }

  // ------------------------------------------------------------------- cost

  ghost function ListSum(freq: seq<nat>, members: seq<nat>): nat
    requires Bounded(members, |freq|)
  {
    if members == [] then 0 else freq[members[0]] + ListSum(freq, members[1..])
  }

  lemma {:induction false} ListSumJoin(freq: seq<nat>, a: seq<nat>, b: seq<nat>)
    requires Bounded(a, |freq|) && Bounded(b, |freq|)
    ensures Bounded(a + b, |freq|) && ListSum(freq, a + b) == ListSum(freq, a) + ListSum(freq, b)
  {
    if a == [] {
      assert a + b == b;
    } else {
      assert (a + b)[1..] == a[1..] + b;
      ListSumJoin(freq, a[1..], b);
    }
  }

  /** One more bit for each symbol of a list costs their frequencies. */
  lemma {:induction false} CostDeeper(freq: seq<nat>, sizes: seq<nat>, deeper: seq<nat>, members: seq<nat>)
    requires |freq| == |sizes| && Bounded(members, |freq|) && NoRepeat(members) && Deeper(sizes, deeper, members)
    ensures Cost(freq, deeper) == Cost(freq, sizes) + ListSum(freq, members)
    decreases |members|
  {
    hide Cost;
    if members == [] {
      assert deeper == sizes;
    } else {
      var x, rest := members[0], members[1..];
      var once := sizes[x := sizes[x] + 1];
      forall k | 0 <= k < |rest| ensures rest[k] != x {
        assert rest[k] == members[k + 1];
      }
      assert freq[x := freq[x]] == freq;
      CostUpdate(freq, sizes, x, freq[x], sizes[x] + 1);
      assert freq[x] * (sizes[x] + 1) == freq[x] * sizes[x] + freq[x];
      assert members == [x] + rest;
      CostDeeper(freq, once, deeper, rest);
    }
  }

  /** A tree's frequency is that of its symbols together. */
  ghost predicate Loads(freq: seq<nat>, forest: seq<nat>, lists: Lists) {
    forall r :: r in lists ==> r < |forest| && Bounded(lists[r], |freq|) && forest[r] == ListSum(freq, lists[r])
  }

  lemma LoadsStep(freq: seq<nat>, forest: seq<nat>, lists: Lists, c1: nat, c2: nat)
    requires Loads(freq, forest, lists) && c1 in lists && c2 in lists && c1 != c2
    ensures Loads(freq, Merged(forest, c1, c2), (lists - {c2})[c1 := lists[c1] + lists[c2]])
  {
    hide ListSum;
    ListSumJoin(freq, lists[c1], lists[c2]);
  }

  lemma DeeperBoth(before: seq<nat>, middle: seq<nat>, after: seq<nat>, a: seq<nat>, b: seq<nat>)
    requires Deeper(before, middle, a) && Deeper(middle, after, b) && forall x :: x in a ==> x !in b
    ensures Deeper(before, after, a + b)
  {
  }

  /** Everything the loop keeps about depth and cost. */
  ghost predicate Keeping(freq0: seq<nat>, freq: seq<nat>, sizes: seq<nat>, lists: Lists) {
    DepthOk(freq, sizes, lists) && Loads(freq0, freq, lists) && OnCourse(freq0, sizes, freq)
  }

  lemma KeepingBegins(freq: seq<nat>, sizes: seq<nat>, lists: Lists)
    requires |freq| == |sizes| == SYMBOLS && forall i :: 0 <= i < SYMBOLS ==> sizes[i] == 0
    requires lists == map i | i in Used(freq) :: [i]
    ensures Keeping(freq, freq, sizes, lists)
  {
    CourseBegins(freq, sizes);
    forall r | r in lists ensures Bounded(lists[r], |freq|) && freq[r] == ListSum(freq, lists[r]) {
      assert ListSum(freq, [r]) == freq[r] + ListSum(freq, []);
    }
  }

  lemma KeepingStep(freq0: seq<nat>, freq: seq<nat>, sizes: seq<nat>, others: seq<int>, lists: Lists, used: set<nat>,
                    c1: nat, c2: nat, deeper: seq<nat>, lists': Lists)
    requires Keeping(freq0, freq, sizes, lists) && ForestOk(freq, sizes, others, lists, used) && |freq0| == |sizes|
    requires c1 in lists && c2 in lists && Lightest(freq, c1, c2)
    requires Deeper(sizes, deeper, lists[c1] + lists[c2]) && lists' == (lists - {c2})[c1 := lists[c1] + lists[c2]]
    ensures Keeping(freq0, Merged(freq, c1, c2), deeper, lists')
  {
    hide DepthOk, OnCourse, Deeper, ListOk, Cost, ListSum;
    ForestPair(freq, sizes, others, lists, used, c1, c2);
    DepthStep(freq, sizes, lists, c1, c2, deeper, lists');
    LoadsStep(freq0, freq, lists, c1, c2);
    NoRepeatJoin(lists[c1], lists[c2]);
    ListSumJoin(freq0, lists[c1], lists[c2]);
    DeeperSize(sizes, deeper, lists[c1] + lists[c2]);
    CostDeeper(freq0, sizes, deeper, lists[c1] + lists[c2]);
    CourseStep(freq0, sizes, freq, c1, c2, deeper);
  }

  lemma DeeperSize(sizes: seq<nat>, deeper: seq<nat>, members: seq<nat>)
    requires Deeper(sizes, deeper, members)
    ensures |deeper| == |sizes|
  {
  }

  /** At the end no symbol is deeper than the total allows, and the lengths are optimal. */
  lemma KeepingEnds(freq0: seq<nat>, freq: seq<nat>, sizes: seq<nat>, lists: Lists, c: nat)
    requires Keeping(freq0, freq, sizes, lists) && c in lists && |sizes| == |freq| == SYMBOLS && c < |freq|
    requires forall x :: 0 <= x < SYMBOLS ==> sizes[x] > 0 ==> x in lists[c]
    requires Sum(freq) == Sum(freq0)
    ensures Optimal(freq0, sizes)
    ensures forall x :: 0 <= x < SYMBOLS ==> sizes[x] > 0 ==> Least(sizes[x]) <= Sum(freq0)
  {
    hide OnCourse, Optimal;
    CourseEnds(freq0, sizes, freq);
    SumBounds(freq);
    forall x | 0 <= x < SYMBOLS && sizes[x] > 0 ensures Least(sizes[x]) <= Sum(freq0) {
      DepthAt(freq, sizes, lists, c, x);
    }
  }

  /**
   Code lengths for the symbols used: together their codes take all bit strings,
   no lengths of a prefix code cost less, a long code needs a large total, and
   the reserved symbol has as long a code as any.
   */
  method CodeSizes(counts: seq<nat>) returns (sizes: seq<nat>, ghost members: seq<nat>)
    requires |counts| == SYMBOLS - 1 && Sum(counts + [1]) <= UNLIMITED
    ensures |sizes| == SYMBOLS && Bounded(members, SYMBOLS) && NoRepeat(members)
    ensures forall x :: x in members <==> x in Used(counts + [1])
    ensures Weight(sizes, members) == 1.0
    ensures forall x :: 0 <= x < SYMBOLS ==> (sizes[x] > 0 <==> x in members && |members| > 1)
    ensures Optimal(counts + [1], sizes)
    ensures forall x :: 0 <= x < SYMBOLS ==> sizes[x] > 0 ==> Least(sizes[x]) <= Sum(counts + [1])
    ensures forall x :: 0 <= x < SYMBOLS ==> sizes[x] <= sizes[256]
  {
    hide ReservedDeepest, LastLightest, Together, ForestOk, Weight, Sum, ListOk, Deeper, Chain, NoRepeat, Keeping,
      Merged, Lightest, Optimal, Least;
    var freq := counts + [1];
    sizes := seq(SYMBOLS, _ => 0);
    var others := seq(SYMBOLS, _ => -1);
    ghost var used := Used(freq);
    ghost var lists: Lists := map i | i in used :: [i];
    StartOk(freq, sizes, others, lists);
    KeepingBegins(freq, sizes, lists);
    ghost var home: nat := 256;
    DeepestBegins(freq, sizes, lists);
    while true
      invariant ForestOk(freq, sizes, others, lists, used) && |freq| == SYMBOLS && Sum(freq) == Sum(counts + [1])
      invariant Keeping(counts + [1], freq, sizes, lists) && ReservedDeepest(freq, sizes, lists, home) && |sizes| == SYMBOLS
      invariant 256 in used
      decreases |lists.Keys|
    {
      SumBounds(freq);
      ForestHeads(freq, sizes, others, lists, used);
      var c1 := Smallest(freq, -1);
      var c2 := Smallest(freq, c1);
      if c2 < 0 {
        members := lists[c1];
        LastOk(freq, sizes, others, lists, used, c1);
        KeepingEnds(counts + [1], freq, sizes, lists, c1);
        DeepestEnds(freq, sizes, lists, home, c1);
        break;
      }
      ghost var a, b := lists[c1], lists[c2];
      ForestPair(freq, sizes, others, lists, used, c1, c2);
      IsLightest(freq, c1, c2);
      IsLast(freq, c1, c2);
      ghost var before := sizes;
      SumMove(freq, c1, c2);
      var last, end;
      sizes, last := Deepen(sizes, others, c1, a);
      ghost var middle := sizes;
      assert last in a;
      var joined := others[last := c2];
      ChainFrame(others, b, last, c2);
      sizes, end := Deepen(sizes, joined, c2, b);
      DeeperBoth(before, middle, sizes, a, b);
      ghost var lists' := (lists - {c2 as nat})[c1 := a + b];
      MergeOk(freq, before, others, lists, used, c1, c2, sizes, last, lists');
      KeepingStep(counts + [1], freq, before, others, lists, used, c1, c2, sizes, lists');
      ForestTogether(freq, before, others, lists, used, c1, c2, lists');
      home := DeepestStep(freq, before, lists, home, c1, c2, sizes, lists');
      MergedIs(freq, c1, c2);
      freq := freq[c1 := freq[c1] + freq[c2]][c2 := 0];
      others := joined;
      assert lists'.Keys == lists.Keys - {c2 as nat};
      lists := lists';
    }
  }

  lemma MergedIs(freq: seq<nat>, c1: nat, c2: nat)
    requires c1 < |freq| && c2 < |freq|
    ensures Merged(freq, c1, c2) == freq[c1 := freq[c1] + freq[c2]][c2 := 0]
  {
  }

  lemma IsLast(freq: seq<nat>, c1: nat, c2: nat)
    requires |freq| == SYMBOLS && c1 < SYMBOLS && c2 < SYMBOLS
    requires forall i :: 0 <= i < SYMBOLS && i != -1 && freq[i] > 0 ==> freq[c1] <= freq[i] && (c1 < i ==> freq[c1] < freq[i])
    requires forall i :: 0 <= i < SYMBOLS && i != c1 && freq[i] > 0 ==> freq[c2] <= freq[i] && (c2 < i ==> freq[c2] < freq[i])
    ensures LastLightest(freq, c1, c2)
  {
  }

  lemma IsLightest(freq: seq<nat>, c1: nat, c2: nat)
    requires |freq| == SYMBOLS && c1 < SYMBOLS && c2 < SYMBOLS && c1 != c2 && freq[c1] > 0 && freq[c2] > 0
    requires forall i :: 0 <= i < SYMBOLS && i != -1 && freq[i] > 0 ==> freq[c1] <= freq[i]
    requires forall i :: 0 <= i < SYMBOLS && i != c1 && freq[i] > 0 ==> freq[c2] <= freq[i]
    ensures Lightest(freq, c1, c2)
  {
  }
}
