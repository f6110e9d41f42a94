/** Moving the kernel image: the choice of a free slot, and relocation in place. */
module Aslr {
  import opened Arithmetic
  import opened Options

  const ALIGNMENT: nat := 0x20_0000

  // ------------------------------------------------------------- slot choice

  /** A free region: from `start` up to but not including `end`. */
  datatype Span = Span(start: nat, end: nat)

  /** An aligned position at which `size` bytes fit into the region. */
  predicate Fits(p: nat, region: Span, size: nat) {
    p % ALIGNMENT == 0 && region.start <= p && p + size <= region.end
  }

  function First(region: Span): nat {
    (region.start + ALIGNMENT - 1) / ALIGNMENT * ALIGNMENT
  }

  function Count(region: Span, size: nat): nat {
    if region.end < size || First(region) > region.end - size then 0
    else (region.end - size - First(region)) / ALIGNMENT + 1
  }

  function Total(regions: seq<Span>, size: nat): nat {
    if regions == [] then 0 else Count(regions[0], size) + Total(regions[1..], size)
  }

  /** The position that a choice below the total names. */
  function Slot(regions: seq<Span>, size: nat, choice: nat): nat
    requires choice < Total(regions, size)
  {
    if choice < Count(regions[0], size) then First(regions[0]) + choice * ALIGNMENT
    else Slot(regions[1..], size, choice - Count(regions[0], size))
  }

  /** The positions in one region are its first one and those that follow it at the alignment. */
  lemma RegionSlots(region: Span, size: nat, k: nat)
    ensures k < Count(region, size) <==> Fits(First(region) + k * ALIGNMENT, region, size)
  {
  }

  lemma RegionCovers(region: Span, size: nat, p: nat) returns (k: nat)
    requires Fits(p, region, size)
    ensures k < Count(region, size) && p == First(region) + k * ALIGNMENT
  {
    k := (p - First(region)) / ALIGNMENT;
  }

  /** Every choice names a position that fits. */
  lemma {:induction false} SlotFits(regions: seq<Span>, size: nat, choice: nat)
    requires choice < Total(regions, size)
    ensures exists i :: 0 <= i < |regions| && Fits(Slot(regions, size, choice), regions[i], size)
  {
    var count := Count(regions[0], size);
    if choice < count {
      RegionSlots(regions[0], size, choice);
    } else {
      SlotFits(regions[1..], size, choice - count);
      var i :| 0 <= i < |regions[1..]| && Fits(Slot(regions, size, choice), regions[1..][i], size);
      assert regions[1..][i] == regions[i + 1];
    }
  }

  /** Every position that fits is named by a choice. */
  lemma {:induction false} SlotReached(regions: seq<Span>, size: nat, i: nat, p: nat) returns (choice: nat)
    requires i < |regions| && Fits(p, regions[i], size)
    ensures choice < Total(regions, size) && Slot(regions, size, choice) == p
  {
    if i == 0 {
      choice := RegionCovers(regions[0], size, p);
    } else {
      var rest := SlotReached(regions[1..], size, i - 1, p);
      choice := rest + Count(regions[0], size);
    }
  }

  ghost predicate Disjoint(regions: seq<Span>) {
    forall i, j :: 0 <= i < j < |regions| ==> regions[i].end <= regions[j].start || regions[j].end <= regions[i].start
  }

  /** No two choices name the same position, when the regions do not overlap. */
  lemma {:induction false} SlotInjective(regions: seq<Span>, size: nat, a: nat, b: nat)
    requires Disjoint(regions) && size > 0
    requires a < b < Total(regions, size)
    ensures Slot(regions, size, a) != Slot(regions, size, b)
  {
    var count := Count(regions[0], size);
    if a >= count {
      assert Disjoint(regions[1..]);
      SlotInjective(regions[1..], size, a - count, b - count);
    } else if b >= count {
      RegionSlots(regions[0], size, a);
      SlotFits(regions[1..], size, b - count);
      var i :| 0 <= i < |regions[1..]| && Fits(Slot(regions, size, b), regions[1..][i], size);
      assert regions[1..][i] == regions[i + 1];
    }
  }

  lemma NothingFits(regions: seq<Span>, size: nat)
    ensures Total(regions, size) == 0
       <==> forall i, p :: 0 <= i < |regions| && 0 <= p ==> !Fits(p, regions[i], size)
  {
    if Total(regions, size) == 0 {
      forall i, p | 0 <= i < |regions| && 0 <= p ensures !Fits(p, regions[i], size) {
        if Fits(p, regions[i], size) {
          var choice := SlotReached(regions, size, i, p);
        }
      }
    } else {
      SlotFits(regions, size, 0);
    }
  }

  method Choose(regions: seq<Span>, size: nat, among: nat) returns (slot: nat)
    requires among < Total(regions, size)
    ensures slot == Slot(regions, size, among)
  {
    hide Count, First;
    var i, choice: nat := 0, among;
    while choice >= Count(regions[i], size)
      invariant i < |regions|
      invariant choice < Total(regions[i..], size)
      invariant Slot(regions[i..], size, choice) == Slot(regions, size, among)
      decreases |regions| - i
    {
      assert regions[i..][1..] == regions[i + 1..];
      choice := choice - Count(regions[i], size);
      i := i + 1;
    }
    slot := First(regions[i]) + choice * ALIGNMENT;
  }

  // ------------------------------------------------------------- how evenly

  /** As many random words as there are. */
  const WORDS: nat := 0x1_0000_0000_0000_0000

  /** How many of the first `n` random words name choice `c`. */
  function Draws(total: nat, c: nat, n: nat): nat
    requires total > 0
  {
    if n == 0 then 0 else Draws(total, c, n - 1) + if (n - 1) % total == c then 1 else 0
  }

  lemma {:induction false} DrawsAre(total: nat, c: nat, n: nat)
    requires c < total
    ensures Draws(total, c, n) == n / total + if c < n % total then 1 else 0
  {
    if n > 0 {
      DrawsAre(total, c, n - 1);
      NextRemainder(total, n - 1);
    }
  }

  lemma NextRemainder(total: nat, n: nat)
    requires total > 0
    ensures if n % total + 1 < total
            then (n + 1) / total == n / total && (n + 1) % total == n % total + 1
            else (n + 1) / total == n / total + 1 && (n + 1) % total == 0
  {
    var q, r := n / total, n % total;
    assert n == q * total + r;
    if r + 1 < total {
      DivIs(total, n + 1, q, r + 1);
    } else {
      assert (q + 1) * total == q * total + total;
      DivIs(total, n + 1, q + 1, 0);
    }
  }

  lemma DivIs(total: nat, n: nat, q: nat, r: nat)
    requires r < total && n == q * total + r
    ensures n / total == q && n % total == r
  {
    DivExact(q, total, r);
  }

  /**
   No choice is named by over one random word more than another; all are named
   equally often exactly when the number of slots divides that of the words.
   */
  lemma HowEvenly(total: nat)
    requires total > 0
    ensures forall c :: 0 <= c < total ==> Draws(total, c, WORDS) in {WORDS / total, WORDS / total + 1}
    ensures (forall c, d :: 0 <= c < d < total ==> Draws(total, c, WORDS) == Draws(total, d, WORDS))
       <==> WORDS % total == 0
  {
    hide Draws;
    forall c | 0 <= c < total
      ensures Draws(total, c, WORDS) == WORDS / total + if c < WORDS % total then 1 else 0
    {
      DrawsAre(total, c, WORDS);
    }
    if WORDS % total != 0 {
      assert Draws(total, 0, WORDS) != Draws(total, total - 1, WORDS);
    }
  }

  /** The slot that a random word picks from all that fit, with their number; none exactly when nothing fits. */
  method PickSlot(regions: seq<Span>, size: nat, random: nat) returns (r: Option<(nat, nat)>)
    ensures r.None? <==> forall i, p :: 0 <= i < |regions| && 0 <= p ==> !Fits(p, regions[i], size)
    ensures r.Some? ==> var total := Total(regions, size);
                        total > 0 && r.value == (Slot(regions, size, random % total), total)
  {
    hide Count, First, Fits;
    var total := 0;
    for i := 0 to |regions|
      invariant total + Total(regions[i..], size) == Total(regions, size)
    {
      assert regions[i..][1..] == regions[i + 1..];
      total := total + Count(regions[i], size);
    }
    NothingFits(regions, size);
    if total == 0 {
      return None;
    }
    var slot := Choose(regions, size, random % total);
    r := Some((slot, total));
  }
}
