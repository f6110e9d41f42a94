/** The scheduler of request batches: barriers, elevator order and merging. */
module BlockScheduler {
  import opened Options
  import opened BlockCache
  import opened BlockBatches

  // -------------------------------------------------------------- the order

  /** Request `a` sorts before or with `b`: by the disk's slot, then by sector. */
  predicate KeyLe(a: Io, b: Io) {
    a.disk.Index() < b.disk.Index() || (a.disk.Index() == b.disk.Index() && a.lba <= b.lba)
  }

  ghost predicate Places(order: seq<nat>, n: nat) {
    forall k :: 0 <= k < |order| ==> order[k] < n
  }

  ghost predicate SortedBy(group: seq<Io>, order: seq<nat>)
    requires Places(order, |group|)
  {
    forall j, k :: 0 <= j < k < |order| ==> KeyLe(group[order[j]], group[order[k]])
  }

  /** The same places, sorted. */
  method Sort(group: seq<Io>, order: seq<nat>) returns (sorted: seq<nat>)
    requires Places(order, |group|)
    ensures multiset(sorted) == multiset(order) && Places(sorted, |group|) && SortedBy(group, sorted)
  {
    hide SortedBy;
    sorted := [];
    assert SortedBy(group, []) by { NoneSorted(group); }
    for n := 0 to |order|
      invariant multiset(sorted) == multiset(order[..n]) && Places(sorted, |group|) && SortedBy(group, sorted)
    {
      assert order[..n + 1] == order[..n] + [order[n]];
      sorted := SortInto(group, sorted, order[n]);
    }
    assert order[..|order|] == order;
  }

  lemma NoneSorted(group: seq<Io>)
    ensures SortedBy(group, [])
  {
  }

  /** One place more, after those that sort before or with it. */
  method SortInto(group: seq<Io>, sorted: seq<nat>, x: nat) returns (more: seq<nat>)
    requires Places(sorted, |group|) && SortedBy(group, sorted) && x < |group|
    ensures multiset(more) == multiset(sorted) + multiset{x} && Places(more, |group|) && SortedBy(group, more)
  {
    hide SortedBy;
    var k := 0;
    while k < |sorted| && KeyLe(group[sorted[k]], group[x])
      invariant 0 <= k <= |sorted| && forall j :: 0 <= j < k ==> KeyLe(group[sorted[j]], group[x])
    {
      k := k + 1;
    }
    assert sorted == sorted[..k] + sorted[k..];
    more := sorted[..k] + [x] + sorted[k..];
    Inserted(group, sorted, k, x);
  }

  lemma Inserted(group: seq<Io>, sorted: seq<nat>, k: nat, x: nat)
    requires Places(sorted, |group|) && SortedBy(group, sorted) && k <= |sorted| && x < |group|
    requires forall j :: 0 <= j < k ==> KeyLe(group[sorted[j]], group[x])
    requires k < |sorted| ==> !KeyLe(group[sorted[k]], group[x])
    ensures var s := sorted[..k] + [x] + sorted[k..]; Places(s, |group|) && SortedBy(group, s)
  {
    var s := sorted[..k] + [x] + sorted[k..];
    forall i, j | 0 <= i < j < |s| ensures KeyLe(group[s[i]], group[s[j]]) {
      if i == k {
        assert s[j] == sorted[j - 1];
      } else if j == k {
      } else {
        assert s[i] == sorted[if i < k then i else i - 1] && s[j] == sorted[if j < k then j else j - 1];
      }
    }
  }

  ghost predicate Ascending(group: seq<Io>, run: seq<nat>)
    requires Places(run, |group|)
  {
    forall j, k :: 0 <= j < k < |run| ==> group[run[j]].lba <= group[run[k]].lba
  }

  ghost predicate AtLeast(group: seq<Io>, run: seq<nat>, head: nat)
    requires Places(run, |group|)
  {
    forall k :: 0 <= k < |run| ==> group[run[k]].lba >= head
  }

  ghost predicate Below(group: seq<Io>, run: seq<nat>, head: nat)
    requires Places(run, |group|)
  {
    forall k :: 0 <= k < |run| ==> group[run[k]].lba < head
  }

  /** One sweep up from `head`, then on from the lowest sector. */
  ghost predicate Sweep(group: seq<Io>, run: seq<nat>, head: nat)
  {
    exists up, wrapped :: run == up + wrapped && Swept(group, up, wrapped, head)
  }

  ghost predicate Swept(group: seq<Io>, up: seq<nat>, wrapped: seq<nat>, head: nat) {
    && Places(up, |group|) && Places(wrapped, |group|)
    && Ascending(group, up) && Ascending(group, wrapped) && AtLeast(group, up, head) && Below(group, wrapped, head)
  }

  /** Turns the run of one disk so that it starts at the head. */
  method Rotate(group: seq<Io>, run: seq<nat>, head: nat) returns (r: seq<nat>)
    requires Places(run, |group|) && Ascending(group, run)
    ensures multiset(r) == multiset(run) && |r| == |run| && Places(r, |group|) && Sweep(group, r, head)
  {
    hide Ascending, Swept, Sweep;
    var split := 0;
    while split < |run| && group[run[split]].lba < head
      invariant split <= |run| && Below(group, run[..split], head)
    {
      assert run[..split + 1] == run[..split] + [run[split]];
      split := split + 1;
    }
    Halved(group, run, split, head);
    var up, wrapped := run[split..], run[..split];
    assert run == wrapped + up;
    SweptIs(group, up, wrapped, head);
    if split == |run| {
      assert run == up + wrapped;
      return run;
    }
    r := up + wrapped;
    assert multiset(run) == multiset(wrapped) + multiset(up);
  }

  lemma SweptIs(group: seq<Io>, up: seq<nat>, wrapped: seq<nat>, head: nat)
    requires Swept(group, up, wrapped, head)
    ensures Sweep(group, up + wrapped, head) && Places(up + wrapped, |group|)
  {
    var run := up + wrapped;
    assert run == up + wrapped && Swept(group, up, wrapped, head);
  }

  lemma Halved(group: seq<Io>, run: seq<nat>, split: nat, head: nat)
    requires Places(run, |group|) && Ascending(group, run) && split <= |run| && Below(group, run[..split], head)
    requires split < |run| ==> group[run[split]].lba >= head
    ensures Swept(group, run[split..], run[..split], head)
  {
    forall k | 0 <= k < |run[split..]| ensures group[run[split..][k]].lba >= head {
      if k > 0 {
        assert group[run[split]].lba <= group[run[split + k]].lba;
      }
    }
  }

  /** Requests of one disk, in one sweep from where its head is. */
  ghost predicate OneSweep(group: seq<Io>, run: seq<nat>, heads: seq<nat>) {
    && Places(run, |group|) && |heads| == DISKS && run != []
    && (forall k :: 0 <= k < |run| ==> group[run[k]].disk == group[run[0]].disk)
    && Sweep(group, run, heads[group[run[0]].disk.Index()])
  }

  /** One sweep after the other, each of another disk than the one before. */
  ghost predicate Sweeps(group: seq<Io>, order: seq<nat>, heads: seq<nat>)
    decreases |order|
  {
    order == [] ||
    exists from: nat :: from < |order| && Sweeps(group, order[..from], heads) && LastSweep(group, order, from, heads)
  }

  ghost predicate LastSweep(group: seq<Io>, order: seq<nat>, from: nat, heads: seq<nat>) {
    && Places(order, |group|) && from < |order| && OneSweep(group, order[from..], heads)
    && (from > 0 ==> group[order[from - 1]].disk != group[order[from]].disk)
  }

  /** Disks come by their slots. */
  ghost predicate BySlot(group: seq<Io>, order: seq<nat>) {
    && Places(order, |group|)
    && forall j, k :: 0 <= j < k < |order| ==> group[order[j]].disk.Index() <= group[order[k]].disk.Index()
  }

  lemma SweepsMore(group: seq<Io>, order: seq<nat>, run: seq<nat>, heads: seq<nat>)
    requires Sweeps(group, order, heads) && Places(order, |group|) && OneSweep(group, run, heads)
    requires order != [] ==> group[order[|order| - 1]].disk != group[run[0]].disk
    ensures Sweeps(group, order + run, heads)
  {
    var all, from := order + run, |order|;
    assert all[..from] == order && all[from..] == run;
    assert LastSweep(group, all, from, heads);
  }

  lemma TurnedSweep(group: seq<Io>, run: seq<nat>, turned: seq<nat>, disk: Disk, heads: seq<nat>)
    requires Places(run, |group|) && Places(turned, |group|) && multiset(turned) == multiset(run)
    requires forall k :: 0 <= k < |run| ==> group[run[k]].disk == disk
    requires |heads| == DISKS && turned != [] && Sweep(group, turned, heads[disk.Index()])
    ensures OneSweep(group, turned, heads) && forall k :: 0 <= k < |turned| ==> group[turned[k]].disk == disk
  {
    forall k | 0 <= k < |turned| ensures group[turned[k]].disk == disk {
      assert turned[k] in multiset(turned);
      assert turned[k] in multiset(run);
      assert turned[k] in run;
    }
  }

  /** The requests of each disk, in one sweep from where its head is. */
  method Arrange(group: seq<Io>, sorted: seq<nat>, heads: seq<nat>) returns (order: seq<nat>)
    requires Places(sorted, |group|) && SortedBy(group, sorted) && |heads| == DISKS
    ensures multiset(order) == multiset(sorted) && |order| == |sorted| && Places(order, |group|)
    ensures Sweeps(group, order, heads) && BySlot(group, order)
  {
    hide Sweeps, SortedBy, BySlot;
    order := sorted;
    var from := 0;
    assert Sweeps(group, order[..0], heads) by { NoSweeps(group, heads); }
    SortedBySlot(group, sorted);
    while from < |order|
      invariant from <= |order| == |sorted| && Places(order, |group|) && multiset(order) == multiset(sorted)
      invariant order[from..] == sorted[from..] && Sweeps(group, order[..from], heads) && BySlot(group, order)
      invariant 0 < from < |order| ==> group[order[from - 1]].disk != group[order[from]].disk
    {
      order, from := ArrangeRun(group, sorted, order, from, heads);
    }
    assert order[..from] == order;
  }

  lemma SortedBySlot(group: seq<Io>, sorted: seq<nat>)
    requires Places(sorted, |group|) && SortedBy(group, sorted)
    ensures BySlot(group, sorted)
  {
    forall j, k | 0 <= j < k < |sorted| ensures group[sorted[j]].disk.Index() <= group[sorted[k]].disk.Index() {
      assert KeyLe(group[sorted[j]], group[sorted[k]]);
    }
  }

  /** The run that starts at `from`, in one sweep. */
  method ArrangeRun(group: seq<Io>, ghost sorted: seq<nat>, order: seq<nat>, from: nat, heads: seq<nat>)
    returns (order': seq<nat>, to: nat)
    requires Places(sorted, |group|) && SortedBy(group, sorted) && |heads| == DISKS
    requires from < |order| == |sorted| && Places(order, |group|) && multiset(order) == multiset(sorted)
    requires order[from..] == sorted[from..] && Sweeps(group, order[..from], heads) && BySlot(group, order)
    requires from > 0 ==> group[order[from - 1]].disk != group[order[from]].disk
    ensures from < to <= |order'| == |sorted| && Places(order', |group|) && multiset(order') == multiset(sorted)
    ensures order'[to..] == sorted[to..] && Sweeps(group, order'[..to], heads) && BySlot(group, order')
    ensures to < |order'| ==> group[order'[to - 1]].disk != group[order'[to]].disk
  {
    hide SortedBy, Ascending, Sweep, Sweeps, OneSweep, BySlot;
    var disk := group[order[from]].disk;
    to := RunEnd(group, order, from);
    RunAscends(group, sorted, order, from, to);
    var turned := Rotate(group, order[from..to], heads[disk.Index()]);
    TurnedSweep(group, order[from..to], turned, disk, heads);
    RunTurned(group, sorted, order, from, to, turned, heads);
    order' := order[..from] + turned + order[to..];
  }

  /** Where the requests of another disk begin. */
  method RunEnd(group: seq<Io>, order: seq<nat>, from: nat) returns (to: nat)
    requires Places(order, |group|) && from < |order|
    ensures from < to <= |order| && forall k :: from <= k < to ==> group[order[k]].disk == group[order[from]].disk
    ensures to < |order| ==> group[order[to]].disk != group[order[from]].disk
  {
    to := from;
    while to < |order| && group[order[to]].disk == group[order[from]].disk
      invariant from <= to <= |order| && forall k :: from <= k < to ==> group[order[k]].disk == group[order[from]].disk
      invariant to == from ==> group[order[to]].disk == group[order[from]].disk
    {
      to := to + 1;
    }
  }

  lemma RunTurned(group: seq<Io>, sorted: seq<nat>, order: seq<nat>, from: nat, to: nat, turned: seq<nat>, heads: seq<nat>)
    requires from < to <= |order| == |sorted| && Places(order, |group|) && order[from..] == sorted[from..]
    requires Sweeps(group, order[..from], heads) && BySlot(group, order) && OneSweep(group, turned, heads)
    requires multiset(turned) == multiset(order[from..to]) && |turned| == to - from && Places(turned, |group|)
    requires forall k :: from <= k < to ==> group[order[k]].disk == group[order[from]].disk
    requires forall k :: 0 <= k < |turned| ==> group[turned[k]].disk == group[order[from]].disk
    requires from > 0 ==> group[order[from - 1]].disk != group[order[from]].disk
    requires to < |order| ==> group[order[to]].disk != group[order[from]].disk
    ensures var r := order[..from] + turned + order[to..];
            && |r| == |order| && Places(r, |group|) && multiset(r) == multiset(order) && r[to..] == sorted[to..]
            && Sweeps(group, r[..to], heads) && BySlot(group, r)
            && (to < |r| ==> group[r[to - 1]].disk != group[r[to]].disk)
  {
    hide Sweeps, OneSweep, BySlot;
    SweepsMore(group, order[..from], turned, heads);
    Rearranged(group, sorted, order, from, to, turned);
    TurnedBySlot(group, order, from, to, turned, group[order[from]].disk);
  }

  lemma TurnedBySlot(group: seq<Io>, order: seq<nat>, from: nat, to: nat, turned: seq<nat>, disk: Disk)
    requires BySlot(group, order) && from <= to <= |order| && |turned| == to - from && Places(turned, |group|)
    requires forall k :: from <= k < to ==> group[order[k]].disk == disk
    requires forall k :: 0 <= k < |turned| ==> group[turned[k]].disk == disk
    ensures BySlot(group, order[..from] + turned + order[to..])
  {
    var r := order[..from] + turned + order[to..];
    forall k | 0 <= k < |r| ensures r[k] < |group| && group[r[k]].disk == group[order[k]].disk {
    }
  }

  lemma NoSweeps(group: seq<Io>, heads: seq<nat>)
    ensures Sweeps(group, [], heads)
  {
  }

  lemma RunAscends(group: seq<Io>, sorted: seq<nat>, order: seq<nat>, from: nat, to: nat)
    requires Places(sorted, |group|) && SortedBy(group, sorted) && Places(order, |group|) && |order| == |sorted|
    requires from <= to <= |order| && order[from..] == sorted[from..]
    requires forall k :: from <= k < to ==> group[order[k]].disk == group[order[from]].disk
    ensures Places(order[from..to], |group|) && Ascending(group, order[from..to])
  {
    var run := order[from..to];
    forall j, k | 0 <= j < k < |run| ensures group[run[j]].lba <= group[run[k]].lba {
      assert order[from..][j] == sorted[from + j] && order[from..][k] == sorted[from + k];
      assert KeyLe(group[sorted[from + j]], group[sorted[from + k]]);
      assert group[order[from + j]].disk == group[order[from + k]].disk;
    }
  }

  lemma Rearranged(group: seq<Io>, sorted: seq<nat>, order: seq<nat>, from: nat, to: nat, turned: seq<nat>)
    requires from <= to <= |order| == |sorted| && multiset(turned) == multiset(order[from..to]) && |turned| == to - from
    requires Places(order, |group|) && Places(turned, |group|) && order[from..] == sorted[from..]
    ensures var r := order[..from] + turned + order[to..];
            && multiset(r) == multiset(order) && |r| == |order| && Places(r, |group|)
            && r[to..] == sorted[to..] && r[..to] == order[..from] + turned
  {
    assert order == order[..from] + order[from..to] + order[to..];
    assert multiset(order) == multiset(order[..from]) + multiset(order[from..to]) + multiset(order[to..]);
    var r := order[..from] + turned + order[to..];
    assert r[to..] == order[to..];
    assert order[to..] == order[from..][to - from..];
    assert sorted[to..] == sorted[from..][to - from..];
  }

  // ------------------------------------------------------------- merged runs

  /** Requests of one kind that follow one another on a disk. */
  ghost predicate Adjacent(sel: seq<Io>) {
    && (forall k :: 0 <= k < |sel| ==> sel[k].disk == sel[0].disk && sel[k].write == sel[0].write)
    && (forall k {:trigger Next(sel, k)} :: 0 <= k < |sel| - 1 ==> Next(sel, k))
  }

  ghost predicate Next(sel: seq<Io>, k: nat) {
    k + 1 < |sel| && sel[k + 1].lba == sel[k].lba + sel[k].sectors
  }

  lemma AdjacentNext(sel: seq<Io>, k: nat)
    requires Adjacent(sel) && k + 1 < |sel|
    ensures sel[k + 1].lba == sel[k].lba + sel[k].sectors
  {
    assert Next(sel, k);
  }

  lemma OneMoreDone(done: seq<Io>, k: nat)
    requires k < |done|
    ensures done[..k + 1] == done[..k] + [done[k]]
  {
  }

  lemma SelectAt(ios: seq<Io>, places: seq<nat>, k: nat)
    requires Places(places, |ios|) && k < |places|
    ensures Select(ios, places)[k] == ios[places[k]]
  {
  }

  lemma AdjacentPrefix(sel: seq<Io>, k: nat)
    requires Adjacent(sel) && k <= |sel|
    ensures Adjacent(sel[..k])
  {
    forall j | 0 <= j < k - 1 ensures Next(sel[..k], j) {
      assert Next(sel, j);
    }
  }

  function Length(sel: seq<Io>): nat {
    if sel == [] then 0 else Length(sel[..|sel| - 1]) + sel[|sel| - 1].sectors
  }

  lemma {:induction false} LengthSpan(sel: seq<Io>)
    requires sel != [] && Adjacent(sel)
    ensures sel[0].lba + Length(sel) == sel[|sel| - 1].lba + sel[|sel| - 1].sectors
    decreases |sel|
  {
    if |sel| > 1 {
      var init := sel[..|sel| - 1];
      AdjacentPrefix(sel, |sel| - 1);
      LengthSpan(init);
      assert Next(sel, |sel| - 2);
    } else {
      assert sel[..0] == [];
    }
  }

  ghost predicate AllValid(sel: seq<Io>) {
    forall k :: 0 <= k < |sel| ==> ValidIo(sel[k])
  }

  /** What the requests write, end to end. */
  function Staged(sel: seq<Io>): (data: seq<Sector>)
    requires forall k :: 0 <= k < |sel| ==> ValidIo(sel[k])
    ensures |data| == Length(sel)
  {
    if sel == [] then []
    else
      var last := sel[|sel| - 1];
      assert ValidIo(last);
      Staged(sel[..|sel| - 1]) + last.data[..last.sectors]
  }

  /** One write of the lot is the same as each write in turn. */
  lemma {:induction false} MergedWrite(media: Media, sel: seq<Io>)
    requires sel != [] && Adjacent(sel) && AllValid(sel) && sel[0].write && AllInRange(media, sel)
    ensures sel[0].lba + Length(sel) <= SizeOf(media, sel[0].disk)
    ensures RunMedia(media, sel) == SetRun(media, sel[0].disk, sel[0].lba, Staged(sel))
    ensures forall k :: 0 <= k < |sel| ==> RunIos(media, sel)[k] == sel[k].(ok := true)
    decreases |sel|
  {
    hide SetRun, Run, RunMedia, RunIos, Staged, Length;
    LengthSpan(sel);
    var last := sel[|sel| - 1];
    assert InRange(media, last);
    var init := sel[..|sel| - 1];
    assert sel == init + [last];
    RunJoinBatches(media, init, [last]);
    RunOne(RunMedia(media, init), last);
    StagedStep(sel);
    if init == [] {
      RunNone(media);
      assert Staged(sel) == last.data[..last.sectors];
    } else {
      AdjacentPrefix(sel, |sel| - 1);
      MergedWrite(media, init);
      LengthSpan(init);
      assert Next(sel, |sel| - 2);
      Appended(media, last.disk, sel[0].lba, Staged(init), last.data[..last.sectors]);
    }
  }

  lemma StagedStep(sel: seq<Io>)
    requires sel != [] && AllValid(sel)
    ensures var last, init := sel[|sel| - 1], sel[..|sel| - 1];
            && ValidIo(last) && AllValid(init) && Staged(sel) == Staged(init) + last.data[..last.sectors]
            && Length(sel) == Length(init) + last.sectors && Staged([]) == [] && Length([]) == 0
  {
  }

  lemma RunNone(media: Media)
    requires AllInRange(media, [])
    ensures RunMedia(media, []) == media && RunIos(media, []) == []
  {
  }

  lemma Appended(media: Media, disk: Disk, lba: nat, a: seq<Sector>, b: seq<Sector>)
    requires lba + |a| + |b| <= SizeOf(media, disk)
    ensures SetRun(SetRun(media, disk, lba, a), disk, lba + |a|, b) == SetRun(media, disk, lba, a + b)
  {
    hide SetRun;
    var all := a + b;
    assert all[..|a|] == a && all[|a|..|a| + |b|] == b && all[..|a| + |b|] == all;
    SetRunJoin(media, disk, lba, all, |a|, |b|);
  }

  /** Reads change nothing, so each sees the media as they are. */
  lemma {:induction false} ReadsInTurn(media: Media, sel: seq<Io>)
    requires AllInRange(media, sel) && forall k :: 0 <= k < |sel| ==> !sel[k].write
    ensures RunMedia(media, sel) == media
    ensures forall k :: 0 <= k < |sel| ==> InRange(media, sel[k]) && RunIos(media, sel)[k] == IoAfter(media, sel[k])
    decreases |sel|
  {
    hide IoAfter;
    if sel != [] {
      assert InRange(media, sel[0]);
      ReadsInTurn(media, sel[1..]);
    }
  }

  /** One read of the lot has, for each request, the sectors that its own read would give. */
  lemma MergedRead(media: Media, sel: seq<Io>, k: nat)
    requires sel != [] && Adjacent(sel) && AllValid(sel) && !sel[0].write && AllInRange(media, sel) && k < |sel|
    ensures RunMedia(media, sel) == media && sel[0].lba + Length(sel) <= SizeOf(media, sel[0].disk)
    ensures var at := sel[k].lba - sel[0].lba;
            && 0 <= at && at + sel[k].sectors <= Length(sel) && sel[k].sectors <= |sel[k].data|
            && var read := Run(media, sel[0].disk, sel[0].lba, Length(sel));
               RunIos(media, sel)[k]
               == sel[k].(data := read[at..at + sel[k].sectors] + sel[k].data[sel[k].sectors..], ok := true)
  {
    hide RunMedia, RunIos, Length, Run;
    ReadsInTurn(media, sel);
    LengthSpan(sel);
    assert InRange(media, sel[|sel| - 1]) && ValidIo(sel[|sel| - 1]);
    assert InRange(media, sel[k]) && ValidIo(sel[k]);
    PartOfRun(sel, k);
    RunSlice(media, sel[0].disk, sel[0].lba, Length(sel), sel[k].lba, sel[k].sectors);
  }

  /** A request with its part of the sectors read for several. */
  function Handed(staging: seq<Sector>, at: nat, io: Io): Io
    requires at + io.sectors <= |staging| && io.sectors <= |io.data|
  {
    io.(data := staging[at..at + io.sectors] + io.data[io.sectors..], ok := true)
  }

  lemma HandedPart(media: Media, sel: seq<Io>, k: nat, staging: seq<Sector>)
    requires sel != [] && Adjacent(sel) && AllValid(sel) && !sel[0].write && AllInRange(media, sel) && k < |sel|
    requires sel[0].lba + Length(sel) <= SizeOf(media, sel[0].disk)
    requires staging == Run(media, sel[0].disk, sel[0].lba, Length(sel))
    ensures var at := sel[k].lba - sel[0].lba;
            && 0 <= at && at + sel[k].sectors <= |staging| && sel[k].sectors <= |sel[k].data|
            && RunIos(media, sel)[k] == Handed(staging, at, sel[k])
  {
    hide RunIos, RunMedia, Length, AllInRange, AllValid, Adjacent;
    MergedRead(media, sel, k);
  }

  // ------------------------------------------------------------ the scheduler

  method HasHazard(group: seq<Io>) returns (hazard: bool)
    ensures hazard <==> !NoHazard(group)
  {
    for a := 0 to |group|
      invariant forall i, j :: 0 <= i < a && i < j < |group| ==> !Conflicts(group[i], group[j])
    {
      for b := a + 1 to |group|
        invariant forall j :: a < j < b ==> !Conflicts(group[a], group[j])
      {
        if Conflicts(group[a], group[b]) {
          return true;
        }
      }
    }
    return false;
  }

  // ---------------------------------------------------------- the commands

  /** The command of a request by itself; one that is malformed has none. */
  ghost function OneCommand(io: Io): seq<Command> {
    if ValidIo(io) then [Command(io.disk, io.lba, io.sectors, io.write)] else []
  }

  ghost function EachCommand(sel: seq<Io>): seq<Command> {
    if sel == [] then [] else EachCommand(sel[..|sel| - 1]) + OneCommand(sel[|sel| - 1])
  }

  /** Requests that follow one another take one command together, unless one is malformed. */
  ghost function JointCommand(sel: seq<Io>): seq<Command>
    requires sel != []
  {
    if AllValid(sel) then [Command(sel[0].disk, sel[0].lba, Length(sel), sel[0].write)] else EachCommand(sel)
  }

  /** The request after `current` goes into the run that `first` begins, `length` sectors so far. */
  predicate Joins(first: Io, current: Io, next: Io, length: nat) {
    && next.disk == first.disk && next.write == first.write && next.lba == current.lba + current.sectors
    && length + next.sectors <= MAX_RUN
  }

  /** A run of requests, of eight sectors at most, that cannot be longer. */
  ghost predicate LongestRun(group: seq<Io>, order: seq<nat>, from: nat, to: nat) {
    && Places(order, |group|) && from < to <= |order|
    && var sel, first := Select(group, order[from..to]), group[order[from]];
       && Adjacent(sel) && (to - from > 1 ==> first.sectors < MAX_RUN && Length(sel) <= MAX_RUN)
       && (to < |order| && first.sectors < MAX_RUN ==> !Joins(first, group[order[to - 1]], group[order[to]], Length(sel)))
  }

  /** The order cut into such runs. */
  ghost predicate Cut(group: seq<Io>, order: seq<nat>, cuts: seq<nat>) {
    && |cuts| > 0 && cuts[0] == 0
    && forall n :: 0 <= n < |cuts| - 1 ==> LongestRun(group, order, cuts[n], cuts[n + 1])
  }

  ghost function CommandsOf(group: seq<Io>, order: seq<nat>, cuts: seq<nat>, n: nat): seq<Command>
    requires Cut(group, order, cuts) && n < |cuts|
  {
    if n == 0 then []
    else
      assert LongestRun(group, order, cuts[n - 1], cuts[n - 1 + 1]);
      CommandsOf(group, order, cuts, n - 1) + JointCommand(Select(group, order[cuts[n - 1]..cuts[n]]))
  }

  /** The commands are those of the runs, one after the other. */
  ghost predicate Issued(group: seq<Io>, order: seq<nat>, upTo: nat, issued: seq<Command>) {
    exists cuts ::
      Cut(group, order, cuts) && cuts[|cuts| - 1] == upTo && issued == CommandsOf(group, order, cuts, |cuts| - 1)
  }

  /** Reads that the cache can serve come first, then all others, disk by disk in one sweep each, in as few commands. */
  ghost predicate Elevated(group: seq<Io>, visited: seq<nat>, pages: Pages, heads: seq<nat>, issued: seq<Command>) {
    exists hits, swept ::
      && visited == hits + swept && HitsAre(pages, group, hits, |group|)
      && Sweeps(group, swept, heads) && BySlot(group, swept) && Issued(group, swept, |swept|, issued)
  }

  lemma ElevatedBy(group: seq<Io>, hits: seq<nat>, swept: seq<nat>, pages: Pages, heads: seq<nat>, issued: seq<Command>)
    requires HitsAre(pages, group, hits, |group|) && Sweeps(group, swept, heads) && BySlot(group, swept)
    requires Issued(group, swept, |swept|, issued)
    ensures Elevated(group, hits + swept, pages, heads, issued)
  {
    hide HitsAre, Sweeps, BySlot, Issued;
  }

  /** The order of a group: as submitted, or with the elevator and no conflict by sweeps. */
  ghost predicate Ordered(group: seq<Io>, elevator: bool, visited: seq<nat>, pages: Pages, heads: seq<nat>,
                          issued: seq<Command>)
  {
    if elevator && NoHazard(group) then Elevated(group, visited, pages, heads, issued) else visited == Counting(|group|)
  }

  lemma NoCommand()
    ensures EachCommand([]) == []
  {
  }

  lemma EachMore(sel: seq<Io>, io: Io)
    ensures EachCommand(sel + [io]) == EachCommand(sel) + OneCommand(io)
  {
    assert (sel + [io])[..|sel|] == sel;
  }

  lemma NoneIssued(group: seq<Io>, order: seq<nat>)
    ensures Issued(group, order, 0, [])
  {
    assert Cut(group, order, [0]) && CommandsOf(group, order, [0], 0) == [];
  }

  lemma {:induction false} CommandsOfMore(group: seq<Io>, order: seq<nat>, cuts: seq<nat>, n: nat, to: nat)
    requires Cut(group, order, cuts) && n < |cuts| && Cut(group, order, cuts + [to])
    ensures CommandsOf(group, order, cuts + [to], n) == CommandsOf(group, order, cuts, n)
  {
    hide LongestRun;
    if n > 0 {
      CommandsOfMore(group, order, cuts, n - 1, to);
    }
  }

  lemma IssuedMore(group: seq<Io>, order: seq<nat>, from: nat, to: nat, issued: seq<Command>)
    requires Issued(group, order, from, issued) && LongestRun(group, order, from, to)
    ensures Issued(group, order, to, issued + JointCommand(Select(group, order[from..to])))
  {
    hide LongestRun, JointCommand;
    var cuts :| Cut(group, order, cuts) && cuts[|cuts| - 1] == from && issued == CommandsOf(group, order, cuts, |cuts| - 1);
    var more := cuts + [to];
    assert forall n :: 0 <= n < |cuts| ==> more[n] == cuts[n];
    assert Cut(group, order, more);
    CommandsOfMore(group, order, cuts, |cuts| - 1, to);
  }

  lemma JointAlone(ios: seq<Io>, order: seq<nat>, position: nat)
    requires Places(order, |ios|) && position < |order|
    ensures JointCommand(Select(ios, order[position..position + 1])) == OneCommand(ios[order[position]])
  {
    var io := ios[order[position]];
    assert Select(ios, order[position..position + 1]) == [io];
    assert [io][..0] == [];
    EachMore([], io);
    assert [] + [io] == [io];
    if ValidIo(io) {
      LengthStep([io]);
    } else {
      assert !ValidIo([io][0]);
    }
  }

  ghost predicate AllAlike(group: seq<Io>, ios: seq<Io>) {
    |ios| == |group| && forall i :: 0 <= i < |group| ==> Alike(group[i], ios[i])
  }

  lemma DoneAllAlike(media: Media, group: seq<Io>, served: set<nat>, now: Media, ios: seq<Io>)
    requires AllInRange(media, group) && Done(media, group, served, now, ios)
    ensures AllAlike(group, ios)
  {
    hide Done;
    DoneShape(media, group, served, now, ios);
    forall i | 0 <= i < |group| ensures Alike(group[i], ios[i]) {
      DoneAlike(media, group, served, now, ios, i);
    }
  }

  lemma {:induction false} SameCommands(a: seq<Io>, b: seq<Io>)
    requires AllAlike(a, b)
    ensures Length(a) == Length(b) && EachCommand(a) == EachCommand(b) && (AllValid(a) <==> AllValid(b))
    decreases |a|
  {
    if a != [] {
      SameCommands(a[..|a| - 1], b[..|b| - 1]);
      assert Alike(a[|a| - 1], b[|b| - 1]);
      forall k | 0 <= k < |a| ensures ValidIo(a[k]) <==> ValidIo(b[k]) {
      }
    }
  }

  lemma SelectAlike(group: seq<Io>, ios: seq<Io>, places: seq<nat>)
    requires AllAlike(group, ios) && Places(places, |ios|)
    ensures AllAlike(Select(group, places), Select(ios, places))
  {
    var a, b := Select(group, places), Select(ios, places);
    forall k | 0 <= k < |a| ensures Alike(a[k], b[k]) {
      assert Alike(group[places[k]], ios[places[k]]);
    }
  }

  /** What is to be done for a run does not depend on what became of other requests. */
  lemma RunAlike(group: seq<Io>, ios: seq<Io>, order: seq<nat>, from: nat, to: nat)
    requires AllAlike(group, ios) && LongestRun(ios, order, from, to)
    ensures LongestRun(group, order, from, to)
    ensures JointCommand(Select(ios, order[from..to])) == JointCommand(Select(group, order[from..to]))
  {
    hide Adjacent, EachCommand, AllValid, Length;
    var a, b := Select(group, order[from..to]), Select(ios, order[from..to]);
    SelectAlike(group, ios, order[from..to]);
    SameCommands(a, b);
    AdjacentAlike(a, b);
    assert a[0] == group[order[from]] && b[0] == ios[order[from]] && Alike(a[0], b[0]);
    assert Alike(group[order[to - 1]], ios[order[to - 1]]);
  }

  lemma RunIssued(media: Media, group: seq<Io>, served: set<nat>, now: Media, ios: seq<Io>, order: seq<nat>, from: nat, to: nat,
                  issued: seq<Command>)
    requires AllInRange(media, group) && Done(media, group, served, now, ios)
    requires Issued(group, order, from, issued) && LongestRun(ios, order, from, to)
    ensures Issued(group, order, to, issued + JointCommand(Select(ios, order[from..to])))
  {
    hide Done, LongestRun, Issued, JointCommand, AllAlike, Select;
    DoneAllAlike(media, group, served, now, ios);
    RunAlike(group, ios, order, from, to);
    IssuedMore(group, order, from, to, issued);
  }

  lemma AdjacentAlike(a: seq<Io>, b: seq<Io>)
    requires AllAlike(a, b) && Adjacent(b)
    ensures Adjacent(a)
  {
    forall k | 0 <= k < |a| ensures a[k].disk == a[0].disk && a[k].write == a[0].write {
      assert Alike(a[k], b[k]) && Alike(a[0], b[0]);
    }
    forall k | 0 <= k < |a| - 1 ensures Next(a, k) {
      assert Alike(a[k], b[k]) && Alike(a[k + 1], b[k + 1]);
      assert Next(b, k);
    }
  }

  // --------------------------------------------------------- what is cached

  /** Every sector of the request is in a cached page. */
  ghost predicate AllHeld(pages: Pages, io: Io) {
    forall i :: 0 <= i < io.sectors ==> SectorHeld(pages, io, i)
  }

  ghost predicate SectorHeld(pages: Pages, io: Io, i: nat) {
    !NotCached(pages, io.disk, (io.lba + i) / MAX_RUN)
  }

  /** The same pages, whenever they were used. */
  ghost predicate SameHeld(before: Pages, after: Pages) {
    && Shaped(before) == Shaped(after)
    && (Shaped(before) ==>
          forall s, w :: 0 <= s < SETS && 0 <= w < WAYS ==> after[s][w] == before[s][w].(stamp := after[s][w].stamp))
  }

  lemma SameHeldSelf(pages: Pages)
    ensures SameHeld(pages, pages)
  {
  }

  lemma SameHeldTouched(before: Pages, pages: Pages, s: nat, w: nat, stamp: nat)
    requires SameHeld(before, pages) && Shaped(pages) && s < SETS && w < WAYS
    ensures SameHeld(before, Put(pages, s, w, pages[s][w].(stamp := stamp)))
  {
  }

  lemma SameHeldOn(before: Pages, middle: Pages, after: Pages)
    requires SameHeld(before, middle) && SameHeld(middle, after)
    ensures SameHeld(before, after)
  {
  }

  /** The same request, whatever became of it. */
  ghost predicate Alike(a: Io, b: Io) {
    b == a.(data := b.data, ok := b.ok) && |b.data| == |a.data|
  }

  /** A read that the cache can serve. */
  ghost predicate Hit(pages: Pages, io: Io) {
    ValidIo(io) && !io.write && AllHeld(pages, io)
  }

  /** Of the first requests exactly those are served from the cache, in turn. */
  ghost predicate HitsAre(pages: Pages, group: seq<Io>, hits: seq<nat>, n: nat) {
    && n <= |group| && (forall k: nat :: k < n ==> (k in hits <==> Hit(pages, group[k])))
    && (forall j, k :: 0 <= j < k < |hits| ==> hits[j] < hits[k] < n)
    && (forall j :: 0 <= j < |hits| ==> hits[j] < n)
  }

  lemma HitAlike(before: Pages, now: Pages, a: Io, b: Io)
    requires SameHeld(before, now) && Alike(a, b)
    ensures Hit(before, a) <==> Hit(now, b)
  {
    hide SameHeld, NotCached;
    forall i: nat ensures SectorHeld(before, a, i) <==> SectorHeld(now, b, i) {
      HeldAlike(before, now, a.disk, (a.lba + i) / MAX_RUN);
    }
  }

  lemma HitsNext(pages: Pages, group: seq<Io>, hits: seq<nat>, n: nat, hit: bool)
    requires HitsAre(pages, group, hits, n) && n < |group| && (hit <==> Hit(pages, group[n]))
    ensures HitsAre(pages, group, if hit then hits + [n] else hits, n + 1)
  {
    hide Hit;
    var more := if hit then hits + [n] else hits;
    forall k: nat | k <= n ensures k in more <==> Hit(pages, group[k]) {
      assert n !in hits;
    }
  }

  lemma NoHits(pages: Pages, group: seq<Io>)
    ensures HitsAre(pages, group, [], 0)
  {
  }

  lemma DoneAlike(media: Media, group: seq<Io>, served: set<nat>, now: Media, ios: seq<Io>, i: nat)
    requires AllInRange(media, group) && Done(media, group, served, now, ios) && i < |group|
    ensures |ios| == |group| && Alike(group[i], ios[i])
  {
    hide Run, Reflects;
  }

  lemma HeldAlike(before: Pages, after: Pages, disk: Disk, number: nat)
    requires SameHeld(before, after)
    ensures NotCached(before, disk, number) <==> NotCached(after, disk, number)
  {
    if Shaped(before) {
      forall s, w | 0 <= s < SETS && 0 <= w < WAYS
        ensures Holds(before[s][w], disk, number) <==> Holds(after[s][w], disk, number)
      {
        assert after[s][w] == before[s][w].(stamp := after[s][w].stamp);
      }
    }
  }

  class Scheduler {
    const cache: Cache
    /** The places in the batch of the requests served so far, in the order they were served. */
    ghost var log: seq<nat>

    constructor (c: Cache)
      ensures cache == c && log == []
    {
      cache := c;
      log := [];
    }

    /** Keeps a freshly read run as a page when it is exactly one, there is memory and it is not here yet. */
    method CacheFill(disk: Disk, lba: nat, count: nat, data: seq<Sector>)
      requires cache.Coherent() && lba + count <= SizeOf(cache.media, disk)
      requires data == Run(cache.media, disk, lba, count)
      modifies cache`pages, cache`clock, cache`resident
      ensures cache.Coherent()
      ensures if count == MAX_RUN && lba % MAX_RUN == 0 && cache.calm && NotCached(old(cache.pages), disk, lba / MAX_RUN)
              then Admitted(old(cache.pages), old(cache.resident) < cache.limit, cache.pages,
                            Page(disk, lba / MAX_RUN, Some(data), cache.clock))
              else cache.pages == old(cache.pages)
    {
      hide CacheOk, SetOf, Run, CameIn, Holds, Admitted, NotCached, HeadsAfter;
      var number := lba / MAX_RUN;
      if count != MAX_RUN || lba % MAX_RUN != 0 || !cache.calm || cache.PageSectors(disk, number) != MAX_RUN {
        return;
      }
      CacheShape(cache.media, cache.pages, cache.resident);
      var found := cache.FindPage(disk, number);
      if found.None? {
        NotFound(cache.media, cache.pages, cache.resident, disk, number);
        cache.Insert(disk, number, data);
      } else {
        NotFree(cache.pages, found.value.0, found.value.1, disk, number);
      }
    }

    /** Serves a read from cached pages, if all of them are there. */
    method ServeCached(io: Io, ghost at: nat) returns (served: bool, io': Io)
      requires cache.Coherent() && InRange(cache.media, io) && !io.write
      modifies cache`pages, cache`clock, `log
      ensures cache.Coherent()
      ensures log == if served then old(log) + [at] else old(log)
      ensures served ==> io' == IoAfter(cache.media, io)
      ensures !served ==> Untouched(io, io')
      ensures (served <==> ValidIo(io) && AllHeld(old(cache.pages), io)) && SameHeld(old(cache.pages), cache.pages)
    {
      hide CacheOk, SetOf, Run, NotCached, SameHeld, HeadsAfter;
      SameHeldSelf(cache.pages);
      io' := io;
      if !ValidIo(io) {
        return false, io';
      }
      var got: seq<Sector> := [];
      EmptyRun(cache.media, io.disk, io.lba);
      for index := 0 to io.sectors
        invariant cache.Coherent() && log == old(log) && SameHeld(old(cache.pages), cache.pages)
        invariant forall i :: 0 <= i < index ==> SectorHeld(old(cache.pages), io, i)
        invariant got == Run(cache.media, io.disk, io.lba, index)
        invariant |got| == index
      {
        CacheShape(cache.media, cache.pages, cache.resident);
        var sector := io.lba + index;
        var found := cache.FindPage(io.disk, sector / MAX_RUN);
        HeldAlike(old(cache.pages), cache.pages, io.disk, sector / MAX_RUN);
        if found.None? {
          NotFound(cache.media, cache.pages, cache.resident, io.disk, sector / MAX_RUN);
          assert !SectorHeld(old(cache.pages), io, index);
          return false, io.(data := got + io.data[index..]);
        }
        var (s, w) := found.value;
        CachePage(cache.media, cache.pages, cache.resident, s, w);
        var copy := cache.pages[s][w].data.value[sector % MAX_RUN];
        RunSector(cache.media, io.disk, io.lba, index);
        PageSector(cache.media, s, cache.pages[s][w], sector);
        NotFree(cache.pages, s, w, io.disk, sector / MAX_RUN);
        SameHeldTouched(old(cache.pages), cache.pages, s, w, cache.clock + 1);
        cache.Touch(s, w);
        got := got + [copy];
      }
      io' := io.(data := got + io.data[io.sectors..], ok := true);
      log := log + [at];
      return true, io';
    }

    /** Serves one request. */
    method RunSingle(io: Io, throughCache: bool, ghost at: nat) returns (io': Io)
      requires cache.Coherent() && cache.reliable && InRange(cache.media, io)
      modifies cache, `log
      ensures cache.Coherent() && cache.media == MediaAfter(old(cache.media), io) && io' == IoAfter(old(cache.media), io)
      ensures log == old(log) + [at] && old(cache.commands) <= cache.commands
      ensures !throughCache ==> cache.commands == old(cache.commands) + OneCommand(io)
    {
      hide CacheOk, HeadsAfter;
      log := log + [at];
      if !ValidIo(io) {
        return io.(ok := false);
      }
      var ok, data := true, io.data;
      if io.write {
        ok := cache.WriteRun(io.disk, io.lba, io.data[..io.sectors]);
      } else if throughCache {
        ok, data := cache.Read(io.disk, io.lba, io.sectors);
        data := data + io.data[io.sectors..];
      } else {
        ok, data := cache.ReadRun(io.disk, io.lba, io.sectors);
        CacheFill(io.disk, io.lba, io.sectors, data);
        data := data + io.data[io.sectors..];
      }
      return io.(data := data, ok := ok);
    }

    /** Serves neighbouring requests of one kind with a single command. */
    method RunMerged(ios: seq<Io>, places: seq<nat>, length: nat, ghost base: nat) returns (ios': seq<Io>)
      requires cache.Coherent() && cache.reliable && places != [] && Places(places, |ios|)
      requires AllInRange(cache.media, Select(ios, places)) && Adjacent(Select(ios, places))
      requires length == Length(Select(ios, places))
      modifies cache, `log
      ensures cache.Coherent() && cache.media == RunMedia(old(cache.media), Select(ios, places))
      ensures ios' == Replace(ios, places, RunIos(old(cache.media), Select(ios, places)))
      ensures log == old(log) + Shift(base, places)
      ensures cache.commands == old(cache.commands) + JointCommand(Select(ios, places))
    {
      hide CacheOk, MediaAfter, IoAfter, RunMedia, RunIos, Replace, HeadsAfter;
      ghost var sel := Select(ios, places);
      var allValid := true;
      for k := 0 to |places|
        invariant allValid <==> forall j :: 0 <= j < k ==> ValidIo(sel[j])
      {
        assert sel[k] == ios[places[k]];
        allValid := allValid && ValidIo(ios[places[k]]);
      }
      var results: seq<Io>;
      if !allValid {
        results := OneByOne(ios, places, base);
      } else if ios[places[0]].write {
        results := MergeWrite(ios, places, base);
      } else {
        results := MergeRead(ios, places, length, base);
      }
      ios' := Replace(ios, places, results);
    }

    method OneByOne(ios: seq<Io>, places: seq<nat>, ghost base: nat) returns (results: seq<Io>)
      requires cache.Coherent() && cache.reliable && Places(places, |ios|)
      requires AllInRange(cache.media, Select(ios, places))
      modifies cache, `log
      ensures cache.Coherent() && cache.media == RunMedia(old(cache.media), Select(ios, places))
      ensures results == RunIos(old(cache.media), Select(ios, places))
      ensures log == old(log) + Shift(base, places)
      ensures cache.commands == old(cache.commands) + EachCommand(Select(ios, places))
    {
      hide CacheOk, MediaAfter, IoAfter, RunMedia, RunIos, EachCommand, OneCommand, HeadsAfter;
      ghost var sel, before := Select(ios, places), cache.media;
      assert EachCommand([]) == [] by { NoCommand(); }
      results := [];
      RunNone(before);
      assert sel[..0] == [] && places[..0] == [];
      for k := 0 to |places|
        invariant cache.Coherent() && AllInRange(before, sel[..k])
        invariant cache.media == RunMedia(before, sel[..k]) && results == RunIos(before, sel[..k])
        invariant log == old(log) + Shift(base, places[..k])
        invariant cache.commands == old(cache.commands) + EachCommand(sel[..k])
      {
        assert sel[..k + 1] == sel[..k] + [sel[k]];
        EachMore(sel[..k], sel[k]);
        assert forall j :: 0 <= j <= k ==> InRange(before, sel[j]);
        RunJoinBatches(before, sel[..k], [sel[k]]);
        RunOne(cache.media, sel[k]);
        ShiftNext(base, places, k);
        var io' := RunSingle(ios[places[k]], false, base + places[k]);
        results := results + [io'];
      }
      assert sel[..|places|] == sel;
    }

    method MergeWrite(ios: seq<Io>, places: seq<nat>, ghost base: nat) returns (results: seq<Io>)
      requires cache.Coherent() && cache.reliable && places != [] && Places(places, |ios|)
      requires AllInRange(cache.media, Select(ios, places)) && Adjacent(Select(ios, places))
      requires AllValid(Select(ios, places)) && ios[places[0]].write
      modifies cache, `log
      ensures cache.Coherent() && cache.media == RunMedia(old(cache.media), Select(ios, places))
      ensures results == RunIos(old(cache.media), Select(ios, places))
      ensures log == old(log) + Shift(base, places)
      ensures var first := ios[places[0]];
              cache.commands == old(cache.commands) + [Command(first.disk, first.lba, Length(Select(ios, places)), true)]
    {
      hide CacheOk, MediaAfter, IoAfter, RunMedia, RunIos, SetRun, SameElsewhere, Staged, Length, HeadsAfter;
      ghost var sel, before := Select(ios, places), cache.media;
      assert sel[0] == ios[places[0]];
      MergedWrite(before, sel);
      var staging: seq<Sector> := [];
      assert sel[..0] == [];
      assert Staged([]) == [] by { StagedStep(sel); }
      for k := 0 to |places|
        invariant cache.Coherent() && cache.media == before && log == old(log) && cache.commands == old(cache.commands)
        invariant AllValid(sel[..k]) && staging == Staged(sel[..k])
      {
        assert sel[..k + 1][..k] == sel[..k];
        assert ValidIo(sel[k]);
        StagedStep(sel[..k + 1]);
        var io := ios[places[k]];
        staging := staging + io.data[..io.sectors];
      }
      assert sel[..|places|] == sel;
      assert |staging| == Length(sel);
      var first := ios[places[0]];
      log := log + Shift(base, places);
      var ok := cache.WriteRun(first.disk, first.lba, staging);
      results := seq(|places|, k requires 0 <= k < |places| => ios[places[k]].(ok := ok));
    }

    method MergeRead(ios: seq<Io>, places: seq<nat>, length: nat, ghost base: nat) returns (results: seq<Io>)
      requires cache.Coherent() && cache.reliable && places != [] && Places(places, |ios|)
      requires AllInRange(cache.media, Select(ios, places)) && Adjacent(Select(ios, places))
      requires AllValid(Select(ios, places)) && !ios[places[0]].write && length == Length(Select(ios, places))
      modifies cache, `log
      ensures cache.Coherent() && cache.media == RunMedia(old(cache.media), Select(ios, places))
      ensures results == RunIos(old(cache.media), Select(ios, places))
      ensures log == old(log) + Shift(base, places)
      ensures var first := ios[places[0]];
              cache.commands == old(cache.commands) + [Command(first.disk, first.lba, Length(Select(ios, places)), false)]
    {
      hide CacheOk, MediaAfter, IoAfter, RunMedia, RunIos, Length, Staged, Run, CameIn, Shift, AllInRange, AllValid,
        Adjacent, HeadsAfter;
      ghost var sel := Select(ios, places);
      MergedRead(cache.media, sel, 0);
      var first := ios[places[0]];
      assert sel[0] == first;
      log := log + Shift(base, places);
      var ok, staging := cache.ReadRun(first.disk, first.lba, length);
      CacheFill(first.disk, first.lba, length, staging);
      results := HandOut(ios, places, staging, cache.media);
    }

    /** Gives each request its part of the sectors read. */
    method HandOut(ios: seq<Io>, places: seq<nat>, staging: seq<Sector>, ghost media: Media) returns (results: seq<Io>)
      requires places != [] && Places(places, |ios|)
      requires AllInRange(media, Select(ios, places)) && Adjacent(Select(ios, places))
      requires AllValid(Select(ios, places)) && !ios[places[0]].write
      requires var sel := Select(ios, places);
               && sel[0].lba + Length(sel) <= SizeOf(media, sel[0].disk)
               && staging == Run(media, sel[0].disk, sel[0].lba, Length(sel))
      ensures results == RunIos(media, Select(ios, places))
    {
      hide RunIos, Length, Run, AllInRange, AllValid, Adjacent, Select, Handed;
      ghost var sel := Select(ios, places);
      ghost var done := RunIos(media, sel);
      results := [];
      var offset := 0;
      SelectAt(ios, places, 0);
      for k := 0 to |places|
        invariant results == done[..k]
        invariant k < |places| ==> offset == sel[k].lba - sel[0].lba
      {
        var io := ios[places[k]];
        SelectAt(ios, places, k);
        HandedPart(media, sel, k, staging);
        OneMoreDone(done, k);
        results := results + [Handed(staging, offset, io)];
        offset := offset + io.sectors;
        if k + 1 < |places| {
          AdjacentNext(sel, k);
        }
      }
      assert done[..|places|] == done;
    }

    /** Serves the requests at the places listed, merging neighbours. */
    method Dispatch(ios0: seq<Io>, order: seq<nat>, ghost media: Media, ghost group: seq<Io>, ghost served: set<nat>,
                    ghost base: nat)
      returns (ios: seq<Io>)
      requires cache.Coherent() && cache.reliable
      requires AllInRange(media, group) && NoHazard(group) && Done(media, group, served, cache.media, ios0)
      requires Distinct(order) && forall k :: 0 <= k < |order| ==> order[k] < |group| && order[k] !in served
      modifies cache, `log
      ensures cache.Coherent() && Done(media, group, served + Members(order), cache.media, ios)
      ensures log == old(log) + Shift(base, order)
      ensures old(cache.commands) <= cache.commands
      ensures Issued(group, order, |order|, cache.commands[|old(cache.commands)|..])
    {
      hide CacheOk, NoHazard, Done, MediaAfter, IoAfter, RunMedia, RunIos, Replace, Adjacent, Length, Select, Shift,
        Issued, LongestRun, JointCommand, AllAlike, OneCommand, HeadsAfter;
      ghost var issued: seq<Command> := [];
      NoneIssued(group, order);
      ios := ios0;
      var position := 0;
      PartedNone(base);
      assert order[..0] == [] && served + Members([]) == served;
      while position < |order|
        invariant position <= |order| && cache.Coherent()
        invariant Done(media, group, served + Members(order[..position]), cache.media, ios)
        invariant log == old(log) + Shift(base, order[..position])
        invariant cache.commands == old(cache.commands) + issued && Issued(group, order, position, issued)
      {
        ghost var soFar := served + Members(order[..position]);
        DoneShape(media, group, soFar, cache.media, ios);
        var last, length := Gather(ios, order, position);
        var places := order[position..last + 1];
        PlacesLeft(order, position, last + 1, served);
        ShiftMore(base, order, position, last + 1);
        RunIssued(media, group, soFar, cache.media, ios, order, position, last + 1, issued);
        ghost var joint := JointCommand(Select(ios, places));
        if last == position {
          DoneOne(media, group, soFar, cache.media, ios, order[position]);
          JointAlone(ios, order, position);
          var io' := RunSingle(ios[order[position]], false, base + order[position]);
          ios := ios[order[position] := io'];
        } else {
          DoneMany(media, group, soFar, cache.media, ios, places);
          ios := RunMerged(ios, places, length, base);
        }
        issued := issued + joint;
        position := last + 1;
      }
      assert order[..position] == order;
      assert cache.commands[|old(cache.commands)|..] == issued;
    }

    /** How far the requests from `position` on can be merged into one command. */
    method Gather(ios: seq<Io>, order: seq<nat>, position: nat) returns (last: nat, length: nat)
      requires position < |order| && Places(order, |ios|)
      ensures position <= last < |order| && Places(order[position..last + 1], |ios|)
      ensures Adjacent(Select(ios, order[position..last + 1]))
      ensures length == Length(Select(ios, order[position..last + 1]))
      ensures last > position ==> length <= MAX_RUN
      ensures LongestRun(ios, order, position, last + 1)
    {
      hide Length, Adjacent;
      var first := ios[order[position]];
      length, last := first.sectors, position;
      GatherFirst(ios, order, position);
      if length < MAX_RUN {
        while last + 1 < |order|
          invariant position <= last < |order|
          invariant Adjacent(Select(ios, order[position..last + 1]))
          invariant length == Length(Select(ios, order[position..last + 1]))
          invariant last > position ==> length <= MAX_RUN && first.sectors < MAX_RUN
        {
          var next, current := ios[order[last + 1]], ios[order[last]];
          if Joins(first, current, next, length) {
            GatherNext(ios, order, position, last);
            length := length + next.sectors;
            last := last + 1;
          } else {
            break;
          }
        }
      }
    }

    /**
     Runs the requests between two barriers, the first of them at `base` in the
     batch: as if in order, whatever the order `visited`, and each exactly once.
     */
    method RunGroup(group: seq<Io>, elevator: bool, ghost base: nat) returns (ios: seq<Io>, ghost visited: seq<nat>)
      requires cache.Coherent() && cache.reliable && AllInRange(cache.media, group)
      modifies cache, `log
      ensures cache.Coherent() && cache.media == RunMedia(old(cache.media), group)
      ensures ios == RunIos(old(cache.media), group)
      ensures log == old(log) + Shift(base, visited) && EachOnce(visited, |group|)
      ensures old(cache.commands) <= cache.commands
      ensures Ordered(group, elevator, visited, old(cache.pages), HeadsAfter(old(cache.commands)),
                      cache.commands[|old(cache.commands)|..])
    {
      hide CacheOk, RunMedia, RunIos, NoHazard, EachOnce, Shift, Counting, Elevated, AllInRange, HeadsAfter;
      var hazard := HasHazard(group);
      if !elevator || hazard {
        CountingOnce(|group|);
        visited := Counting(|group|);
        ios := InSequence(group, base);
      } else {
        ios, visited := RunSwept(group, base);
      }
    }

    /** Runs requests without a conflict: from the cache what it has, then the rest in sweeps. */
    method RunSwept(group: seq<Io>, ghost base: nat) returns (ios: seq<Io>, ghost visited: seq<nat>)
      requires cache.Coherent() && cache.reliable && AllInRange(cache.media, group) && NoHazard(group)
      modifies cache, `log
      ensures cache.Coherent() && cache.media == RunMedia(old(cache.media), group)
      ensures ios == RunIos(old(cache.media), group)
      ensures log == old(log) + Shift(base, visited) && EachOnce(visited, |group|)
      ensures old(cache.commands) <= cache.commands
      ensures Elevated(group, visited, old(cache.pages), HeadsAfter(old(cache.commands)),
                       cache.commands[|old(cache.commands)|..])
    {
      hide CacheOk, MediaAfter, IoAfter, RunMedia, RunIos, NoHazard, Done, SortedBy, EachOnce, Shift, Sweeps, BySlot,
        HitsAre, Issued, AllInRange, Elevated, HeadsAfter;
      ghost var media := cache.media;
      var order;
      ghost var hits;
      ios, order, hits := Prepare(group, base);
      var sorted := Sort(group, order);
      var swept := Arrange(group, sorted, cache.heads);
      SameMembers(order, swept);
      visited := hits + swept;
      HitsAndRest(hits, swept, order, |group|);
      ShiftJoin(base, hits, swept);
      ios := Dispatch(ios, swept, media, group, Members(hits), base);
      AnyOrder(media, group, Members(hits) + Members(swept), cache.media, ios);
      ElevatedBy(group, hits, swept, old(cache.pages), old(cache.heads), cache.commands[|old(cache.commands)|..]);
    }

    /** Runs the requests one by one, through the cache. */
    method InSequence(group: seq<Io>, ghost base: nat) returns (ios: seq<Io>)
      requires cache.Coherent() && cache.reliable && AllInRange(cache.media, group)
      modifies cache, `log
      ensures cache.Coherent() && cache.media == RunMedia(old(cache.media), group)
      ensures ios == RunIos(old(cache.media), group)
      ensures log == old(log) + Shift(base, Counting(|group|)) && old(cache.commands) <= cache.commands
    {
      hide CacheOk, MediaAfter, IoAfter, RunMedia, RunIos, HeadsAfter;
      ghost var before := cache.media;
      ios := [];
      RunNone(before);
      assert group[..0] == [];
      for k := 0 to |group|
        invariant cache.Coherent() && AllInRange(before, group[..k])
        invariant cache.media == RunMedia(before, group[..k]) && ios == RunIos(before, group[..k])
        invariant log == old(log) + Shift(base, Counting(k)) && old(cache.commands) <= cache.commands
      {
        assert group[..k + 1] == group[..k] + [group[k]];
        assert forall j :: 0 <= j <= k ==> InRange(before, group[j]);
        RunJoinBatches(before, group[..k], [group[k]]);
        RunOne(cache.media, group[k]);
        CountingNext(base, k);
        var io' := RunSingle(group[k], true, base + k);
        ios := ios + [io'];
      }
      assert group[..|group|] == group;
    }

    /** Serves what it can from the cache and lists the rest. */
    method Prepare(group: seq<Io>, ghost base: nat) returns (ios: seq<Io>, order: seq<nat>, ghost hits: seq<nat>)
      requires cache.Coherent() && AllInRange(cache.media, group) && NoHazard(group)
      modifies cache`pages, cache`clock, `log
      ensures cache.Coherent()
      ensures Done(cache.media, group, Members(hits), cache.media, ios)
      ensures log == old(log) + Shift(base, hits)
      ensures Parted(hits, order, |group|) && HitsAre(old(cache.pages), group, hits, |group|)
    {
      hide CacheOk, IoAfter, MediaAfter, NoHazard, Done, Parted, Shift, SameHeld, Hit, HitsAre, AllInRange, AllHeld,
        Untouched, HeadsAfter;
      ghost var media := cache.media;
      ios, order, hits := group, [], [];
      DoneNone(media, group);
      PartedNone(base);
      SameHeldSelf(cache.pages);
      assert HitsAre(cache.pages, group, [], 0) by { NoHits(cache.pages, group); }
      for index := 0 to |group|
        invariant cache.Coherent() && Done(media, group, Members(hits), media, ios)
        invariant log == old(log) + Shift(base, hits) && Parted(hits, order, index)
        invariant SameHeld(old(cache.pages), cache.pages) && HitsAre(old(cache.pages), group, hits, index)
      {
        DoneShape(media, group, Members(hits), media, ios);
        PartedNext(hits, order, index, base);
        DoneOne(media, group, Members(hits), media, ios, index);
        DoneAlike(media, group, Members(hits), media, ios, index);
        HitAlike(old(cache.pages), cache.pages, group[index], ios[index]);
        ghost var before := cache.pages;
        var done, io' := ServeRead(ios[index], base + index);
        SameHeldOn(old(cache.pages), before, cache.pages);
        HitsNext(old(cache.pages), group, hits, index, done);
        if done {
          ReadKeeps(media, ios[index]);
          hits := hits + [index];
        } else {
          DoneTouch(media, group, Members(hits), media, ios, index, io');
          order := order + [index];
        }
        ios := ios[index := io'];
      }
    }

    /** Serves a request from the cache, if it is a read that can be. */
    method ServeRead(io: Io, ghost at: nat) returns (served: bool, io': Io)
      requires cache.Coherent() && InRange(cache.media, io)
      modifies cache`pages, cache`clock, `log
      ensures cache.Coherent() && (served <==> Hit(old(cache.pages), io)) && SameHeld(old(cache.pages), cache.pages)
      ensures log == if served then old(log) + [at] else old(log)
      ensures served ==> io' == IoAfter(cache.media, io) && !io.write
      ensures !served ==> Untouched(io, io')
    {
      hide CacheOk, SameHeld, AllHeld, IoAfter, HeadsAfter;
      SameHeldSelf(cache.pages);
      if io.write {
        return false, io;
      }
      served, io' := ServeCached(io, at);
    }

    /**
     Runs a batch. Both schedules leave the media, the buffers and the flags
     exactly as if the first requests had been served in the order submitted.
     Each of these is served exactly once, and none submitted before a barrier
     is served after one that is behind it. The groups between barriers come in
     turn, each in its order and with the commands of that order.
     */
    method Submit(batch: array<Io>, elevator: bool) returns (succeeded: nat, ghost parts: seq<Part>)
      requires cache.Coherent() && cache.reliable && AllInRange(cache.media, batch[..])
      modifies cache, batch, `log
      ensures var total := if batch.Length <= BATCH_MAX then batch.Length else BATCH_MAX;
              && cache.Coherent() && AllInRange(old(cache.media), old(batch[..])[..total])
              && cache.media == RunMedia(old(cache.media), old(batch[..])[..total])
              && batch[..] == RunIos(old(cache.media), old(batch[..])[..total]) + old(batch[..])[total..]
              && succeeded == |Successes(batch[..total])|
              && old(log) <= log && EachOnce(log[|old(log)|..], total)
              && BarriersKept(old(batch[..]), log[|old(log)|..])
              && Parts(old(batch[..]), total, total, elevator, log[|old(log)|..], cache.commands, |old(cache.commands)|,
                       parts)
      ensures parts != [] ==> parts[0].pages == old(cache.pages)
    {
      hide CacheOk, RunMedia, RunIos, AllInRange, Progress, EachOnce, BarriersKept, Shift, Parts, Recorded, Ordered,
        HeadsAfter;
      ghost var media, ios := cache.media, batch[..];
      var total := if batch.Length <= BATCH_MAX then batch.Length else BATCH_MAX;
      var start := 0;
      ProgressNone(media, ios);
      ghost var added: seq<nat> := [];
      parts := [];
      NoneRecorded(ios, total, elevator, cache.commands);
      while start < total
        invariant start <= total && cache.Coherent() && Progress(media, ios, start, cache.media, batch[..])
        invariant log == old(log) + added
        invariant Recorded(ios, total, start, elevator, added, cache.commands, |old(cache.commands)|, parts)
        invariant parts == [] ==> start == 0 && cache.pages == old(cache.pages)
        invariant parts != [] ==> parts[0].pages == old(cache.pages)
      {
        start, added, parts := RunNext(batch, start, total, elevator, media, ios, added, |old(cache.commands)|, parts);
      }
      ProgressIs(media, ios, total, cache.media, batch[..]);
      RecordedIs(ios, total, total, elevator, added, cache.commands, |old(cache.commands)|, parts);
      assert log[|old(log)|..] == added;
      succeeded := CountOk(batch, total);
    }

    /** Runs the next group. */
    method RunNext(batch: array<Io>, start: nat, total: nat, elevator: bool, ghost media: Media, ghost ios: seq<Io>,
                   ghost added: seq<nat>, ghost first: nat, ghost parts: seq<Part>)
      returns (end: nat, ghost added': seq<nat>, ghost parts': seq<Part>)
      requires cache.Coherent() && cache.reliable && start < total <= batch.Length == |ios|
      requires AllInRange(media, ios) && Progress(media, ios, start, cache.media, batch[..])
      requires Recorded(ios, total, start, elevator, added, cache.commands, first, parts)
      modifies cache, batch, `log
      ensures cache.Coherent() && start < end <= total && Progress(media, ios, end, cache.media, batch[..])
      ensures Recorded(ios, total, end, elevator, added', cache.commands, first, parts')
      ensures added <= added' && log == old(log) + added'[|added|..]
      ensures parts < parts' && |parts'| == |parts| + 1 && parts'[|parts|].pages == old(cache.pages)
    {
      hide CacheOk, RunMedia, RunIos, AllInRange, Progress, EachOnce, BarriersKept, Shift, Parts, Recorded, Ordered,
        HeadsAfter;
      end := GroupEnd(batch, start, total, media, ios);
      ghost var visited := RunPart(batch, start, end, elevator, media, ios);
      ghost var part := Part(start, end, visited, old(cache.pages), |old(cache.commands)|, |cache.commands|);
      RecordedMore(ios, total, elevator, added, old(cache.commands), cache.commands, first, parts, part);
      added', parts' := added + Shift(start, visited), parts + [part];
    }

    /** Where the group that starts at `start` ends: at a barrier, or at the end. */
    method GroupEnd(batch: array<Io>, start: nat, total: nat, ghost media: Media, ghost ios: seq<Io>) returns (end: nat)
      requires start < total <= batch.Length == |ios|
      requires AllInRange(media, ios) && Progress(media, ios, start, cache.media, batch[..])
      ensures start < end <= total && (forall b :: start < b < end ==> !ios[b].barrier)
      ensures end < total ==> ios[end].barrier
    {
      hide AllInRange, Progress;
      end := start + 1;
      ProgressRest(media, ios, start, cache.media, batch[..]);
      while end < total && !batch[end].barrier
        invariant start < end <= total
        invariant forall b :: start < b < end ==> !ios[b].barrier
      {
        end := end + 1;
      }
    }

    /** Runs the group of requests from `start` to `end`. */
    method RunPart(batch: array<Io>, start: nat, end: nat, elevator: bool, ghost media: Media, ghost ios: seq<Io>)
      returns (ghost visited: seq<nat>)
      requires cache.Coherent() && cache.reliable && start <= end <= batch.Length == |ios|
      requires AllInRange(media, ios) && Progress(media, ios, start, cache.media, batch[..])
      modifies cache, batch, `log
      ensures cache.Coherent() && Progress(media, ios, end, cache.media, batch[..])
      ensures log == old(log) + Shift(start, visited) && EachOnce(visited, end - start)
      ensures old(cache.commands) <= cache.commands
      ensures Ordered(ios[start..end], elevator, visited, old(cache.pages), HeadsAfter(old(cache.commands)),
                      cache.commands[|old(cache.commands)|..])
    {
      hide CacheOk, RunMedia, RunIos, AllInRange, EachOnce, Shift, Progress, Ordered, HeadsAfter;
      ghost var now, was := cache.media, batch[..];
      ProgressGroup(media, ios, start, end, now, was);
      ProgressRest(media, ios, start, now, was);
      assert batch[start..end] == was[start..end] == ios[start..end];
      var served;
      served, visited := RunGroup(batch[start..end], elevator, start);
      StoreBack(batch, start, served);
      ProgressStep(media, ios, start, end, now, was, served, batch[..]);
    }
  }

  // ------------------------------------------------------------- the groups

  /** A group of a batch, the order of its requests, the pages when its turn came, and where its commands are. */
  datatype Part = Part(from: nat, to: nat, visited: seq<nat>, pages: Pages, first: nat, past: nat)

  /** What lies between two barriers has been served in its order, starting from where the heads were. */
  ghost predicate PartOf(batch: seq<Io>, total: nat, elevator: bool, log: seq<nat>, commands: seq<Command>, p: Part) {
    && p.from < p.to <= total <= |batch|
    && (p.from > 0 ==> batch[p.from].barrier) && (p.to < total ==> batch[p.to].barrier)
    && (forall b :: p.from < b < p.to ==> !batch[b].barrier)
    && p.to <= |log| && log[p.from..p.to] == Shift(p.from, p.visited)
    && p.first <= p.past <= |commands|
    && Ordered(batch[p.from..p.to], elevator, p.visited, p.pages, HeadsAfter(commands[..p.first]),
               commands[p.first..p.past])
  }

  /** The groups up to a place, one after the other, and so their commands. */
  ghost predicate Parts(batch: seq<Io>, total: nat, upTo: nat, elevator: bool, log: seq<nat>, commands: seq<Command>,
                        first: nat, parts: seq<Part>)
  {
    && |log| == upTo
    && (parts == [] ==> upTo == 0 && |commands| == first)
    && (parts != [] ==> parts[0].from == 0 && parts[0].first == first
                        && parts[|parts| - 1].to == upTo && parts[|parts| - 1].past == |commands|)
    && (forall n :: 0 <= n < |parts| ==> PartOf(batch, total, elevator, log, commands, parts[n]))
    && (forall m, n :: 0 <= m < n < |parts| && n == m + 1 ==>
          parts[m].to == parts[n].from && parts[m].past == parts[n].first)
  }

  lemma NoParts(batch: seq<Io>, total: nat, elevator: bool, commands: seq<Command>)
    ensures Parts(batch, total, 0, elevator, [], commands, |commands|, [])
  {
  }

  lemma PartStays(batch: seq<Io>, total: nat, elevator: bool, log: seq<nat>, log': seq<nat>, commands: seq<Command>,
                  commands': seq<Command>, p: Part)
    requires PartOf(batch, total, elevator, log, commands, p) && log <= log' && commands <= commands'
    ensures PartOf(batch, total, elevator, log', commands', p)
  {
    hide Ordered, HeadsAfter, Shift;
    assert log'[p.from..p.to] == log[p.from..p.to];
    assert commands'[..p.first] == commands[..p.first] && commands'[p.first..p.past] == commands[p.first..p.past];
  }

  lemma PartsMore(batch: seq<Io>, total: nat, elevator: bool, log: seq<nat>, commands: seq<Command>, commands': seq<Command>,
                  first: nat, parts: seq<Part>, p: Part)
    requires Parts(batch, total, p.from, elevator, log, commands, first, parts) && commands <= commands'
    requires p.from < p.to <= total <= |batch| && (p.to < total ==> batch[p.to].barrier)
    requires forall b :: p.from < b < p.to ==> !batch[b].barrier
    requires EachOnce(p.visited, p.to - p.from) && p.first == |commands| && p.past == |commands'|
    requires Ordered(batch[p.from..p.to], elevator, p.visited, p.pages, HeadsAfter(commands), commands'[|commands|..])
    ensures Parts(batch, total, p.to, elevator, log + Shift(p.from, p.visited), commands', first, parts + [p])
  {
    hide Ordered, HeadsAfter, PartOf;
    var log' := log + Shift(p.from, p.visited);
    forall n | 0 <= n < |parts| ensures PartOf(batch, total, elevator, log', commands', parts[n]) {
      PartStays(batch, total, elevator, log, log', commands, commands', parts[n]);
    }
    BarrierThere(batch, total, p.from, elevator, log, commands, first, parts);
    NewPart(batch, total, elevator, log, commands, commands', p);
  }

  /** Who has been served so far, in which groups and with which commands. */
  ghost predicate Recorded(batch: seq<Io>, total: nat, upTo: nat, elevator: bool, log: seq<nat>, commands: seq<Command>,
                           first: nat, parts: seq<Part>)
  {
    EachOnce(log, upTo) && BarriersKept(batch, log) && Parts(batch, total, upTo, elevator, log, commands, first, parts)
  }

  lemma RecordedIs(batch: seq<Io>, total: nat, upTo: nat, elevator: bool, log: seq<nat>, commands: seq<Command>,
                   first: nat, parts: seq<Part>)
    requires Recorded(batch, total, upTo, elevator, log, commands, first, parts)
    ensures EachOnce(log, upTo) && BarriersKept(batch, log) && Parts(batch, total, upTo, elevator, log, commands, first, parts)
  {
    hide EachOnce, BarriersKept, Parts;
  }

  lemma NoneRecorded(batch: seq<Io>, total: nat, elevator: bool, commands: seq<Command>)
    ensures Recorded(batch, total, 0, elevator, [], commands, |commands|, [])
  {
    NothingServed(batch);
    NoParts(batch, total, elevator, commands);
  }

  lemma RecordedMore(batch: seq<Io>, total: nat, elevator: bool, log: seq<nat>, commands: seq<Command>, commands': seq<Command>,
                     first: nat, parts: seq<Part>, p: Part)
    requires Recorded(batch, total, p.from, elevator, log, commands, first, parts) && commands <= commands'
    requires p.from < p.to <= total <= |batch| && (p.to < total ==> batch[p.to].barrier)
    requires forall b :: p.from < b < p.to ==> !batch[b].barrier
    requires EachOnce(p.visited, p.to - p.from) && p.first == |commands| && p.past == |commands'|
    requires Ordered(batch[p.from..p.to], elevator, p.visited, p.pages, HeadsAfter(commands), commands'[|commands|..])
    ensures Recorded(batch, total, p.to, elevator, log + Shift(p.from, p.visited), commands', first, parts + [p])
  {
    hide EachOnce, BarriersKept, Parts, Ordered, HeadsAfter;
    GroupServed(batch, log, p.from, p.to, p.visited);
    PartsMore(batch, total, elevator, log, commands, commands', first, parts, p);
  }

  lemma NewPart(batch: seq<Io>, total: nat, elevator: bool, log: seq<nat>, commands: seq<Command>, commands': seq<Command>,
                p: Part)
    requires |log| == p.from < p.to <= total <= |batch| && commands <= commands'
    requires (p.from > 0 ==> batch[p.from].barrier) && (p.to < total ==> batch[p.to].barrier)
    requires forall b :: p.from < b < p.to ==> !batch[b].barrier
    requires |p.visited| == p.to - p.from && p.first == |commands| && p.past == |commands'|
    requires Ordered(batch[p.from..p.to], elevator, p.visited, p.pages, HeadsAfter(commands), commands'[|commands|..])
    ensures PartOf(batch, total, elevator, log + Shift(p.from, p.visited), commands', p)
  {
    hide Ordered, HeadsAfter;
    var log' := log + Shift(p.from, p.visited);
    assert log'[p.from..p.to] == Shift(p.from, p.visited);
    assert commands'[..p.first] == commands && commands'[p.first..p.past] == commands'[|commands|..];
  }

  lemma BarrierThere(batch: seq<Io>, total: nat, upTo: nat, elevator: bool, log: seq<nat>, commands: seq<Command>, first: nat,
                     parts: seq<Part>)
    requires Parts(batch, total, upTo, elevator, log, commands, first, parts) && upTo < total <= |batch|
    ensures |log| == upTo && (upTo > 0 ==> batch[upTo].barrier)
  {
    hide Ordered, HeadsAfter, Shift;
    if parts != [] {
      assert PartOf(batch, total, elevator, log, commands, parts[|parts| - 1]);
    }
  }

  // ------------------------------------------------------ who is served when

  /** Places in a group, as places in the batch the group is part of. */
  ghost function Shift(base: nat, places: seq<nat>): seq<nat> {
    seq(|places|, k requires 0 <= k < |places| => base + places[k])
  }

  ghost function Counting(n: nat): seq<nat> {
    seq(n, k requires 0 <= k < n => k)
  }

  /** Every place below `n`, and no other, exactly once. */
  ghost predicate EachOnce(places: seq<nat>, n: nat) {
    && |places| == n && Distinct(places)
    && (forall k :: 0 <= k < |places| ==> places[k] < n)
    && (forall p: nat :: p < n ==> p in places)
  }

  /** No request is served after one that has a barrier between it and the first. */
  ghost predicate BarriersKept(batch: seq<Io>, served: seq<nat>) {
    forall p, q, b {:trigger served[p], served[q], batch[b]} ::
      0 <= p < q < |served| && 0 <= b < |batch| && served[q] < b <= served[p] ==> !batch[b].barrier
  }

  /** The places below `n` are those served from the cache and those that are left, apart and each once. */
  ghost predicate Parted(hits: seq<nat>, order: seq<nat>, n: nat) {
    && |hits| + |order| == n && Distinct(hits) && Distinct(order)
    && (forall k :: 0 <= k < |hits| ==> hits[k] < n)
    && (forall k :: 0 <= k < |order| ==> order[k] < n && order[k] !in hits)
    && (forall p: nat :: p < n ==> p in hits || p in order)
  }

  lemma PartedNone(base: nat)
    ensures Parted([], [], 0) && Shift(base, []) == [] && Members([]) == {}
  {
  }

  lemma PartedNext(hits: seq<nat>, order: seq<nat>, index: nat, base: nat)
    requires Parted(hits, order, index)
    ensures index !in Members(hits) && Members(hits + [index]) == Members(hits) + {index}
    ensures Parted(hits + [index], order, index + 1) && Parted(hits, order + [index], index + 1)
    ensures Shift(base, hits + [index]) == Shift(base, hits) + [base + index]
  {
    assert forall p :: p in hits + [index] <==> p in hits || p == index;
    assert forall p :: p in order + [index] <==> p in order || p == index;
  }

  lemma HitsAndRest(hits: seq<nat>, swept: seq<nat>, order: seq<nat>, n: nat)
    requires Parted(hits, order, n) && multiset(swept) == multiset(order)
    requires Distinct(swept) && Members(swept) == Members(order)
    ensures EachOnce(hits + swept, n)
    ensures forall k :: 0 <= k < |swept| ==> swept[k] < n && swept[k] !in Members(hits)
    ensures forall i :: 0 <= i < n ==> i in Members(hits) + Members(swept)
  {
    assert |swept| == |multiset(swept)| == |order|;
    forall p ensures p in swept <==> p in order {
      assert p in swept <==> p in Members(swept);
      assert p in order <==> p in Members(order);
    }
    forall k | 0 <= k < |swept| ensures swept[k] < n && swept[k] !in hits {
      assert swept[k] in order;
    }
    forall p: nat | p < n ensures p in hits + swept {
      assert p in hits || p in swept;
    }
  }

  lemma ShiftJoin(base: nat, a: seq<nat>, b: seq<nat>)
    ensures Shift(base, a + b) == Shift(base, a) + Shift(base, b)
  {
  }

  lemma ShiftNext(base: nat, places: seq<nat>, k: nat)
    requires k < |places|
    ensures Shift(base, places[..k + 1]) == Shift(base, places[..k]) + [base + places[k]]
  {
  }

  lemma ShiftMore(base: nat, order: seq<nat>, position: nat, end: nat)
    requires position < end <= |order|
    ensures Shift(base, order[..end]) == Shift(base, order[..position]) + Shift(base, order[position..end])
    ensures end == position + 1 ==> Shift(base, order[position..end]) == [base + order[position]]
  {
  }

  lemma CountingNext(base: nat, k: nat)
    ensures Shift(base, Counting(k + 1)) == Shift(base, Counting(k)) + [base + k]
  {
  }

  lemma CountingOnce(n: nat)
    ensures EachOnce(Counting(n), n)
  {
    forall p: nat | p < n ensures p in Counting(n) {
      assert Counting(n)[p] == p;
    }
  }

  lemma NothingServed(ios: seq<Io>)
    ensures EachOnce([], 0) && BarriersKept(ios, [])
  {
  }

  lemma ShiftedHas(base: nat, visited: seq<nat>, n: nat, p: nat)
    requires EachOnce(visited, n) && base <= p < base + n
    ensures p in Shift(base, visited)
  {
    assert (p - base) as nat in visited;
    var k :| 0 <= k < |visited| && visited[k] == p - base;
    assert Shift(base, visited)[k] == p;
  }

  /** One more group, without a barrier inside it, served after the groups before it. */
  lemma GroupServed(ios: seq<Io>, added: seq<nat>, start: nat, end: nat, visited: seq<nat>)
    requires start <= end <= |ios| && EachOnce(added, start) && EachOnce(visited, end - start) && BarriersKept(ios, added)
    requires forall b :: start < b < end ==> !ios[b].barrier
    ensures EachOnce(added + Shift(start, visited), end) && BarriersKept(ios, added + Shift(start, visited))
  {
    var more := Shift(start, visited);
    var all := added + more;
    forall p: nat | p < end ensures p in all {
      if p >= start {
        ShiftedHas(start, visited, end - start, p);
      }
    }
    forall p, q, b | 0 <= p < q < |all| && 0 <= b < |ios| && all[q] < b <= all[p] ensures !ios[b].barrier {
      if q < |added| {
        assert added[q] < b <= added[p];
      } else if p >= |added| {
        assert start <= all[q] && all[p] < end;
      }
    }
  }

  /** The first `start` requests have been served, and nothing else. */
  ghost predicate Progress(media: Media, ios: seq<Io>, start: nat, now: Media, batch: seq<Io>) {
    && start <= |ios| && AllInRange(media, ios[..start])
    && now == RunMedia(media, ios[..start])
    && batch == RunIos(media, ios[..start]) + ios[start..]
  }

  lemma ProgressNone(media: Media, ios: seq<Io>)
    ensures Progress(media, ios, 0, media, ios)
  {
    assert ios[..0] == [] && ios[0..] == ios;
    RunNone(media);
  }

  /** The requests not served yet are as they were submitted. */
  lemma ProgressRest(media: Media, ios: seq<Io>, start: nat, now: Media, batch: seq<Io>)
    requires Progress(media, ios, start, now, batch)
    ensures |batch| == |ios| && forall k :: start <= k < |ios| ==> batch[k] == ios[k]
  {
  }

  lemma ProgressIs(media: Media, ios: seq<Io>, total: nat, now: Media, batch: seq<Io>)
    requires Progress(media, ios, total, now, batch)
    ensures total <= |ios| && AllInRange(media, ios[..total])
    ensures now == RunMedia(media, ios[..total]) && batch == RunIos(media, ios[..total]) + ios[total..]
  {
  }

  /** Served requests followed by the rest, with one more group served. */
  lemma Stitched(done: seq<Io>, ios: seq<Io>, start: nat, end: nat, batch: seq<Io>)
    requires start <= end <= |ios| && |done| == start && batch == done + ios[start..]
    ensures batch[start..end] == ios[start..end] && batch[..start] == done && batch[end..] == ios[end..]
    ensures forall served: seq<Io> :: |served| == end - start ==>
      batch[..start] + served + batch[start + |served|..] == done + served + ios[end..]
  {
  }

  lemma ProgressGroup(media: Media, ios: seq<Io>, start: nat, end: nat, now: Media, batch: seq<Io>)
    requires AllInRange(media, ios) && start <= end <= |ios| && Progress(media, ios, start, now, batch)
    ensures |batch| == |ios| && batch[start..end] == ios[start..end] && AllInRange(now, ios[start..end])
  {
    hide RunMedia, RunIos, InRange;
    NextGroup(media, ios, start, end);
    Stitched(RunIos(media, ios[..start]), ios, start, end, batch);
  }

  lemma ProgressStep(media: Media, ios: seq<Io>, start: nat, end: nat, now: Media, batch: seq<Io>,
                     served: seq<Io>, batch': seq<Io>)
    requires AllInRange(media, ios) && start <= end <= |ios| == |batch| && Progress(media, ios, start, now, batch)
    requires AllInRange(now, ios[start..end]) && served == RunIos(now, ios[start..end])
    requires batch' == batch[..start] + served + batch[start + |served|..]
    ensures Progress(media, ios, end, RunMedia(now, ios[start..end]), batch')
  {
    hide RunMedia, RunIos, InRange;
    NextGroup(media, ios, start, end);
    Stitched(RunIos(media, ios[..start]), ios, start, end, batch);
  }

  method StoreBack(batch: array<Io>, start: nat, served: seq<Io>)
    requires start + |served| <= batch.Length
    modifies batch
    ensures batch[..] == old(batch[..])[..start] + served + old(batch[..])[start + |served|..]
  {
    forall k | 0 <= k < |served| {
      batch[start + k] := served[k];
    }
  }

  method CountOk(batch: array<Io>, total: nat) returns (succeeded: nat)
    requires total <= batch.Length
    ensures succeeded == |Successes(batch[..total])|
  {
    succeeded := 0;
    for k := 0 to total
      invariant succeeded == |Successes(batch[..k])|
    {
      assert batch[..k + 1] == batch[..k] + [batch[k]];
      OneMoreOk(batch[..k], batch[k]);
      if batch[k].ok {
        succeeded := succeeded + 1;
      }
    }
  }

  lemma OneMoreOk(ios: seq<Io>, io: Io)
    ensures |Successes(ios + [io])| == |Successes(ios)| + if io.ok then 1 else 0
  {
    assert Successes(ios + [io]) == Successes(ios) + if io.ok then {|ios|} else {};
  }

  /** Which requests succeeded. */
  ghost function Successes(ios: seq<Io>): set<nat> {
    set i: nat | i < |ios| && ios[i].ok
  }

  lemma NextGroup(media: Media, ios: seq<Io>, start: nat, end: nat)
    requires AllInRange(media, ios) && start <= end <= |ios|
    ensures AllInRange(media, ios[..start]) && AllInRange(media, ios[..end])
    ensures AllInRange(RunMedia(media, ios[..start]), ios[start..end])
    ensures RunMedia(media, ios[..end]) == RunMedia(RunMedia(media, ios[..start]), ios[start..end])
    ensures RunIos(media, ios[..end]) == RunIos(media, ios[..start]) + RunIos(RunMedia(media, ios[..start]), ios[start..end])
  {
    hide RunMedia, RunIos, InRange;
    assert ios[..end] == ios[..start] + ios[start..end];
    forall k | 0 <= k < end ensures InRange(media, ios[..end][k]) { assert InRange(media, ios[k]); }
    RunJoinBatches(media, ios[..start], ios[start..end]);
  }

  ghost function Members(places: seq<nat>): set<nat> {
    set p | p in places
  }

  lemma PlacesLeft(order: seq<nat>, position: nat, end: nat, served: set<nat>)
    requires position < end <= |order| && Distinct(order)
    requires forall k :: 0 <= k < |order| ==> order[k] !in served
    ensures Distinct(order[position..end])
    ensures forall k :: 0 <= k < |order[position..end]| ==> order[position..end][k] !in served + Members(order[..position])
    ensures served + Members(order[..position]) + Members(order[position..end]) == served + Members(order[..end])
    ensures end == position + 1 ==> Members(order[position..end]) == {order[position]}
    ensures order[position] !in served + Members(order[..position])
  {
    assert order[..end] == order[..position] + order[position..end];
    assert order[position..end][0] == order[position];
  }

  lemma GatherFirst(ios: seq<Io>, order: seq<nat>, position: nat)
    requires position < |order| && Places(order, |ios|)
    ensures Places(order[position..position + 1], |ios|)
    ensures var sel := Select(ios, order[position..position + 1]); Adjacent(sel) && Length(sel) == ios[order[position]].sectors
  {
    var sel := Select(ios, order[position..position + 1]);
    assert sel == [ios[order[position]]];
    assert sel[..0] == [];
  }

  lemma GatherNext(ios: seq<Io>, order: seq<nat>, position: nat, last: nat)
    requires position <= last && last + 1 < |order| && Places(order, |ios|)
    requires Adjacent(Select(ios, order[position..last + 1]))
    requires var next, current, first := ios[order[last + 1]], ios[order[last]], ios[order[position]];
             next.disk == first.disk && next.write == first.write && next.lba == current.lba + current.sectors
    ensures Adjacent(Select(ios, order[position..last + 2]))
    ensures Length(Select(ios, order[position..last + 2]))
         == Length(Select(ios, order[position..last + 1])) + ios[order[last + 1]].sectors
  {
    var sel, more := Select(ios, order[position..last + 1]), Select(ios, order[position..last + 2]);
    assert more[..|more| - 1] == sel;
    assert more[|more| - 1] == ios[order[last + 1]];
    LengthStep(more);
    forall k | 0 <= k < |more| - 1 ensures Next(more, k) {
      if k < |sel| - 1 {
        assert Next(sel, k);
      }
    }
  }

  lemma ReadKeeps(media: Media, io: Io)
    requires InRange(media, io) && !io.write
    ensures MediaAfter(media, io) == media
  {
  }

  lemma DoneTouch(media: Media, group: seq<Io>, served: set<nat>, now: Media, ios: seq<Io>, i: nat, io': Io)
    requires AllInRange(media, group) && Done(media, group, served, now, ios) && i < |ios| && i !in served
    requires Untouched(ios[i], io')
    ensures Done(media, group, served, now, ios[i := io'])
  {
    hide Reflects, IoAfter;
    assert Untouched(group[i], ios[i]);
  }

  /** Distinct means no place is listed twice. */
  lemma {:induction false} DistinctCount(places: seq<nat>)
    ensures Distinct(places) <==> forall p :: p in places ==> multiset(places)[p] == 1
    decreases |places|
  {
    if places != [] {
      var init, last := places[..|places| - 1], places[|places| - 1];
      assert places == init + [last];
      DistinctCount(init);
      if Distinct(places) {
        assert last !in init;
        forall p | p in places ensures multiset(places)[p] == 1 {
          assert p in init || p == last;
        }
      } else if forall p :: p in places ==> multiset(places)[p] == 1 {
        assert last in places && multiset(places) == multiset(init) + multiset{last};
        assert multiset(init)[last] == 0;
        forall p | p in init ensures multiset(init)[p] == 1 {
          assert p in places;
        }
        assert false;
      }
    }
  }

  lemma SameMembers(a: seq<nat>, b: seq<nat>)
    requires multiset(a) == multiset(b) && Distinct(a)
    ensures Distinct(b) && Members(a) == Members(b)
    ensures forall k :: 0 <= k < |b| ==> b[k] in a
  {
    DistinctCount(a);
    DistinctCount(b);
    forall p ensures p in a <==> p in b {
      assert p in a <==> p in multiset(a);
      assert p in b <==> p in multiset(b);
    }
  }

  /** The sectors of one request lie within what a merged read returns. */
  lemma PartOfRun(sel: seq<Io>, k: nat)
    requires Adjacent(sel) && k < |sel|
    ensures sel[k].disk == sel[0].disk && !(sel[k].lba < sel[0].lba)
    ensures sel[k].lba + sel[k].sectors <= sel[0].lba + Length(sel)
  {
    hide Length;
    var upto := sel[..k + 1];
    assert upto[0] == sel[0] && upto[|upto| - 1] == sel[k];
    AdjacentPrefix(sel, k + 1);
    LengthSpan(upto);
    LengthPrefix(sel, k + 1);
    LengthStep(upto);
  }

  lemma RunSlice(media: Media, disk: Disk, lba: nat, count: nat, at: nat, n: nat)
    requires lba + count <= SizeOf(media, disk) && lba <= at && at + n <= lba + count
    ensures var offset := at - lba;
            Run(media, disk, lba, count)[offset..offset + n] == Run(media, disk, at, n)
  {
    if n > 0 {
      PartOfPart(media[disk], lba, count, at - lba, n);
    }
  }

  lemma LengthStep(sel: seq<Io>)
    requires sel != []
    ensures Length(sel) == Length(sel[..|sel| - 1]) + sel[|sel| - 1].sectors
  {
  }

  lemma {:induction false} LengthPrefix(sel: seq<Io>, k: nat)
    requires k <= |sel|
    ensures Length(sel[..k]) <= Length(sel)
    decreases |sel|
  {
    if k < |sel| {
      LengthPrefix(sel[..|sel| - 1], k);
      assert sel[..|sel| - 1][..k] == sel[..k];
    } else {
      assert sel[..k] == sel;
    }
  }
}
