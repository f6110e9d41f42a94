/**
 What a batch of disk requests means: each request in turn, in the order of
 submission. When no request overlaps a write, any order means the same.
 */
module BlockBatches {
  import opened BlockCache

  const BATCH_MAX := 64

  /** A request; `data` is what to write, or the buffer to read into. */
  datatype Io = Io(disk: Disk, lba: nat, sectors: nat, write: bool, data: seq<Sector>, barrier: bool, ok: bool)

  predicate ValidIo(io: Io) {
    0 < io.sectors <= MAX_RUN && io.sectors <= |io.data|
  }

  /** One is a write and they share a sector. */
  predicate Conflicts(a: Io, b: Io) {
    a.disk == b.disk && (a.write || b.write) && a.lba < b.lba + b.sectors && b.lba < a.lba + a.sectors
  }

  ghost predicate NoHazard(group: seq<Io>) {
    forall a, b :: 0 <= a < b < |group| ==> !Conflicts(group[a], group[b])
  }

  ghost predicate InRange(media: Media, io: Io) {
    ValidIo(io) ==> io.lba + io.sectors <= SizeOf(media, io.disk)
  }

  ghost predicate AllInRange(media: Media, group: seq<Io>) {
    forall i :: 0 <= i < |group| ==> InRange(media, group[i])
  }

  // --------------------------------------------------------------- in order

  ghost function MediaAfter(media: Media, io: Io): Media
    requires InRange(media, io)
  {
    if ValidIo(io) && io.write then SetRun(media, io.disk, io.lba, io.data[..io.sectors]) else media
  }

  ghost function IoAfter(media: Media, io: Io): Io
    requires InRange(media, io)
  {
    if !ValidIo(io) then io.(ok := false)
    else if io.write then io.(ok := true)
    else
      var data: seq<Sector> := Run(media, io.disk, io.lba, io.sectors) + io.data[io.sectors..];
      io.(data := data, ok := true)
  }

  ghost predicate SameSizes(a: Media, b: Media) {
    a.Keys == b.Keys && forall d :: d in a ==> |a[d]| == |b[d]|
  }

  lemma MediaAfterSizes(media: Media, io: Io)
    requires InRange(media, io)
    ensures SameSizes(media, MediaAfter(media, io))
  {
  }

  lemma SizesRange(a: Media, b: Media, group: seq<Io>)
    requires SameSizes(a, b) && AllInRange(a, group)
    ensures AllInRange(b, group)
  {
    forall i | 0 <= i < |group| ensures InRange(b, group[i]) {
      assert InRange(a, group[i]);
    }
  }

  /** The media after the requests, one after the other. */
  ghost function RunMedia(media: Media, group: seq<Io>): (r: Media)
    requires AllInRange(media, group)
    ensures SameSizes(media, r)
    decreases |group|
  {
    if group == [] then media
    else
      assert InRange(media, group[0]);
      MediaAfterSizes(media, group[0]);
      SizesRange(media, MediaAfter(media, group[0]), group[1..]);
      RunMedia(MediaAfter(media, group[0]), group[1..])
  }

  /** The requests after they have been served, one after the other. */
  ghost function RunIos(media: Media, group: seq<Io>): (r: seq<Io>)
    requires AllInRange(media, group)
    ensures |r| == |group|
    decreases |group|
  {
    if group == [] then []
    else
      assert InRange(media, group[0]);
      MediaAfterSizes(media, group[0]);
      SizesRange(media, MediaAfter(media, group[0]), group[1..]);
      [IoAfter(media, group[0])] + RunIos(MediaAfter(media, group[0]), group[1..])
  }

  lemma JoinRange(media: Media, a: seq<Io>, b: seq<Io>)
    requires AllInRange(media, a + b)
    ensures AllInRange(media, a) && AllInRange(media, b)
    ensures a != [] ==> InRange(media, a[0])
  {
    hide InRange;
    forall i | 0 <= i < |a| ensures InRange(media, a[i]) { assert (a + b)[i] == a[i]; }
    forall i | 0 <= i < |b| ensures InRange(media, b[i]) { assert (a + b)[|a| + i] == b[i]; }
  }

  lemma {:induction false} RunJoinBatches(media: Media, a: seq<Io>, b: seq<Io>)
    requires AllInRange(media, a + b)
    ensures AllInRange(media, a) && AllInRange(RunMedia(media, a), b)
    ensures RunMedia(media, a + b) == RunMedia(RunMedia(media, a), b)
    ensures RunIos(media, a + b) == RunIos(media, a) + RunIos(RunMedia(media, a), b)
    decreases |a|
  {
    hide MediaAfter, IoAfter, InRange;
    JoinRange(media, a, b);
    SizesRange(media, RunMedia(media, a), b);
    if a == [] {
      assert a + b == b;
    } else {
      var after := MediaAfter(media, a[0]);
      MediaAfterSizes(media, a[0]);
      assert (a + b)[0] == a[0] && (a + b)[1..] == a[1..] + b;
      assert AllInRange(media, (a + b)[1..]);
      SizesRange(media, after, (a + b)[1..]);
      RunJoinBatches(after, a[1..], b);
      assert RunIos(media, a) == [IoAfter(media, a[0])] + RunIos(after, a[1..]);
    }
  }

  // -------------------------------------------------------------- any order

  /** Request `i` writes sector `at` of `disk`. */
  ghost predicate Writes(io: Io, disk: Disk, at: nat) {
    ValidIo(io) && io.write && io.disk == disk && io.lba <= at < io.lba + io.sectors
  }

  /** A request not yet served: a read's buffer may already have been touched. */
  ghost predicate Untouched(before: Io, now: Io) {
    && now == before.(data := now.data) && |now.data| == |before.data|
    && (before.write || !ValidIo(before) ==> now == before)
    && (before.sectors <= |before.data| ==> now.data[before.sectors..] == before.data[before.sectors..])
  }

  /** The media after exactly the writes in `served`. */
  ghost predicate Reflects(media: Media, group: seq<Io>, served: set<nat>, now: Media) {
    && SameSizes(media, now)
    && (forall i, d, at {:trigger Writes(group[i], d, at)} ::
          i in served && i < |group| && d in media && 0 <= at < |media[d]| && Writes(group[i], d, at) ==>
            now[d][at] == group[i].data[at - group[i].lba])
    && (forall d, at {:trigger now[d][at]} ::
          d in media && 0 <= at < |media[d]| && (forall i :: i in served && i < |group| ==> !Writes(group[i], d, at)) ==>
            now[d][at] == media[d][at])
  }

  /** Exactly the requests in `served` have been served, in whatever order. */
  ghost predicate Done(media: Media, group: seq<Io>, served: set<nat>, now: Media, ios: seq<Io>)
    requires AllInRange(media, group)
  {
    && |ios| == |group|
    && (forall i :: i in served ==> i < |group|)
    && (forall i :: 0 <= i < |group| ==>
          InRange(media, group[i]) && if i in served then ios[i] == IoAfter(media, group[i]) else Untouched(group[i], ios[i]))
    && Reflects(media, group, served, now)
  }

  /** A request that has not been served meets the sectors it reads as they were at first. */
  lemma StillThere(media: Media, group: seq<Io>, served: set<nat>, now: Media, i: nat, count: nat)
    requires AllInRange(media, group) && NoHazard(group) && Reflects(media, group, served, now)
    requires i < |group| && i !in served && ValidIo(group[i]) && count <= group[i].sectors
    ensures InRange(media, group[i]) && InRange(now, group[i])
    ensures Run(now, group[i].disk, group[i].lba, count) == Run(media, group[i].disk, group[i].lba, count)
  {
    var io := group[i];
    assert InRange(media, io);
    forall at | io.lba <= at < io.lba + count ensures now[io.disk][at] == media[io.disk][at] {
      forall j | j in served && j < |group| ensures !Writes(group[j], io.disk, at) {
        if j < i {
          assert !Conflicts(group[j], group[i]);
        } else {
          assert !Conflicts(group[i], group[j]);
        }
      }
    }
  }

  /** Serving a read, or refusing an invalid request, changes no medium. */
  lemma ReadReflects(media: Media, group: seq<Io>, served: set<nat>, now: Media, i: nat)
    requires Reflects(media, group, served, now) && i < |group| && !(ValidIo(group[i]) && group[i].write)
    ensures Reflects(media, group, served + {i}, now)
  {
    forall d, at | d in media && 0 <= at < |media[d]| && (forall j :: j in served + {i} && j < |group| ==> !Writes(group[j], d, at))
      ensures now[d][at] == media[d][at]
    {
      forall j | j in served && j < |group| ensures !Writes(group[j], d, at) {
        assert j in served + {i};
      }
    }
  }

  lemma WriteReflects(media: Media, group: seq<Io>, served: set<nat>, now: Media, i: nat, now': Media)
    requires NoHazard(group) && Reflects(media, group, served, now) && i < |group| && i !in served
    requires ValidIo(group[i]) && group[i].write && InRange(now, group[i])
    requires now' == SetRun(now, group[i].disk, group[i].lba, group[i].data[..group[i].sectors])
    ensures Reflects(media, group, served + {i}, now')
  {
    var io := group[i];
    forall j, d, at | j in served + {i} && j < |group| && d in media && 0 <= at < |media[d]| && Writes(group[j], d, at)
      ensures now'[d][at] == group[j].data[at - group[j].lba]
    {
      if j != i {
        if j < i {
          assert !Conflicts(group[j], group[i]);
        } else {
          assert !Conflicts(group[i], group[j]);
        }
        assert !Writes(io, d, at);
      }
    }
    forall d, at | d in media && 0 <= at < |media[d]| && (forall j :: j in served + {i} && j < |group| ==> !Writes(group[j], d, at))
      ensures now'[d][at] == media[d][at]
    {
      assert i in served + {i};
      assert !Writes(group[i], d, at);
      forall j | j in served && j < |group| ensures !Writes(group[j], d, at) {
        assert j in served + {i};
      }
    }
  }

  /** Two ways of serving all requests leave the same media. */
  lemma ReflectsUnique(media: Media, group: seq<Io>, served: set<nat>, a: Media, b: Media)
    requires Reflects(media, group, served, a) && Reflects(media, group, served, b)
    ensures a == b
  {
    forall d | d in a ensures a[d] == b[d] {
      forall at | 0 <= at < |a[d]| ensures a[d][at] == b[d][at] {
        if i :| i in served && i < |group| && Writes(group[i], d, at) {
          assert a[d][at] == group[i].data[at - group[i].lba];
        }
      }
    }
  }

  /** Serving one more request. */
  lemma DoneOne(media: Media, group: seq<Io>, served: set<nat>, now: Media, ios: seq<Io>, i: nat)
    requires AllInRange(media, group) && NoHazard(group) && Done(media, group, served, now, ios)
    requires i < |group| && i !in served
    ensures InRange(now, ios[i])
    ensures Done(media, group, served + {i}, MediaAfter(now, ios[i]), ios[i := IoAfter(now, ios[i])])
  {
    hide NoHazard, Run, SetRun;
    var io, was := ios[i], group[i];
    assert InRange(media, was);
    assert Untouched(was, io);
    if ValidIo(was) {
      hide Reflects;
      StillThere(media, group, served, now, i, was.sectors);
      if was.write {
        WriteReflects(media, group, served, now, i, MediaAfter(now, io));
      } else {
        ReadReflects(media, group, served, now, i);
      }
    } else {
      hide Reflects;
      ReadReflects(media, group, served, now, i);
    }
  }

  lemma DoneNone(media: Media, group: seq<Io>)
    requires AllInRange(media, group)
    ensures Done(media, group, {}, media, group)
  {
  }

  ghost function Upto(n: nat): (s: set<nat>)
    ensures forall i: nat :: i in s <==> i < n
  {
    if n == 0 then {} else Upto(n - 1) + {n - 1}
  }

  /** The first `k` requests in order. */
  lemma {:induction false} InOrder(media: Media, group: seq<Io>, k: nat)
    requires AllInRange(media, group) && NoHazard(group) && k <= |group|
    ensures AllInRange(media, group[..k])
    ensures Done(media, group, Upto(k), RunMedia(media, group[..k]), RunIos(media, group[..k]) + group[k..])
    decreases k
  {
    hide NoHazard, MediaAfter, IoAfter;
    forall i | 0 <= i < k ensures InRange(media, group[..k][i]) { assert InRange(media, group[i]); }
    if k == 0 {
      DoneNone(media, group);
      assert Upto(0) == {};
      assert group[..0] == [] && group[0..] == group;
      assert RunIos(media, []) + group == group;
    } else {
      InOrder(media, group, k - 1);
      InOrderStep(media, group, k - 1);
    }
  }

  lemma InOrderStep(media: Media, group: seq<Io>, k: nat)
    requires AllInRange(media, group) && NoHazard(group) && k < |group|
    requires AllInRange(media, group[..k]) && AllInRange(media, group[..k + 1])
    requires Done(media, group, Upto(k), RunMedia(media, group[..k]), RunIos(media, group[..k]) + group[k..])
    ensures Done(media, group, Upto(k + 1), RunMedia(media, group[..k + 1]), RunIos(media, group[..k + 1]) + group[k + 1..])
  {
    hide NoHazard, MediaAfter, IoAfter, Done;
    var now, ios := RunMedia(media, group[..k]), RunIos(media, group[..k]) + group[k..];
    assert ios[k] == group[k];
    DoneOne(media, group, Upto(k), now, ios, k);
    assert Upto(k) + {k} == Upto(k + 1);
    assert group[..k + 1] == group[..k] + [group[k]];
    RunJoinBatches(media, group[..k], [group[k]]);
    RunOne(now, group[k]);
    assert ios[k := IoAfter(now, group[k])] == RunIos(media, group[..k + 1]) + group[k + 1..];
  }

  lemma RunOne(media: Media, io: Io)
    requires AllInRange(media, [io])
    ensures InRange(media, io) && RunMedia(media, [io]) == MediaAfter(media, io) && RunIos(media, [io]) == [IoAfter(media, io)]
  {
    hide MediaAfter, IoAfter;
    assert [io][0] == io;
    assert [io][1..] == [];
    MediaAfterSizes(media, io);
    assert RunIos(media, [io]) == [IoAfter(media, io)] + RunIos(MediaAfter(media, io), []);
  }

  /** All requests served, in any order, is the same as serving them in order. */
  lemma AnyOrder(media: Media, group: seq<Io>, served: set<nat>, now: Media, ios: seq<Io>)
    requires AllInRange(media, group) && NoHazard(group) && Done(media, group, served, now, ios)
    requires forall i :: 0 <= i < |group| ==> i in served
    ensures now == RunMedia(media, group) && ios == RunIos(media, group)
  {
    hide NoHazard, Reflects, IoAfter;
    InOrder(media, group, |group|);
    assert group[..|group|] == group;
    assert served == Upto(|group|);
    var ios' := RunIos(media, group);
    assert ios' + group[|group|..] == ios';
    ReflectsUnique(media, group, served, now, RunMedia(media, group));
    forall i | 0 <= i < |group| ensures ios[i] == ios'[i] {}
  }

  // ----------------------------------------------------- several at a time

  /** The requests at the places listed. */
  function Select(ios: seq<Io>, places: seq<nat>): (r: seq<Io>)
    requires forall k :: 0 <= k < |places| ==> places[k] < |ios|
    ensures |r| == |places|
  {
    seq(|places|, k requires 0 <= k < |places| => ios[places[k]])
  }

  /** The requests with those at the places listed replaced. */
  function Replace(ios: seq<Io>, places: seq<nat>, with: seq<Io>): (r: seq<Io>)
    requires |with| == |places| && forall k :: 0 <= k < |places| ==> places[k] < |ios|
    ensures |r| == |ios|
    decreases |places|
  {
    if places == [] then ios else Replace(ios[places[0] := with[0]], places[1..], with[1..])
  }

  ghost predicate Distinct(places: seq<nat>) {
    forall j, k :: 0 <= j < k < |places| ==> places[j] != places[k]
  }

  lemma DoneShape(media: Media, group: seq<Io>, served: set<nat>, now: Media, ios: seq<Io>)
    requires AllInRange(media, group) && Done(media, group, served, now, ios)
    ensures |ios| == |group| && SameSizes(media, now)
  {
    hide IoAfter;
  }

  /** Serving several requests, one after the other. */
  lemma {:induction false} DoneMany(media: Media, group: seq<Io>, served: set<nat>, now: Media, ios: seq<Io>, places: seq<nat>)
    requires AllInRange(media, group) && NoHazard(group) && Done(media, group, served, now, ios)
    requires Distinct(places) && forall k :: 0 <= k < |places| ==> places[k] < |group| && places[k] !in served
    ensures |ios| == |group| && AllInRange(now, Select(ios, places))
    ensures Done(media, group, served + (set p | p in places), RunMedia(now, Select(ios, places)),
                 Replace(ios, places, RunIos(now, Select(ios, places))))
    decreases |places|
  {
    hide NoHazard, MediaAfter, IoAfter, Done;
    DoneShape(media, group, served, now, ios);
    var sel := Select(ios, places);
    forall k | 0 <= k < |places| ensures InRange(now, sel[k]) {
      DoneOne(media, group, served, now, ios, places[k]);
    }
    if places == [] {
      assert served + (set p | p in places) == served;
    } else {
      var i, rest := places[0], places[1..];
      DoneOne(media, group, served, now, ios, i);
      var now', ios' := MediaAfter(now, ios[i]), ios[i := IoAfter(now, ios[i])];
      forall k | 0 <= k < |rest| ensures rest[k] < |group| && rest[k] !in served + {i} && ios'[rest[k]] == ios[rest[k]] {
        assert rest[k] == places[k + 1];
      }
      DoneMany(media, group, served + {i}, now', ios', rest);
      assert served + {i} + (set p | p in rest) == served + (set p | p in places);
      assert sel[1..] == Select(ios', rest);
      assert sel[0] == ios[i];
      assert RunIos(now, sel)[1..] == RunIos(now', sel[1..]);
    }
  }

  // ------------------------------------------------------- sector by sector

  /** A request that writes the sector. */
  predicate Covers(io: Io, disk: Disk, sector: nat) {
    ValidIo(io) && io.write && io.disk == disk && io.lba <= sector < io.lba + io.sectors
  }

  /** The last request of a batch that writes the sector, if there is one. */
  ghost predicate LastWriter(group: seq<Io>, disk: Disk, sector: nat, k: nat) {
    && k < |group| && Covers(group[k], disk, sector)
    && forall j :: k < j < |group| ==> !Covers(group[j], disk, sector)
  }

  lemma OneRequest(media: Media, io: Io, disk: Disk, sector: nat)
    requires InRange(media, io) && disk in media && sector < |media[disk]|
    ensures var after := MediaAfter(media, io);
            && disk in after && |after[disk]| == |media[disk]|
            && after[disk][sector] == if Covers(io, disk, sector) then io.data[sector - io.lba] else media[disk][sector]
  {
    hide SameElsewhere;
    MediaAfterSizes(media, io);
    if ValidIo(io) && io.write {
      SetRunIs(media, io.disk, io.lba, io.data[..io.sectors]);
      if Covers(io, disk, sector) {
        assert MediaAfter(media, io)[disk][io.lba + (sector - io.lba)] == io.data[sector - io.lba];
      } else {
        UntouchedSector(media, io.disk, io.lba, io.data[..io.sectors], disk, sector);
      }
    }
  }

  lemma UntouchedSector(media: Media, at: Disk, lba: nat, data: seq<Sector>, disk: Disk, sector: nat)
    requires lba + |data| <= SizeOf(media, at) && disk in media && sector < |media[disk]|
    requires !(disk == at && lba <= sector < lba + |data|)
    ensures var after := SetRun(media, at, lba, data);
            disk in after && sector < |after[disk]| && after[disk][sector] == media[disk][sector]
  {
    hide SetRun;
    assert SameElsewhere(media, SetRun(media, at, lba, data), at, lba, |data|);
  }

  /** What is on the media after a batch: in each sector what the last request that writes it wrote, or what was there. */
  lemma {:induction false} SectorAfter(media: Media, group: seq<Io>, disk: Disk, sector: nat)
    requires AllInRange(media, group) && disk in media && sector < |media[disk]|
    ensures var after := RunMedia(media, group);
            && disk in after && |after[disk]| == |media[disk]|
            && (forall k: nat :: LastWriter(group, disk, sector, k) ==> after[disk][sector] == group[k].data[sector - group[k].lba])
            && ((forall k :: 0 <= k < |group| ==> !Covers(group[k], disk, sector)) ==> after[disk][sector] == media[disk][sector])
    decreases |group|
  {
    hide MediaAfter, Covers;
    if group != [] {
      assert InRange(media, group[0]);
      OneRequest(media, group[0], disk, sector);
      MediaAfterSizes(media, group[0]);
      var next, rest := MediaAfter(media, group[0]), group[1..];
      SizesRange(media, next, rest);
      SectorAfter(next, rest, disk, sector);
      forall k: nat | LastWriter(group, disk, sector, k)
        ensures k > 0 ==> LastWriter(rest, disk, sector, k - 1)
        ensures k == 0 ==> forall j :: 0 <= j < |rest| ==> !Covers(rest[j], disk, sector)
      {
      }
    }
  }

  /** A served request: what it asked for is as it was; a read has, sector by sector, what is on the media. */
  ghost predicate Served(media: Media, io: Io, io': Io) {
    && io' == io.(data := io'.data, ok := io'.ok) && |io'.data| == |io.data| && (io'.ok <==> ValidIo(io))
    && (forall i :: 0 <= i < |io.data| && !(ValidIo(io) && !io.write && i < io.sectors) ==> io'.data[i] == io.data[i])
    && (ValidIo(io) && !io.write ==>
          && io.disk in media && io.lba + io.sectors <= |media[io.disk]|
          && forall i :: 0 <= i < io.sectors ==> io'.data[i] == media[io.disk][io.lba + i])
  }

  lemma OneServed(media: Media, io: Io)
    requires InRange(media, io)
    ensures Served(media, io, IoAfter(media, io))
  {
    if ValidIo(io) && !io.write {
      RunIs(media, io.disk, io.lba, io.sectors);
    }
  }

  /** Each request of a batch is served on the media as the requests before it leave them. */
  lemma {:induction false} ServedInTurn(media: Media, group: seq<Io>, k: nat)
    requires AllInRange(media, group) && k < |group|
    ensures AllInRange(media, group[..k]) && Served(RunMedia(media, group[..k]), group[k], RunIos(media, group)[k])
    decreases |group|
  {
    hide MediaAfter, IoAfter, Served;
    assert InRange(media, group[0]);
    MediaAfterSizes(media, group[0]);
    var next, rest := MediaAfter(media, group[0]), group[1..];
    SizesRange(media, next, rest);
    JoinRange(media, group[..k], group[k..]) by { assert group[..k] + group[k..] == group; }
    if k == 0 {
      OneServed(media, group[0]);
    } else {
      ServedInTurn(next, rest, k - 1);
      assert group[..k][1..] == rest[..k - 1] && group[..k][0] == group[0];
    }
  }
}
