/**
 Why a power cut is harmless: what keeps the committed volume safe while a
 transaction writes, and what the commit's single sector write changes.
 */
module AerCrash {
  import opened LittleEndian
  import opened AerLayout
  import opened AerTree
  import opened AerOwnership
  import opened AerForest
  import opened AerDevice

  /** Whatever a power cut in state `s` leaves, it mounts as the volume `files`. */
  ghost predicate Survives(crc: Crc, s: Snapshot, sb: Super, files: map<nat, File>) {
    forall img :: CrashImage(s, img) ==> Mounts(crc, img, sb, files)
  }

  /** As `Survives`, with two volumes allowed. */
  ghost predicate SurvivesEither(crc: Crc, s: Snapshot, sb: Super, files: map<nat, File>,
                                 sb': Super, files': map<nat, File>) {
    forall img :: CrashImage(s, img) ==> Mounts(crc, img, sb, files) || Mounts(crc, img, sb', files')
  }

  lemma SlotsFrame(crc: Crc, a: Image, b: Image, sb: Super)
    requires SlotsOk(crc, a, sb) && |a| == |b|
    requires a[0][..SECTOR] == b[0][..SECTOR] && a[1][..SECTOR] == b[1][..SECTOR]
    ensures SlotsOk(crc, b, sb)
  {
  }

  /** The committed volume is on the medium and no unflushed write comes near it. */
  ghost predicate Anchored(crc: Crc, view: Image, s: Snapshot, used: set<nat>, sb: Super, base: map<nat, File>) {
    && |view| == |s.durable|
    && {0, 1} <= used
    && Whole(crc, view, used - {0, 1}, sb, base)
    && SlotsOk(crc, s.durable, sb)
    && Safe(view, s, used)
  }

  ghost predicate Safe(view: Image, s: Snapshot, blocks: set<nat>)
    requires |view| == |s.durable|
  {
    && Kept(view, s.durable, blocks)
    && forall b :: b in blocks ==> b < |view| && Untouched(s.pending, b)
  }

  lemma WholeOnCrash(crc: Crc, view: Image, s: Snapshot, img: Image, live: set<nat>, sb: Super, files: map<nat, File>)
    requires |view| == |s.durable| && CrashImage(s, img)
    requires Whole(crc, view, live, sb, files) && Safe(view, s, live)
    ensures Whole(crc, img, live, sb, files)
  {
    forall b | b in live && b < |view| ensures img[b] == view[b] {
      CrashUntouched(s, img, b);
    }
    OwnedFrame(crc, view, img, live, files);
  }

  lemma AnchoredSurvives(crc: Crc, view: Image, s: Snapshot, used: set<nat>, sb: Super, base: map<nat, File>)
    requires Anchored(crc, view, s, used, sb, base)
    ensures Survives(crc, s, sb, base)
  {
    forall img | CrashImage(s, img) ensures Mounts(crc, img, sb, base) {
      WholeOnCrash(crc, view, s, img, used - {0, 1}, sb, base);
      CrashUntouched(s, img, 0);
      CrashUntouched(s, img, 1);
      SlotsFrame(crc, s.durable, img, sb);
    }
  }

  lemma AnchoredWrite(crc: Crc, view: Image, s: Snapshot, used: set<nat>, sb: Super, base: map<nat, File>,
                      view': Image, w: Write)
    requires Anchored(crc, view, s, used, sb, base)
    requires w.block !in used && Kept(view, view', used)
    ensures Anchored(crc, view', Snapshot(s.durable, s.pending + [w]), used, sb, base)
  {
    OwnedFrame(crc, view, view', used - {0, 1}, base);
  }

  lemma AnchoredFlush(crc: Crc, view: Image, s: Snapshot, used: set<nat>, sb: Super, base: map<nat, File>)
    requires Anchored(crc, view, s, used, sb, base)
    ensures Anchored(crc, view, Snapshot(view, []), used, sb, base)
  {
    assert 0 in used && 1 in used;
    SlotsFrame(crc, s.durable, view, sb);
  }

  /** The committed volume is anchored, and has survived every device state after `past`. */
  ghost predicate Guarded(crc: Crc, view: Image, s: Snapshot, log: seq<Snapshot>, past: seq<Snapshot>,
                          used: set<nat>, sb: Super, base: map<nat, File>) {
    && Anchored(crc, view, s, used, sb, base)
    && past <= log
    && forall i :: |past| <= i < |log| ==> Survives(crc, log[i], sb, base)
  }

  lemma GuardedWrite(crc: Crc, view: Image, s: Snapshot, log: seq<Snapshot>, past: seq<Snapshot>,
                     used: set<nat>, sb: Super, base: map<nat, File>, view': Image, w: Write)
    requires Guarded(crc, view, s, log, past, used, sb, base)
    requires w.block !in used && Kept(view, view', used)
    ensures var s' := Snapshot(s.durable, s.pending + [w]);
            Guarded(crc, view', s', log + [s'], past, used, sb, base)
  {
    hide Anchored, Survives;
    var s' := Snapshot(s.durable, s.pending + [w]);
    AnchoredWrite(crc, view, s, used, sb, base, view', w);
    AnchoredSurvives(crc, view', s', used, sb, base);
  }

  lemma GuardedFlush(crc: Crc, view: Image, s: Snapshot, log: seq<Snapshot>, past: seq<Snapshot>,
                     used: set<nat>, sb: Super, base: map<nat, File>)
    requires Guarded(crc, view, s, log, past, used, sb, base)
    ensures Guarded(crc, view, Snapshot(view, []), log + [Snapshot(view, [])], past, used, sb, base)
  {
    hide Anchored, Survives;
    AnchoredFlush(crc, view, s, used, sb, base);
    AnchoredSurvives(crc, view, Snapshot(view, []), used, sb, base);
  }

  // ---------------------------------------------------------------- commit

  /** The next superblock in its slot wins, and leaves the current one where it was. */
  lemma SlotsAdvance(crc: Crc, a: Image, b: Image, sb: Super, next: Super)
    requires SlotsOk(crc, a, sb) && |a| == |b|
    requires next.generation == sb.generation + 1
    requires |next.volumeLabel| == 16 && next.inodes.height <= MAX_HEIGHT
    requires 16 <= next.blocks <= |a| && next.blocks <= MAX_BLOCKS
    requires var slot := next.generation % 2;
             b[slot][..SECTOR] == EncodeSuper(crc, next) && b[1 - slot][..SECTOR] == a[1 - slot][..SECTOR]
    ensures SlotsOk(crc, b, next)
  {
    hide EncodeSuper, DecodeSuper;
    SuperRoundTrip(crc, next);
  }

  /** While the superblock sector is in flight, a power cut leaves the old volume or the new one. */
  lemma CommitInFlight(crc: Crc, view: Image, sb: Super, base: map<nat, File>, used: set<nat>,
                       next: Super, files: map<nat, File>, live: set<nat>, s: Snapshot)
    requires Anchored(crc, view, Snapshot(view, []), used, sb, base)
    requires Whole(crc, view, live, next, files)
    requires next.generation == sb.generation + 1
    requires |next.volumeLabel| == 16 && next.inodes.height <= MAX_HEIGHT
    requires 16 <= next.blocks <= |view| && next.blocks <= MAX_BLOCKS
    requires s == Snapshot(view, [SectorWrite(next.generation % 2, EncodeSuper(crc, next))])
    ensures SurvivesEither(crc, s, sb, base, next, files)
  {
    hide EncodeSuper, DecodeSuper, Owned, Linked;
    var slot := next.generation % 2;
    forall img | CrashImage(s, img) ensures Mounts(crc, img, sb, base) || Mounts(crc, img, next, files) {
      WholeOnCrash(crc, view, s, img, used - {0, 1}, sb, base);
      WholeOnCrash(crc, view, s, img, live, next, files);
      CrashUntouched(s, img, 1 - slot);
      CrashSector(s, img, slot, EncodeSuper(crc, next));
      if img[slot][..SECTOR] == EncodeSuper(crc, next) {
        SlotsAdvance(crc, view, img, sb, next);
      } else {
        SlotsFrame(crc, view, img, sb);
      }
    }
  }

  /** The only write not flushed is the superblock's sector. */
  ghost predicate InFlight(crc: Crc, pending: seq<Write>, sb: Super) {
    |sb.volumeLabel| == 16 && pending == [SectorWrite(sb.generation % 2, EncodeSuper(crc, sb))]
  }

  /** A power cut in state `s` may leave either volume. */
  ghost predicate EitherWay(crc: Crc, s: Snapshot, sb: Super, files: map<nat, File>, sb': Super, files': map<nat, File>) {
    && (exists img :: CrashImage(s, img) && Mounts(crc, img, sb, files))
    && (exists img :: CrashImage(s, img) && Mounts(crc, img, sb', files'))
  }

  /**
   Both are possible: until the sector is flushed a power cut may leave the old
   volume and may leave the new one, whatever the call has reported.
   */
  lemma CommitInDoubt(crc: Crc, view: Image, sb: Super, base: map<nat, File>, used: set<nat>,
                      next: Super, files: map<nat, File>, live: set<nat>, s: Snapshot)
    requires Anchored(crc, view, Snapshot(view, []), used, sb, base)
    requires Whole(crc, view, live, next, files)
    requires next.generation == sb.generation + 1
    requires |next.volumeLabel| == 16 && next.inodes.height <= MAX_HEIGHT
    requires 16 <= next.blocks <= |view| && next.blocks <= MAX_BLOCKS
    requires s == Snapshot(view, [SectorWrite(next.generation % 2, EncodeSuper(crc, next))])
    ensures EitherWay(crc, s, sb, base, next, files)
  {
    hide Whole, SlotsOk, EncodeSuper, CrashImage;
    var slot := next.generation % 2;
    var new' := view[slot := EncodeSuper(crc, next) + view[slot][SECTOR..]];
    DurableIsACrashImage(s);
    SectorLands(s, slot, EncodeSuper(crc, next), new');
    CommitLanded(crc, view, sb, base, used, next, files, live, new', live + {0, 1});
    assert CrashImage(s, view) && Mounts(crc, view, sb, base);
    assert CrashImage(s, new') && Mounts(crc, new', next, files);
  }

  /** Writing a superblock slot leaves the committed volume's blocks alone. */
  lemma OlderKept(crc: Crc, view: Image, view': Image, used: set<nat>, sb: Super, base: map<nat, File>, slot: nat)
    requires Anchored(crc, view, Snapshot(view, []), used, sb, base) && slot < 2 && |view'| == |view|
    requires forall b :: 0 <= b < |view| && b != slot ==> view'[b] == view[b]
    ensures Whole(crc, view', used - {0, 1}, sb, base)
  {
    hide Owned, Linked, SlotsOk;
    OwnedFrame(crc, view, view', used - {0, 1}, base);
  }

  /** Once the sector is flushed the new volume is the committed one. */
  lemma CommitLanded(crc: Crc, view: Image, sb: Super, base: map<nat, File>, used: set<nat>,
                     next: Super, files: map<nat, File>, live: set<nat>, view': Image, used': set<nat>)
    requires Anchored(crc, view, Snapshot(view, []), used, sb, base)
    requires Whole(crc, view, live, next, files)
    requires next.generation == sb.generation + 1
    requires |next.volumeLabel| == 16 && next.inodes.height <= MAX_HEIGHT
    requires 16 <= next.blocks <= |view| && next.blocks <= MAX_BLOCKS
    requires used' == live + {0, 1} && |view'| == |view|
    requires var slot := next.generation % 2;
             && (forall b :: 0 <= b < |view| && b != slot ==> view'[b] == view[b])
             && view'[slot] == EncodeSuper(crc, next) + view[slot][SECTOR..]
    ensures Anchored(crc, view', Snapshot(view', []), used', next, files)
  {
    hide Owned, SlotsOk, EncodeSuper, Linked;
    var slot := next.generation % 2;
    assert view'[slot][..SECTOR] == EncodeSuper(crc, next);
    SlotsAdvance(crc, view, view', sb, next);
    OwnedFrame(crc, view, view', live, files);
    assert used' - {0, 1} == live;
  }

  /** Every device state after `past` survives as one of two volumes. */
  ghost predicate Recovers(crc: Crc, log: seq<Snapshot>, past: seq<Snapshot>, sb: Super, files: map<nat, File>,
                           sb': Super, files': map<nat, File>) {
    past <= log && forall i :: |past| <= i < |log| ==> SurvivesEither(crc, log[i], sb, files, sb', files')
  }

  /** What is guarded since `past` is guarded from now on. */
  lemma GuardedNow(crc: Crc, view: Image, s: Snapshot, log: seq<Snapshot>, past: seq<Snapshot>,
                   used: set<nat>, sb: Super, base: map<nat, File>)
    requires Guarded(crc, view, s, log, past, used, sb, base)
    ensures Guarded(crc, view, s, log, log, used, sb, base)
  {
    hide Anchored, Survives;
  }

  lemma GuardedWhole(crc: Crc, view: Image, s: Snapshot, log: seq<Snapshot>, past: seq<Snapshot>,
                     used: set<nat>, sb: Super, base: map<nat, File>)
    requires Guarded(crc, view, s, log, past, used, sb, base)
    ensures Whole(crc, view, used - {0, 1}, sb, base) && {0, 1} <= used
  {
  }

  lemma GuardedAnchored(crc: Crc, view: Image, s: Snapshot, log: seq<Snapshot>, past: seq<Snapshot>,
                        used: set<nat>, sb: Super, base: map<nat, File>)
    requires Guarded(crc, view, s, log, past, used, sb, base)
    ensures Anchored(crc, view, s, used, sb, base) && past <= log
  {
    hide Anchored;
  }

  /** No superblock sector is in flight while a volume is guarded. */
  lemma GuardedSlots(crc: Crc, view: Image, s: Snapshot, log: seq<Snapshot>, past: seq<Snapshot>,
                     used: set<nat>, sb: Super, base: map<nat, File>, next: Super)
    requires Guarded(crc, view, s, log, past, used, sb, base)
    ensures !InFlight(crc, s.pending, next)
  {
    hide Whole, SlotsOk, Survives, EncodeSuper;
    assert 0 in used && 1 in used;
    assert Untouched(s.pending, 0) && Untouched(s.pending, 1);
    assert s.pending != [] ==> s.pending[0] in s.pending;
  }

  lemma GuardedRecovers(crc: Crc, view: Image, s: Snapshot, log: seq<Snapshot>, past: seq<Snapshot>,
                        used: set<nat>, sb: Super, base: map<nat, File>, sb': Super, files': map<nat, File>)
    requires Guarded(crc, view, s, log, past, used, sb, base)
    ensures Recovers(crc, log, past, sb, base, sb', files')
  {
    hide Anchored;
  }

  lemma RecoversStep(crc: Crc, log: seq<Snapshot>, past: seq<Snapshot>, sb: Super, files: map<nat, File>,
                     sb': Super, files': map<nat, File>, s: Snapshot)
    requires Recovers(crc, log, past, sb, files, sb', files') && SurvivesEither(crc, s, sb, files, sb', files')
    ensures Recovers(crc, log + [s], past, sb, files, sb', files')
  {
    hide SurvivesEither;
  }

  /** After the last flush of a commit the new volume is guarded, from that very state on. */
  lemma CommitGuards(crc: Crc, view: Image, sb: Super, base: map<nat, File>, used: set<nat>,
                     next: Super, files: map<nat, File>, live: set<nat>, view': Image, used': set<nat>,
                     log: seq<Snapshot>)
    requires Anchored(crc, view, Snapshot(view, []), used, sb, base)
    requires Whole(crc, view, live, next, files)
    requires next.generation == sb.generation + 1
    requires |next.volumeLabel| == 16 && next.inodes.height <= MAX_HEIGHT
    requires 16 <= next.blocks <= |view| && next.blocks <= MAX_BLOCKS
    requires used' == live + {0, 1} && |view'| == |view|
    requires var slot := next.generation % 2;
             && (forall b :: 0 <= b < |view| && b != slot ==> view'[b] == view[b])
             && view'[slot] == EncodeSuper(crc, next) + view[slot][SECTOR..]
    ensures var s := Snapshot(view', []);
            && Guarded(crc, view', s, log + [s], log + [s], used', next, files)
            && SurvivesEither(crc, s, sb, base, next, files)
  {
    hide Anchored, Whole;
    var s := Snapshot(view', []);
    CommitLanded(crc, view, sb, base, used, next, files, live, view', used');
    AnchoredSurvives(crc, view', s, used', next, files);
  }

  lemma SlotsSize(crc: Crc, img: Image, sb: Super)
    requires SlotsOk(crc, img, sb)
    ensures |img| >= 2
  {
  }

  /** A volume read back from a device with nothing unflushed is guarded from then on. */
  lemma LoadGuards(crc: Crc, view: Image, used: set<nat>, sb: Super, files: map<nat, File>, log: seq<Snapshot>)
    requires SlotsOk(crc, view, sb) && Whole(crc, view, used - {0, 1}, sb, files) && {0, 1} <= used
    requires |log| > 0 && log[|log| - 1] == Snapshot(view, [])
    requires sb.blocks <= |view|
    ensures Guarded(crc, view, Snapshot(view, []), log, log, used, sb, files)
  {
    hide Owned, Linked, SlotsOk, Survives;
    var s := Snapshot(view, []);
    assert |view| >= 2 by { SlotsSize(crc, view, sb); }
    forall b | b in used ensures b < |view| && Untouched(s.pending, b) {
      assert b in used - {0, 1} || b in {0, 1};
    }
    assert Safe(view, s, used);
    assert Anchored(crc, view, s, used, sb, files);
    AnchoredSurvives(crc, view, s, used, sb, files);
  }

  // ---------------------------------------------------------------- formatting

  /** Neither slot holds a superblock. */
  ghost predicate Blanked(view: Image) {
    |view| >= 2 && view[0][..SECTOR] == Zeros(SECTOR) && view[1][..SECTOR] == Zeros(SECTOR)
  }

  /** What a transaction must not disturb: the committed volume or, while formatting, the blank slots. */
  ghost predicate Secured(blank: bool, crc: Crc, view: Image, s: Snapshot, log: seq<Snapshot>, past: seq<Snapshot>,
                          used: set<nat>, sb: Super, base: map<nat, File>) {
    if blank then Blanked(view) else Guarded(crc, view, s, log, past, used, sb, base)
  }

  lemma SecuredWrite(blank: bool, crc: Crc, view: Image, s: Snapshot, log: seq<Snapshot>, past: seq<Snapshot>,
                     used: set<nat>, sb: Super, base: map<nat, File>, view': Image, w: Write)
    requires Secured(blank, crc, view, s, log, past, used, sb, base)
    requires w.block !in used && Kept(view, view', used) && {0, 1} <= used && |view'| == |view|
    ensures var s' := Snapshot(s.durable, s.pending + [w]);
            Secured(blank, crc, view', s', log + [s'], past, used, sb, base)
  {
    hide Guarded;
    if !blank {
      GuardedWrite(crc, view, s, log, past, used, sb, base, view', w);
    } else {
      assert 0 in used && 1 in used;
    }
  }

  /** The first superblock of a formatted volume. */
  lemma FirstSlots(crc: Crc, view: Image, next: Super, view': Image)
    requires Blanked(view) && next.generation == 1 && |view'| == |view|
    requires |next.volumeLabel| == 16 && next.inodes.height <= MAX_HEIGHT
    requires 16 <= next.blocks <= |view| && next.blocks <= MAX_BLOCKS
    requires view'[0] == view[0] && view'[1] == EncodeSuper(crc, next) + view[1][SECTOR..]
    ensures SlotsOk(crc, view', next)
  {
    hide EncodeSuper, DecodeSuper;
    assert view'[1][..SECTOR] == EncodeSuper(crc, next);
    SuperRoundTrip(crc, next);
    ZeroSectorIsNoSuper(crc);
  }

  lemma FirstCommit(crc: Crc, view: Image, next: Super, files: map<nat, File>, live: set<nat>,
                    view': Image, used': set<nat>, log: seq<Snapshot>)
    requires Blanked(view) && Whole(crc, view, live, next, files) && next.generation == 1
    requires |next.volumeLabel| == 16 && next.inodes.height <= MAX_HEIGHT
    requires 16 <= next.blocks <= |view| && next.blocks <= MAX_BLOCKS
    requires used' == live + {0, 1} && |view'| == |view|
    requires (forall b :: 0 <= b < |view| && b != 1 ==> view'[b] == view[b])
    requires view'[1] == EncodeSuper(crc, next) + view[1][SECTOR..]
    ensures var s := Snapshot(view', []); Guarded(crc, view', s, log + [s], log + [s], used', next, files)
  {
    hide Owned, Linked, SlotsOk, Guarded, EncodeSuper;
    var s := Snapshot(view', []);
    FirstSlots(crc, view, next, view');
    OwnedFrame(crc, view, view', live, files);
    assert used' - {0, 1} == live;
    LoadGuards(crc, view', used', next, files, log + [s]);
  }
}
