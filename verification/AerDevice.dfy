/**
 The block device under AerFS. A write is visible at once but reaches the
 medium only at the next flush; until then a power cut may keep any sectors of
 it and lose the others.
 */
module AerDevice {
  import opened LittleEndian
  import opened AerLayout
  import opened AerTree

  datatype Write = BlockWrite(block: nat, data: Block) | SectorWrite(block: nat, sector: Sector)

  /** What the medium holds, and the writes it may or may not have taken yet. */
  datatype Snapshot = Snapshot(durable: Image, pending: seq<Write>)

  ghost function SectorOf(b: Block, s: nat): seq<byte>
    requires s < 8
  {
    b[SECTOR * s..SECTOR * s + SECTOR]
  }

  /** The bytes write `w` holds for sector `s` of its block, if it covers that sector. */
  ghost predicate Carries(w: Write, s: nat, bytes: seq<byte>)
    requires s < 8
  {
    match w
    case BlockWrite(_, data) => bytes == SectorOf(data, s)
    case SectorWrite(_, sector) => s == 0 && bytes == sector
  }

  /** `img` is what a power cut in state `s` may leave: sector by sector, the old bytes or some unflushed write. */
  ghost predicate CrashImage(s: Snapshot, img: Image) {
    && |img| == |s.durable|
    && forall b, k :: 0 <= b < |img| && 0 <= k < 8 ==>
         || SectorOf(img[b], k) == SectorOf(s.durable[b], k)
         || exists w :: w in s.pending && w.block == b && Carries(w, k, SectorOf(img[b], k))
  }

  ghost predicate Untouched(pending: seq<Write>, block: nat) {
    forall w :: w in pending ==> w.block != block
  }

  lemma CrashUntouched(s: Snapshot, img: Image, b: nat)
    requires CrashImage(s, img) && b < |img| && Untouched(s.pending, b)
    ensures img[b] == s.durable[b]
  {
    forall i | 0 <= i < BLOCK ensures img[b][i] == s.durable[b][i] {
      var k := i / SECTOR;
      assert SectorOf(img[b], k) == SectorOf(s.durable[b], k);
      assert SectorOf(img[b], k)[i % SECTOR] == img[b][i];
      assert SectorOf(s.durable[b], k)[i % SECTOR] == s.durable[b][i];
    }
  }

  /** With one sector write in flight, the first sector is the old one or the new one. */
  lemma CrashSector(s: Snapshot, img: Image, b: nat, sector: Sector)
    requires CrashImage(s, img) && b < |img|
    requires forall w :: w in s.pending && w.block == b ==> w == SectorWrite(b, sector)
    ensures img[b][..SECTOR] == s.durable[b][..SECTOR] || img[b][..SECTOR] == sector
  {
    assert SectorOf(img[b], 0) == img[b][..SECTOR];
    assert SectorOf(s.durable[b], 0) == s.durable[b][..SECTOR];
  }

  /** An unflushed sector write may have landed whole. */
  lemma SectorLands(s: Snapshot, b: nat, sector: Sector, img: Image)
    requires b < |s.durable| && SectorWrite(b, sector) in s.pending
    requires img == s.durable[b := sector + s.durable[b][SECTOR..]]
    ensures CrashImage(s, img)
  {
    forall c, k | 0 <= c < |img| && 0 <= k < 8
      ensures || SectorOf(img[c], k) == SectorOf(s.durable[c], k)
              || exists w :: w in s.pending && w.block == c && Carries(w, k, SectorOf(img[c], k))
    {
      if c == b && k == 0 {
        assert SectorOf(img[c], k) == sector;
        assert Carries(SectorWrite(b, sector), k, SectorOf(img[c], k));
      } else if c == b {
        assert SectorOf(img[c], k) == SectorOf(s.durable[c], k);
      }
    }
  }

  lemma DurableIsACrashImage(s: Snapshot)
    ensures CrashImage(s, s.durable)
  {
  }

  class Device {
    const blocks: u32
    /** No command fails. */
    const reliable: bool
    /** What a read returns. */
    var view: Image
    /** What the medium holds for certain. */
    var durable: Image
    /** Writes since the last flush. */
    var pending: seq<Write>
    /** Every state the device has been in, oldest first. */
    ghost var log: seq<Snapshot>

    /** A device switched on with these contents. */
    constructor (contents: Image, reliable: bool)
      requires |contents| < 0x1_0000_0000
      ensures Valid() && view == contents && pending == [] && log == [Snapshot(contents, [])]
      ensures blocks == |contents| && this.reliable == reliable
    {
      blocks := |contents|;
      this.reliable := reliable;
      view, durable, pending := contents, contents, [];
      log := [Snapshot(contents, [])];
    }

    ghost predicate Valid()
      reads this
    {
      && |view| == |durable| == blocks
      && (forall w :: w in pending ==> w.block < blocks)
      && (forall b :: 0 <= b < blocks && Untouched(pending, b) ==> view[b] == durable[b])
      && |log| > 0 && log[|log| - 1] == Now()
    }

    lemma Sized()
      requires Valid()
      ensures |view| == blocks
    {
    }

    lemma Logged()
      requires Valid()
      ensures |log| > 0
    {
    }

    ghost function Now(): Snapshot
      reads this
    {
      Snapshot(durable, pending)
    }

    method ReadBlock(block: u32) returns (ok: bool, data: Block)
      requires Valid() && block < blocks
      ensures ok ==> data == view[block]
      ensures reliable ==> ok
    {
      ok := *;
      ok := ok || reliable;
      data := view[block];
    }

    method ReadSector(block: u32) returns (ok: bool, data: Sector)
      requires Valid() && block < blocks
      ensures ok ==> data == view[block][..SECTOR]
      ensures reliable ==> ok
    {
      ok := *;
      ok := ok || reliable;
      data := view[block][..SECTOR];
    }

    /** A failed write may still have changed any part of the block. */
    method WriteBlock(block: u32, data: Block) returns (ok: bool)
      requires Valid() && block < blocks
      modifies this
      ensures Valid() && durable == old(durable)
      ensures pending == old(pending) + [BlockWrite(block, data)]
      ensures log == old(log) + [Now()]
      ensures |view| == |old(view)|
      ensures forall b :: 0 <= b < |view| && b != block ==> view[b] == old(view)[b]
      ensures ok ==> view[block] == data
      ensures reliable ==> ok
    {
      ok := *;
      ok := ok || reliable;
      var left: Block :| |left| == |data|;
      pending := pending + [BlockWrite(block, data)];
      view := view[block := if ok then data else left];
      log := log + [Snapshot(durable, pending)];
      assert BlockWrite(block, data) in pending;
      assert forall w :: w in old(pending) ==> w in pending;
    }

    /** A failed sector write may have been refused, or may still be in flight. */
    method WriteSector(block: u32, sector: Sector) returns (ok: bool)
      requires Valid() && block < blocks
      modifies this
      ensures Valid() && durable == old(durable)
      ensures || (pending == old(pending) + [SectorWrite(block, sector)] && log == old(log) + [Now()])
              || (!ok && pending == old(pending) && view == old(view) && log == old(log))
      ensures |view| == |old(view)|
      ensures forall b :: 0 <= b < |view| && b != block ==> view[b] == old(view)[b]
      ensures view[block] == old(view)[block] || view[block] == sector + old(view)[block][SECTOR..]
      ensures ok ==> view[block] == sector + old(view)[block][SECTOR..] && pending == old(pending) + [SectorWrite(block, sector)]
      ensures reliable ==> ok
    {
      ok := *;
      ok := ok || reliable;
      var refused := *;
      if !ok && refused {
        return;
      }
      pending := pending + [SectorWrite(block, sector)];
      var seen := *;
      if ok || seen {
        view := view[block := sector + view[block][SECTOR..]];
      }
      log := log + [Snapshot(durable, pending)];
      assert SectorWrite(block, sector) in pending;
      assert forall w :: w in old(pending) ==> w in pending;
    }

    method Flush() returns (ok: bool)
      requires Valid()
      modifies this
      ensures Valid() && view == old(view)
      ensures ok ==> durable == view && pending == [] && log == old(log) + [Now()]
      ensures !ok ==> durable == old(durable) && pending == old(pending) && log == old(log)
      ensures reliable ==> ok
    {
      ok := *;
      ok := ok || reliable;
      if ok {
        durable := view;
        pending := [];
        log := log + [Snapshot(durable, pending)];
      }
    }
  }
}
