/**
 Which superblock a mount takes when a slot cannot be read: the newest one
 exactly when its own slot can be, and otherwise the older one, whose volume is
 still there as long as none of its blocks has been written again.
 */
module AerSlots {
  import opened Options
  import opened LittleEndian
  import opened AerLayout
  import opened AerTree
  import opened AerOwnership
  import opened FileBytes
  import opened AerForest
  import opened AerNames
  import opened AerCalls
  import opened AerView

  // ------------------------------------------------------------- the choice

  /** The superblock in a slot that can be read. */
  ghost function SlotCandidate(crc: Crc, img: Image, readable: set<nat>, slot: nat): Option<Super>
    requires |img| >= 2 && slot < 2
  {
    if slot in readable then Candidate(crc, |img|, img[slot][..SECTOR]) else None
  }

  /** The superblock a mount of `img` takes when it can read these slots. */
  ghost function PickAmong(crc: Crc, img: Image, readable: set<nat>): Option<Super>
    requires |img| >= 2
  {
    Newer(SlotCandidate(crc, img, readable, 0), SlotCandidate(crc, img, readable, 1))
  }

  /** It is in a slot that can be read, and none in such a slot is newer. */
  lemma PickedNewest(crc: Crc, img: Image, readable: set<nat>)
    requires |img| >= 2
    ensures PickAmong(crc, img, readable).None? <==>
      forall slot: nat :: slot < 2 ==> SlotCandidate(crc, img, readable, slot).None?
    ensures PickAmong(crc, img, readable).Some? ==>
      && (exists slot: nat :: slot < 2 && SlotCandidate(crc, img, readable, slot) == PickAmong(crc, img, readable))
      && forall slot: nat :: slot < 2 && SlotCandidate(crc, img, readable, slot).Some? ==>
           SlotCandidate(crc, img, readable, slot).value.generation <= PickAmong(crc, img, readable).value.generation
  {
    hide Candidate;
    var a, b := SlotCandidate(crc, img, readable, 0), SlotCandidate(crc, img, readable, 1);
  }

  /** The current superblock is the one taken exactly when its slot can be read. */
  lemma CurrentTaken(crc: Crc, img: Image, sb: Super, readable: set<nat>)
    requires SlotsOk(crc, img, sb)
    ensures PickAmong(crc, img, readable) == Some(sb) <==> sb.generation % 2 in readable
    ensures sb.generation % 2 !in readable ==>
      PickAmong(crc, img, readable) == SlotCandidate(crc, img, readable, 1 - sb.generation % 2)
  {
    hide Candidate;
  }

  // ------------------------------------------------------- the older volume

  lemma {:induction false} StoredBlocks(a: Image, b: Image, n: Node)
    requires Stored(a, n) && Stored(b, n) && |a| == |b|
    ensures Kept(a, b, Blocks(n))
    decreases n
  {
    if n.Inner? {
      forall x | x in KidBlocks(n.kids) && x < |a| ensures b[x] == a[x] {
        var i :| 0 <= i < |n.kids| && x in Blocks(n.kids[i]);
        StoredBlocks(a, b, n.kids[i]);
      }
    }
  }

  /** A volume is still whole exactly as long as each of its blocks holds what it held. */
  lemma StillWhole(crc: Crc, a: Image, b: Image, live: set<nat>, sb: Super, files: map<nat, File>)
    requires Whole(crc, a, live, sb, files) && |a| == |b|
    ensures Whole(crc, b, live, sb, files) <==> Kept(a, b, live)
  {
    hide Blocks, Stored, FileOk, Linked;
    if Kept(a, b, live) {
      OwnedFrame(crc, a, b, live, files);
    }
    if Whole(crc, b, live, sb, files) {
      forall x | x in live && x < |a| ensures b[x] == a[x] {
        var k :| k in files && x in Blocks(files[k].node);
        StoredBlocks(a, b, files[k].node);
      }
    }
  }

  /**
   After a commit, while the blocks of the current volume stay, the volume
   before it is whole exactly as long as no block that the commit freed has
   been given other contents.
   */
  lemma OlderStillWhole(crc: Crc, a: Image, b: Image, sb: Super, files: map<nat, File>, live: set<nat>,
                        older: Super, before: map<nat, File>, was: set<nat>)
    requires Whole(crc, a, live, sb, files) && Whole(crc, a, was, older, before) && |a| == |b|
    requires Whole(crc, b, live, sb, files)
    ensures Whole(crc, b, was, older, before) <==> Kept(a, b, was - live)
  {
    hide Whole;
    StillWhole(crc, a, b, live, sb, files);
    StillWhole(crc, a, b, was, older, before);
    assert was == (was - live) + (was * live);
  }

  /** A volume's blocks are those its files own, on every image that holds it. */
  lemma SameBlocks(crc: Crc, a: Image, b: Image, live: set<nat>, live': set<nat>, sb: Super, files: map<nat, File>)
    requires Whole(crc, a, live, sb, files) && Whole(crc, b, live', sb, files)
    ensures live == live'
  {
    hide Blocks, Stored, FileOk, Linked;
  }

  /**
   The older volume is mounted over the newer one, its slot unread. As long as
   the slots are not written, a mount that can read both picks the newer one,
   and finds it exactly as long as none of the blocks only it uses, which the
   older volume counts as free, has been written.
   */
  lemma NewerAtRisk(crc: Crc, a: Image, b: Image, sb: Super, files: map<nat, File>, live: set<nat>,
                    older: Super, before: map<nat, File>, was: set<nat>)
    requires SlotsOk(crc, a, sb) && Whole(crc, a, live, sb, files) && Whole(crc, a, was, older, before)
    requires |a| == |b| && a[0][..SECTOR] == b[0][..SECTOR] && a[1][..SECTOR] == b[1][..SECTOR]
    requires Whole(crc, b, was, older, before)
    ensures PickAmong(crc, b, {0, 1}) == Some(sb)
    ensures Mounts(crc, b, sb, files) <==> Kept(a, b, live - was)
  {
    hide Whole, Candidate;
    CurrentTaken(crc, b, sb, {0, 1});
    StillWhole(crc, a, b, live, sb, files);
    StillWhole(crc, a, b, was, older, before);
    assert live == (live - was) + (live * was);
    if Mounts(crc, b, sb, files) {
      var live' :| Whole(crc, b, live', sb, files);
      SameBlocks(crc, a, b, live, live', sb, files);
    }
  }

  /** The next commit after such a mount takes the newer superblock's slot and generation, and ends the risk. */
  lemma RiskEnds(crc: Crc, a: Image, b: Image, older: Super, next: Super)
    requires 2 <= |a| == |b| && Candidate(crc, |a|, a[older.generation % 2][..SECTOR]) == Some(older)
    requires next.generation == older.generation + 1 && |next.volumeLabel| == 16 && next.inodes.height <= MAX_HEIGHT
    requires 16 <= next.blocks <= |a| && next.blocks <= MAX_BLOCKS
    requires var slot := next.generation % 2;
             b[slot][..SECTOR] == EncodeSuper(crc, next) && b[1 - slot][..SECTOR] == a[1 - slot][..SECTOR]
    ensures SlotsOk(crc, b, next)
  {
    hide EncodeSuper, DecodeSuper;
    SuperRoundTrip(crc, next);
  }

  // ----------------------------------------------------------- an example

  ghost function RootInode(mode: u16): Inode {
    Inode(KIND_DIRECTORY, false, mode, ROOT_INO, 0, EMPTY_TREE)
  }

  /** An inode table with a root directory that has these permissions. */
  ghost function RootTable(mode: u16): (b: Block)
    ensures b[..2 * INODE_SIZE] == Zeros(INODE_SIZE) + EncodeInode(RootInode(mode))
    ensures forall i :: 2 * INODE_SIZE <= i < BLOCK ==> b[i] == 0
  {
    Zeros(INODE_SIZE) + EncodeInode(RootInode(mode)) + Zeros(BLOCK - 2 * INODE_SIZE)
  }

  ghost function RootFile(crc: Crc, block: u32, mode: u16): File {
    var ptr := Ptr(block, crc(RootTable(mode)));
    File(Tree(2 * INODE_SIZE, 0, ptr), Leaf(ptr, RootTable(mode)))
  }

  ghost function RootFiles(crc: Crc, block: u32, mode: u16): map<nat, File> {
    map[TABLE := RootFile(crc, block, mode), ROOT_INO as nat := EMPTY_FILE]
  }

  lemma RootContent(crc: Crc, block: u32, mode: u16)
    ensures Content(RootFile(crc, block, mode)) == Overwrite([], INODE_SIZE, EncodeInode(RootInode(mode)))
    ensures ZeroPast(RootFile(crc, block, mode))
  {
    hide EncodeInode;
    var f, b := RootFile(crc, block, mode), RootTable(mode);
    forall pos: nat ensures ByteAt(f.node, 0, pos) == if pos < BLOCK then b[pos] else 0 {}
    var c, o := Content(f), Overwrite([], INODE_SIZE, EncodeInode(RootInode(mode)));
    forall i | 0 <= i < 2 * INODE_SIZE ensures c[i] == o[i] {
      assert b[i] == b[..2 * INODE_SIZE][i];
    }
  }

  /** A volume that holds nothing but its root. */
  lemma RootVolume(crc: Crc, img: Image, block: u32, mode: u16, sb: Super)
    requires 2 <= block < |img| && block < sb.blocks && img[block] == RootTable(mode)
    requires sb.inodes == RootFile(crc, block, mode).tree
    ensures var files := RootFiles(crc, block, mode);
            && Whole(crc, img, {block as nat}, sb, files)
            && View(files) == map[ROOT_INO as nat := Meta(KIND_DIRECTORY, false, mode, ROOT_INO, 0, [])]
            && Shape(View(files), 0)
  {
    hide EncodeInode, Content, View, Shape, ZeroPast, Linked, RootTable;
    var blank: map<nat, File>, t := map[TABLE := EMPTY_FILE], RootFile(crc, block, mode);
    var files := RootFiles(crc, block, mode);
    EmptyVolume(crc, img, blank);
    EmptyView(blank);
    EmptyContent();
    RootContent(crc, block, mode);
    assert files == blank[ROOT_INO as nat := EMPTY_FILE][TABLE := t];
    AddLinks(blank, ROOT_INO, RootInode(mode), t, files);
    RootShape(View(files), mode, 0);
    assert FileOk(crc, EMPTY_FILE) by { assert FileOk(crc, blank[TABLE]); }
    assert Blocks(t.node) == {block as nat};
    assert files[TABLE] == t && block as nat in Blocks(files[TABLE].node);
  }

  ghost function RootSuper(crc: Crc, generation: u64, block: u32, mode: u16): Super {
    Super(generation, 16, RootFile(crc, block, mode).tree, Zeros(16))
  }

  ghost function RootSlot(crc: Crc, generation: u64, block: u32, mode: u16): Block {
    EncodeSuper(crc, RootSuper(crc, generation, block, mode)) + Zeros(BLOCK - SECTOR)
  }

  /** Generation 1 in slot 1 with its table in block 2, generation 2 in slot 0 with its table in block 3. */
  ghost function TwoGenerations(crc: Crc): Image {
    seq(16, b => GenerationBlock(crc, b))
  }

  ghost function GenerationBlock(crc: Crc, b: int): Block {
    match b
    case 0 => RootSlot(crc, 2, 3, 448)
    case 1 => RootSlot(crc, 1, 2, 493)
    case 2 => RootTable(493)
    case 3 => RootTable(448)
    case _ => ZERO_BLOCK
  }

  lemma SuperIn(crc: Crc, generation: u64, block: u32, mode: u16)
    requires generation <= 2
    ensures Candidate(crc, 16, RootSlot(crc, generation, block, mode)[..SECTOR])
         == Some(RootSuper(crc, generation, block, mode))
  {
    hide EncodeSuper, DecodeSuper, RootTable;
    var sb := RootSuper(crc, generation, block, mode);
    SuperRoundTrip(crc, sb);
    assert RootSlot(crc, generation, block, mode)[..SECTOR] == EncodeSuper(crc, sb);
  }

  /** The newer superblock is current there; the older one is in the other slot. */
  lemma TwoSlots(crc: Crc)
    ensures var img, newer, older := TwoGenerations(crc), RootSuper(crc, 2, 3, 448), RootSuper(crc, 1, 2, 493);
            SlotsOk(crc, img, newer) && PickAmong(crc, img, {1}) == Some(older)
  {
    hide RootSlot, EncodeSuper, DecodeSuper, RootTable, Candidate;
    SuperIn(crc, 2, 3, 448);
    SuperIn(crc, 1, 2, 493);
    CurrentTaken(crc, TwoGenerations(crc), RootSuper(crc, 2, 3, 448), {1});
  }

  /**
   An image as a fresh volume has it after one change of the root's permissions:
   the newer generation is current, but when its slot cannot be read the older
   one is taken. Its volume is whole, and another.
   */
  lemma OlderTaken(crc: Crc)
    ensures var img, newer, older := TwoGenerations(crc), RootSuper(crc, 2, 3, 448), RootSuper(crc, 1, 2, 493);
            var files, before := RootFiles(crc, 3, 448), RootFiles(crc, 2, 493);
            && Mounts(crc, img, newer, files) && Shape(View(files), 0)
            && PickAmong(crc, img, {1}) == Some(older)
            && Whole(crc, img, {2}, older, before) && Shape(View(before), 0)
            && View(files) != View(before) && Ok(Change(View(files), ROOT_INO)) == SetMode(View(before), ROOT_INO, 448)
  {
    hide RootSlot, EncodeSuper, DecodeSuper, RootTable, View, Shape, Whole, Candidate, SlotsOk, PickAmong;
    var img := TwoGenerations(crc);
    TwoSlots(crc);
    RootVolume(crc, img, 3, 448, RootSuper(crc, 2, 3, 448));
    RootVolume(crc, img, 2, 493, RootSuper(crc, 1, 2, 493));
    var files, before := RootFiles(crc, 3, 448), RootFiles(crc, 2, 493);
    var root: nat := ROOT_INO;
    assert View(files)[root].mode != View(before)[root].mode;
    assert View(files) == View(before)[root := View(before)[root].(mode := 448)];
  }

  /**
   The same image after a mount of the older volume and one write to block 3,
   free in that volume: with both slots readable again the newer superblock is
   picked, and its volume is not there.
   */
  lemma NewerLost(crc: Crc, written: Block)
    requires written != RootTable(448)
    ensures var img := TwoGenerations(crc)[3 := written];
            var newer, older := RootSuper(crc, 2, 3, 448), RootSuper(crc, 1, 2, 493);
            && Whole(crc, img, {2}, older, RootFiles(crc, 2, 493))
            && PickAmong(crc, img, {0, 1}) == Some(newer) && !Mounts(crc, img, newer, RootFiles(crc, 3, 448))
  {
    hide RootSlot, EncodeSuper, DecodeSuper, RootTable, View, Shape, Whole, Candidate, SlotsOk, PickAmong, Mounts;
    var img, later := TwoGenerations(crc), TwoGenerations(crc)[3 := written];
    var newer, older := RootSuper(crc, 2, 3, 448), RootSuper(crc, 1, 2, 493);
    TwoSlots(crc);
    RootVolume(crc, img, 3, 448, newer);
    RootVolume(crc, img, 2, 493, older);
    RootVolume(crc, later, 2, 493, older);
    NewerAtRisk(crc, img, later, newer, RootFiles(crc, 3, 448), {3}, older, RootFiles(crc, 2, 493), {2});
  }
}
