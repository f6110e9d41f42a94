/**
 What a clean check establishes: of a tree, that it is intact and owns blocks
 nobody else met; of a volume, that its trees, its map of blocks, its entries
 and its inodes agree.
 */
module AerCheck {
  import opened AerLayout
  import opened AerTree
  import opened AerOwnership
  import opened AerForest
  import opened AerDirs
  import opened LittleEndian
  import opened FileBytes
  import opened AerNames
  import opened AerView

  /** A tree under a pointer, whole on the image and within the volume. */
  ghost predicate Intact(crc: Crc, disk: Image, blocks: nat, ptr: Ptr, n: Node, level: nat) {
    Points(ptr, n) && Sound(crc, n, level) && Stored(disk, n) && forall b :: b in Blocks(n) ==> 2 <= b < blocks
  }

  lemma HoleIntact(crc: Crc, disk: Image, blocks: nat, ptr: Ptr, level: nat)
    requires ptr.block == 0
    ensures Intact(crc, disk, blocks, ptr, Hole, level) && Blocks(Hole) == {}
  {
  }

  lemma LeafIntact(crc: Crc, disk: Image, blocks: nat, ptr: Ptr)
    requires 2 <= ptr.block < blocks && ptr.block < |disk| && crc(disk[ptr.block]) == ptr.crc
    ensures Intact(crc, disk, blocks, ptr, Leaf(ptr, disk[ptr.block]), 0)
    ensures Blocks(Leaf(ptr, disk[ptr.block])) == {ptr.block as nat}
  {
  }

  /** The first children of a node, each intact, with blocks of their own. */
  ghost predicate KidsIntact(crc: Crc, disk: Image, blocks: nat, raw: Block, kids: seq<Node>, level: nat) {
    && |kids| <= FANOUT && Apart(kids)
    && forall i :: 0 <= i < |kids| ==> Intact(crc, disk, blocks, GetPtr(raw, i), kids[i], level)
  }

  lemma KidsNone(crc: Crc, disk: Image, blocks: nat, raw: Block, level: nat)
    ensures KidsIntact(crc, disk, blocks, raw, [], level) && KidBlocks([]) == {}
  {
    NoKids([]);
  }

  lemma KidApart(kids: seq<Node>, kid: Node, i: nat)
    requires i < |kids| && Blocks(kid) !! KidBlocks(kids)
    ensures Blocks(kids[i]) !! Blocks(kid)
  {
    hide Blocks, KidBlocks;
    KidBlocksOf(kids, i);
  }

  lemma ApartMore(kids: seq<Node>, kid: Node)
    requires Apart(kids) && Blocks(kid) !! KidBlocks(kids)
    ensures Apart(kids + [kid])
  {
    hide Blocks, KidBlocks;
    var more := kids + [kid];
    forall i, j | 0 <= i < j < |more| ensures Blocks(more[i]) !! Blocks(more[j]) {
      if j == |kids| {
        KidApart(kids, kid, i);
      }
    }
  }

  lemma KidsMore(crc: Crc, disk: Image, blocks: nat, raw: Block, kids: seq<Node>, level: nat, kid: Node)
    requires KidsIntact(crc, disk, blocks, raw, kids, level) && |kids| < FANOUT
    requires Intact(crc, disk, blocks, GetPtr(raw, |kids|), kid, level) && Blocks(kid) !! KidBlocks(kids)
    ensures KidsIntact(crc, disk, blocks, raw, kids + [kid], level)
    ensures KidBlocks(kids + [kid]) == KidBlocks(kids) + Blocks(kid)
  {
    hide Intact, Blocks, KidBlocks, Apart, GetPtr;
    ApartMore(kids, kid);
    var more := kids + [kid];
    assert more[..|kids|] == kids && more[..|kids| + 1] == more;
    KidBlocksPrefix(more, |kids|);
  }

  lemma InnerIntact(crc: Crc, disk: Image, blocks: nat, ptr: Ptr, kids: seq<Node>, level: nat)
    requires 2 <= ptr.block < blocks && ptr.block < |disk| && crc(disk[ptr.block]) == ptr.crc && level > 0
    requires KidsIntact(crc, disk, blocks, disk[ptr.block], kids, level - 1) && |kids| == FANOUT
    requires ptr.block as nat !in KidBlocks(kids)
    ensures Intact(crc, disk, blocks, ptr, Inner(ptr, disk[ptr.block], kids), level)
    ensures Blocks(Inner(ptr, disk[ptr.block], kids)) == {ptr.block as nat} + KidBlocks(kids)
  {
    hide GetPtr;
    forall b | b in KidBlocks(kids) ensures 2 <= b < blocks {
      var i :| 0 <= i < |kids| && b in Blocks(kids[i]);
    }
  }

  /** Blocks met one after the other are met together. */
  lemma MetMore(seen: set<nat>, a: set<nat>, mid: set<nat>, b: set<nat>, all: set<nat>)
    requires a !! seen && mid == seen + a && b !! mid && all == mid + b
    ensures a + b !! seen && all == seen + (a + b) && b !! a
  {
  }

  lemma IntactUnique(crc: Crc, disk: Image, blocks: nat, ptr: Ptr, m: Node, n: Node, level: nat)
    requires Intact(crc, disk, blocks, ptr, m, level) && Intact(crc, disk, blocks, ptr, n, level)
    ensures m == n
  {
    hide Blocks, Sound, Stored, Points;
    StoredUnique(crc, disk, ptr, m, n, level);
  }

  /** An intact tree's pointer, block and node agree. */
  lemma IntactFacts(crc: Crc, disk: Image, blocks: nat, ptr: Ptr, n: Node, level: nat)
    requires Intact(crc, disk, blocks, ptr, n, level)
    ensures ptr.block == 0 <==> n.Hole?
    ensures ptr.block != 0 ==>
      && 2 <= ptr.block < blocks && ptr.block as nat in Blocks(n) && ptr.block < |disk| && crc(disk[ptr.block]) == ptr.crc
    ensures ptr.block != 0 && level > 0 ==> n.Inner? && n.raw == disk[ptr.block] && |n.kids| == FANOUT
  {
    hide Sound, Stored, Blocks, Points;
    NodeFacts(crc, disk, n, level, ptr);
  }

  /** The next child of an intact node, apart from everything met so far. */
  lemma KidAhead(crc: Crc, disk: Image, blocks: nat, ptr: Ptr, n: Node, level: nat, c: nat, seen: set<nat>)
    requires Intact(crc, disk, blocks, ptr, n, level) && n.Inner? && c < FANOUT && |n.kids| == FANOUT
    requires (Blocks(n) - {ptr.block as nat}) !! seen
    ensures level > 0 && Intact(crc, disk, blocks, GetPtr(n.raw, c), n.kids[c], level - 1)
    ensures Blocks(n.kids[c]) !! seen + KidBlocks(n.kids[..c])
  {
    hide Sound, Stored, Blocks, KidBlocks, Points, GetPtr;
    NodeFacts(crc, disk, n, level, ptr);
    KidFacts(crc, disk, n, level, c);
  }

  // ------------------------------------------------------------ whole volumes

  ghost predicate FileIntact(crc: Crc, disk: Image, blocks: nat, f: File) {
    f.tree.height <= MAX_HEIGHT && Intact(crc, disk, blocks, f.tree.root, f.node, f.tree.height)
  }

  /** Every block the trees of a volume own. */
  ghost function OwnedBy(vol: map<nat, File>): set<nat> {
    set k, b | k in vol && b in Blocks(vol[k].node) :: b
  }

  ghost function Record(vol: map<nat, File>, i: nat): Inode
    requires TABLE in vol
  {
    InodeAt(Content(vol[TABLE]), i)
  }

  /** Inode `i` of the first `n` is in the volume exactly when its record is in use, with the tree it gives. */
  ghost predicate RecordMet(vol: map<nat, File>, i: nat, n: nat)
    requires TABLE in vol
  {
    i != TABLE ==>
      && (i in vol <==> i < n && Record(vol, i).kind != KIND_FREE)
      && (i in vol ==> vol[i].tree == Record(vol, i).tree)
      && (i < n ==> Record(vol, i).tree.height <= MAX_HEIGHT)
  }

  /** The table and the trees of the first `n` inodes: all intact, and no block in two of them. */
  ghost predicate Surveyed(crc: Crc, disk: Image, sb: Super, vol: map<nat, File>, n: nat) {
    && TABLE in vol && vol[TABLE].tree == sb.inodes
    && (forall k :: k in vol ==> FileIntact(crc, disk, sb.blocks, vol[k]))
    && (forall j, k :: j in vol && k in vol && j != k ==> Blocks(vol[j].node) !! Blocks(vol[k].node))
    && (forall i: nat :: RecordMet(vol, i, n))
  }

  /** How many inode numbers a check looks at: those with a whole record, up to the greatest there may be. */
  function Slots(sb: Super): (n: nat)
    ensures 1 <= n <= MAX_INODES + 1
  {
    var slots := sb.inodes.size / INODE_SIZE;
    if slots < 1 then 1 else if slots <= MAX_INODES + 1 then slots else MAX_INODES + 1
  }

  /** The two blocks that no tree owns. */
  function Superblocks(): set<nat> {
    {0, 1}
  }

  lemma TwoSuperblocks()
    ensures |Superblocks()| == 2
  {
    assert Superblocks() == {0 as nat} + {1 as nat};
  }

  ghost function TableOnly(sb: Super, n: Node): map<nat, File> {
    map[TABLE := File(sb.inodes, n)]
  }

  lemma SurveyStart(crc: Crc, disk: Image, sb: Super, n: Node)
    requires sb.inodes.height <= MAX_HEIGHT && Intact(crc, disk, sb.blocks, sb.inodes.root, n, sb.inodes.height)
    ensures var vol := TableOnly(sb, n);
            Surveyed(crc, disk, sb, vol, 1) && OwnedBy(vol) == Blocks(n) && |vol| == 1
  {
    hide Intact, Content, InodeAt, Blocks;
    var vol := TableOnly(sb, n);
    assert vol.Keys == {TABLE};
    forall i: nat ensures RecordMet(vol, i, 1) {
    }
  }

  lemma SurveySkip(crc: Crc, disk: Image, sb: Super, vol: map<nat, File>, n: nat)
    requires Surveyed(crc, disk, sb, vol, n) && n >= 1
    requires Record(vol, n).kind == KIND_FREE && Record(vol, n).tree.height <= MAX_HEIGHT
    ensures Surveyed(crc, disk, sb, vol, n + 1) && n !in vol
  {
    hide FileIntact, Content, InodeAt, Blocks;
    assert RecordMet(vol, n, n);
    var m := n + 1;
    forall i: nat ensures RecordMet(vol, i, m) {
      assert RecordMet(vol, i, n);
    }
  }

  lemma SurveyAdd(crc: Crc, disk: Image, sb: Super, vol: map<nat, File>, n: nat, f: File)
    requires Surveyed(crc, disk, sb, vol, n) && n >= 1
    requires Record(vol, n).kind != KIND_FREE && Record(vol, n).tree == f.tree && FileIntact(crc, disk, sb.blocks, f)
    requires Blocks(f.node) !! OwnedBy(vol)
    ensures n !in vol && Surveyed(crc, disk, sb, vol[n := f], n + 1)
    ensures OwnedBy(vol[n := f]) == OwnedBy(vol) + Blocks(f.node) && |vol[n := f]| == |vol| + 1
  {
    hide Intact, Content, InodeAt, Blocks;
    assert RecordMet(vol, n, n);
    var more, m := vol[n := f], n + 1;
    forall i: nat ensures RecordMet(more, i, m) {
      assert RecordMet(vol, i, n);
    }
    forall k | k in vol ensures Blocks(vol[k].node) <= OwnedBy(vol) && more[k] == vol[k] {
    }
    OwnedMore(vol, n, f);
    assert more.Keys == vol.Keys + {n};
  }

  lemma OwnedMore(vol: map<nat, File>, n: nat, f: File)
    requires n !in vol
    ensures OwnedBy(vol[n := f]) == OwnedBy(vol) + Blocks(f.node)
  {
    hide Blocks;
    var more := vol[n := f];
    forall b ensures b in OwnedBy(more) <==> b in OwnedBy(vol) || b in Blocks(f.node) {
      if b in OwnedBy(vol) {
        var k :| k in vol && b in Blocks(vol[k].node);
        assert k in more && more[k] == vol[k];
      }
      if b in Blocks(f.node) {
        assert n in more && more[n] == f;
      }
    }
  }

  /** What an image holds is determined by the image. */
  lemma SurveyUnique(crc: Crc, disk: Image, sb: Super, a: map<nat, File>, b: map<nat, File>, n: nat)
    requires Surveyed(crc, disk, sb, a, n) && Surveyed(crc, disk, sb, b, n)
    ensures a == b
  {
    hide Content, InodeAt, Blocks, Sound, Stored, Points;
    SameFile(crc, disk, sb.blocks, a[TABLE], b[TABLE]);
    forall k: nat ensures (k in a <==> k in b) && (k in a ==> a[k] == b[k]) {
      assert RecordMet(a, k, n) && RecordMet(b, k, n);
      if k in a && k in b {
        SameFile(crc, disk, sb.blocks, a[k], b[k]);
      }
    }
  }

  lemma SameFile(crc: Crc, disk: Image, blocks: nat, f: File, g: File)
    requires FileIntact(crc, disk, blocks, f) && FileIntact(crc, disk, blocks, g) && f.tree == g.tree
    ensures f == g
  {
    hide Blocks, Sound, Stored, Points;
    StoredUnique(crc, disk, f.tree.root, f.node, g.node, f.tree.height);
  }

  /** The table and the first `n` inodes of a volume. */
  ghost function Prefix(vol: map<nat, File>, n: nat): map<nat, File> {
    map k | k in vol && (k == TABLE || k < n) :: vol[k]
  }

  lemma SurveyPrefix(crc: Crc, disk: Image, sb: Super, vol: map<nat, File>, n: nat, end: nat)
    requires Surveyed(crc, disk, sb, vol, end) && n <= end
    ensures Surveyed(crc, disk, sb, Prefix(vol, n), n)
    ensures n == end ==> Prefix(vol, n) == vol
    ensures n in vol && n != TABLE ==> Blocks(vol[n].node) !! OwnedBy(Prefix(vol, n))
  {
    hide FileIntact, Content, InodeAt, Blocks;
    var part := Prefix(vol, n);
    forall i: nat ensures RecordMet(part, i, n) {
      assert RecordMet(vol, i, end);
    }
    if n == end {
      forall k | k in vol ensures k in part {
        assert RecordMet(vol, k, end);
      }
    }
  }

  /** The next inode of a volume, when those before it are known. */
  lemma InodeAhead(crc: Crc, disk: Image, sb: Super, vol: map<nat, File>, end: nat, found: map<nat, File>, n: nat, seen: set<nat>)
    requires Surveyed(crc, disk, sb, vol, end) && Surveyed(crc, disk, sb, found, n) && 1 <= n < end
    requires seen == Superblocks() + OwnedBy(found)
    ensures found[TABLE] == vol[TABLE] && Record(vol, n).tree.height <= MAX_HEIGHT
    ensures Record(vol, n).kind != KIND_FREE ==>
      && n in vol && vol[n].tree == Record(vol, n).tree && FileIntact(crc, disk, sb.blocks, vol[n])
      && Blocks(vol[n].node) !! seen
  {
    hide Intact, Content, InodeAt, Blocks;
    SurveyPrefix(crc, disk, sb, vol, n, end);
    SurveyUnique(crc, disk, sb, found, Prefix(vol, n), n);
    assert RecordMet(vol, n, end);
    if n in vol {
      IntactBounds(crc, disk, sb.blocks, vol[n]);
    }
  }

  lemma IntactBounds(crc: Crc, disk: Image, blocks: nat, f: File)
    requires FileIntact(crc, disk, blocks, f)
    ensures 0 !in Blocks(f.node) && 1 !in Blocks(f.node)
  {
    hide Blocks, Sound, Stored, Points;
  }

  /** Every record of a surveyed table gives a height a tree may have. */
  lemma RecordHeights(crc: Crc, disk: Image, sb: Super, vol: map<nat, File>, i: nat)
    requires Surveyed(crc, disk, sb, vol, Slots(sb)) && 1 <= i <= MAX_INODES
    ensures Record(vol, i).tree.height <= MAX_HEIGHT
  {
    hide FileIntact, Blocks, DecodeInode;
    assert RecordMet(vol, i, Slots(sb));
  }

  // ------------------------------------------------------------------ entries

  /** An entry in use names a record of its kind that gives the directory as its parent. */
  ghost predicate EntryAgrees(vol: map<nat, File>, d: nat, e: Entry)
    requires TABLE in vol
  {
    e.ino != 0 ==> e.ino <= MAX_INODES && Record(vol, e.ino).kind == e.kind && Record(vol, e.ino).parent == d
  }

  ghost predicate Directory(vol: map<nat, File>, d: nat)
    requires TABLE in vol
  {
    d in vol && d != TABLE && Record(vol, d).kind == KIND_DIRECTORY
  }

  /** The slot before slot `k`, left in the buffer slot `k` is read into. */
  ghost function Carried(data: seq<byte>, k: nat): (s: seq<byte>)
    requires DIR_ENTRY * k <= |data|
    ensures |s| == DIR_ENTRY && (k == 0 ==> s == Zeros(DIR_ENTRY))
  {
    if k == 0 then Zeros(DIR_ENTRY) else data[DIR_ENTRY * (k - 1)..DIR_ENTRY * k]
  }

  /** Slot `k` as a check reads it: the last one, if it is cut short, keeps the end of the one before. */
  ghost function SlotAt(data: seq<byte>, k: nat): Entry
    requires DIR_ENTRY * k < |data|
  {
    var s := Slice(data, DIR_ENTRY * k, DIR_ENTRY);
    DecodeEntry(s + Carried(data, k)[|s|..])
  }

  /** The first `n` slots of a directory agree with the records. */
  ghost predicate SlotsAgree(vol: map<nat, File>, d: nat, n: nat)
    requires TABLE in vol && d in vol
  {
    var data := Content(vol[d]);
    forall k: nat :: k < n && DIR_ENTRY * k < |data| ==> EntryAgrees(vol, d, SlotAt(data, k))
  }

  ghost predicate DirAgrees(vol: map<nat, File>, d: nat)
    requires TABLE in vol && d in vol
  {
    var data := Content(vol[d]);
    forall k: nat :: DIR_ENTRY * k < |data| ==> EntryAgrees(vol, d, SlotAt(data, k))
  }

  /** Some slot of directory `d`, in use, names inode `i`. */
  ghost predicate Lists(vol: map<nat, File>, d: nat, i: nat)
    requires d in vol
  {
    var data := Content(vol[d]);
    i != 0 && exists k: nat :: DIR_ENTRY * k < |data| && SlotAt(data, k).ino == i
  }

  /** An inode that some directory below `n` names. */
  ghost predicate Named(vol: map<nat, File>, i: nat, n: nat)
    requires TABLE in vol
  {
    exists d: nat :: d < n && Directory(vol, d) && Lists(vol, d, i)
  }

  /** The directories below `n` agree with the records. */
  ghost predicate DirsAgree(vol: map<nat, File>, n: nat)
    requires TABLE in vol
  {
    forall d: nat :: d < n && Directory(vol, d) ==> DirAgrees(vol, d)
  }

  /** Every inode a directory below `n` names is in the set. */
  ghost predicate AllReached(vol: map<nat, File>, reachable: set<nat>, n: nat)
    requires TABLE in vol
  {
    forall i: nat :: Named(vol, i, n) ==> i in reachable
  }

  /** Nothing is in the set but the root and inodes that directories below `n` name. */
  ghost predicate OnlyNamed(vol: map<nat, File>, reachable: set<nat>, n: nat)
    requires TABLE in vol
  {
    forall i: nat :: i in reachable ==> i == ROOT_INO || Named(vol, i, n)
  }

  /** Every inode below `n` but the root is in the set. */
  ghost predicate NoOrphan(vol: map<nat, File>, reachable: set<nat>, n: nat) {
    forall i: nat :: 2 <= i < n && i in vol ==> i in reachable
  }

  /** What a directory adds to a set of inodes: those it names. */
  ghost predicate Brings(vol: map<nat, File>, d: nat, before: set<nat>, after: set<nat>)
    requires d in vol
  {
    forall i: nat :: i in after ==> i in before || Lists(vol, d, i)
  }

  ghost predicate Covers(vol: map<nat, File>, d: nat, reachable: set<nat>)
    requires d in vol
  {
    forall i: nat :: Lists(vol, d, i) ==> i in reachable
  }

  lemma NamesNone(vol: map<nat, File>, root: nat)
    requires TABLE in vol && root == ROOT_INO
    ensures OnlyNamed(vol, {root}, 1) && DirsAgree(vol, 1) && AllReached(vol, {root}, 1)
  {
    hide Lists, DirAgrees, Content, InodeAt;
  }

  lemma NamedStep(vol: map<nat, File>, i: nat, n: nat)
    requires TABLE in vol
    ensures Named(vol, i, n + 1) <==> Named(vol, i, n) || (Directory(vol, n) && Lists(vol, n, i))
  {
    hide Lists, Content, InodeAt;
    if Directory(vol, n) && Lists(vol, n, i) {
      assert Named(vol, i, n + 1);
    }
    if Named(vol, i, n) {
      var d: nat :| d < n && Directory(vol, d) && Lists(vol, d, i);
      assert Named(vol, i, n + 1);
    }
  }

  lemma OnlyNamedMore(vol: map<nat, File>, reachable: set<nat>, n: nat)
    requires TABLE in vol && OnlyNamed(vol, reachable, n)
    ensures OnlyNamed(vol, reachable, n + 1)
  {
    hide Named;
    var m := n + 1;
    forall i: nat | i in reachable ensures i == ROOT_INO || Named(vol, i, m) {
      NamedStep(vol, i, n);
    }
  }

  /** One inode more: what its entries, if it is a directory, add to the names known. */
  lemma NamesStep(vol: map<nat, File>, n: nat, before: set<nat>, after: set<nat>)
    requires TABLE in vol && before <= after && (Directory(vol, n) || before == after)
    ensures OnlyNamed(vol, before, n) && (Directory(vol, n) ==> Brings(vol, n, before, after)) ==>
      OnlyNamed(vol, after, n + 1)
    ensures AllReached(vol, before, n) && (Directory(vol, n) ==> Covers(vol, n, after)) ==> AllReached(vol, after, n + 1)
    ensures DirsAgree(vol, n) && (Directory(vol, n) ==> DirAgrees(vol, n)) ==> DirsAgree(vol, n + 1)
  {
    hide Named, Lists, DirAgrees, Content, InodeAt;
    forall i: nat ensures Named(vol, i, n + 1) <==> Named(vol, i, n) || (Directory(vol, n) && Lists(vol, n, i)) {
      NamedStep(vol, i, n);
    }
  }

  lemma OneDirectory(vol: map<nat, File>, d: nat, n: nat)
    requires TABLE in vol && d < n && DirsAgree(vol, n)
    ensures Directory(vol, d) ==> DirAgrees(vol, d)
  {
    hide DirAgrees, Content, InodeAt;
  }

  /** Reading slot `k` into the buffer that holds the slot before. */
  lemma SlotRead(data: seq<byte>, k: nat, buffer: seq<byte>, filled: seq<byte>)
    requires |buffer| == |filled| == DIR_ENTRY && DIR_ENTRY * k < |data| && buffer == Carried(data, k)
    requires var s := Slice(data, DIR_ENTRY * k, DIR_ENTRY); |s| <= DIR_ENTRY && filled == s + buffer[|s|..]
    ensures DecodeEntry(filled) == SlotAt(data, k)
    ensures DIR_ENTRY * (k + 1) <= |data| ==> filled == Carried(data, k + 1)
  {
    hide DecodeEntry;
  }

  /** Every slot of a directory that is whole slots is one of its entries. */
  lemma SlotIsEntry(data: seq<byte>, k: nat)
    requires |data| % DIR_ENTRY == 0
    ensures DIR_ENTRY * k < |data| <==> k < |Entries(data)|
    ensures DIR_ENTRY * k < |data| ==> SlotAt(data, k) == Entries(data)[k]
  {
    hide DecodeEntry;
    if DIR_ENTRY * k < |data| {
      assert DIR_ENTRY * k + DIR_ENTRY <= |data|;
      var s := Slice(data, DIR_ENTRY * k, DIR_ENTRY);
      assert s == data[DIR_ENTRY * k..DIR_ENTRY * k + DIR_ENTRY] && s + Carried(data, k)[|s|..] == s;
    }
  }

  /** What a check of a volume looks for: trees, the map of blocks in use, entries and inodes without one. */
  ghost predicate Audited(crc: Crc, disk: Image, sb: Super, used: set<nat>, vol: map<nat, File>) {
    && Surveyed(crc, disk, sb, vol, Slots(sb))
    && used == Superblocks() + OwnedBy(vol)
    && DirsAgree(vol, Slots(sb))
    && AllNamed(vol, Slots(sb))
  }

  lemma AuditedSurvey(crc: Crc, disk: Image, sb: Super, used: set<nat>, vol: map<nat, File>)
    requires Audited(crc, disk, sb, used, vol)
    ensures Surveyed(crc, disk, sb, vol, Slots(sb))
  {
  }

  /** Every inode but the root has an entry in a directory below `n`. */
  ghost predicate AllNamed(vol: map<nat, File>, n: nat)
    requires TABLE in vol
  {
    forall i: nat :: i in vol && i != TABLE && i != ROOT_INO ==> Named(vol, i, n)
  }

  lemma NamedIfNoOrphan(crc: Crc, disk: Image, sb: Super, vol: map<nat, File>, reachable: set<nat>)
    requires Surveyed(crc, disk, sb, vol, Slots(sb)) && OnlyNamed(vol, reachable, Slots(sb))
    requires NoOrphan(vol, reachable, Slots(sb))
    ensures AllNamed(vol, Slots(sb))
  {
    hide FileIntact, Blocks, Content, InodeAt, Named, Slots;
    var n := Slots(sb);
    forall i: nat | i in vol && i != TABLE && i != ROOT_INO ensures Named(vol, i, n) {
      assert RecordMet(vol, i, n);
    }
  }

  lemma NoOrphanIfNamed(vol: map<nat, File>, reachable: set<nat>, n: nat)
    requires TABLE in vol && AllNamed(vol, n) && AllReached(vol, reachable, n)
    ensures NoOrphan(vol, reachable, n)
  {
    hide Named;
  }

  /** Two sets of blocks within a volume that agree on every block of it. */
  lemma SameMap(crc: Crc, disk: Image, sb: Super, vol: map<nat, File>, used: set<nat>)
    requires Surveyed(crc, disk, sb, vol, Slots(sb)) && sb.blocks >= 2
    requires forall b :: b in used ==> b < sb.blocks
    requires forall b: nat :: b < sb.blocks ==> (b in Superblocks() + OwnedBy(vol) <==> b in used)
    ensures used == Superblocks() + OwnedBy(vol)
  {
    hide Content, InodeAt, Blocks, Sound, Stored, Points, Slots;
    forall b | b in Superblocks() + OwnedBy(vol) ensures b < sb.blocks {
    }
  }

  // -------------------------------------------------- volumes the calls leave

  /** A volume stored whole, as a check surveys it. */
  lemma WholeSurvey(crc: Crc, disk: Image, live: set<nat>, sb: Super, vol: map<nat, File>)
    requires Whole(crc, disk, live, sb, vol)
    ensures Surveyed(crc, disk, sb, vol, Slots(sb)) && OwnedBy(vol) == live
  {
    hide Sound, Stored, ZeroPast, Points, Blocks, Content, InodeAt, Linked;
    LinkedTable(vol);
    var n := Slots(sb);
    forall i: nat ensures RecordMet(vol, i, n) {
      if i != TABLE {
        WholeMet(crc, disk, live, sb, vol, i);
      }
    }
  }

  lemma WholeMet(crc: Crc, disk: Image, live: set<nat>, sb: Super, vol: map<nat, File>, i: nat)
    requires Whole(crc, disk, live, sb, vol) && i != TABLE
    ensures RecordMet(vol, i, Slots(sb))
  {
    hide Owned, Content, InodeAt, Slots;
    WholeRecord(crc, disk, live, sb, vol, i);
    if i in vol {
      SlotsEnough(sb);
      KeysBounded(vol, i, Slots(sb));
    }
  }

  lemma SlotsEnough(sb: Super)
    ensures Slots(sb) >= sb.inodes.size / INODE_SIZE || Slots(sb) > MAX_INODES
  {
  }

  /** The shape every call keeps has entries and inodes agree. */
  lemma ShapeAgrees(vol: map<nat, File>, n: nat)
    requires Linked(vol) && Shape(View(vol), 0) && forall k :: k in vol ==> k < n
    ensures DirsAgree(vol, n) && AllNamed(vol, n)
  {
    hide Linked, Shape, View, DirAgrees, Named, Content, InodeAt;
    LinkedTable(vol);
    forall d: nat | d < n && Directory(vol, d) ensures DirAgrees(vol, d) {
      ShapeDir(vol, d);
    }
    forall i: nat | i in vol && i != TABLE && i != ROOT_INO ensures Named(vol, i, n) {
      ShapeNamed(vol, i, n);
    }
  }

  /** A volume stored whole, in the shape every call keeps, passes a check. */
  lemma WholeAudited(crc: Crc, disk: Image, live: set<nat>, sb: Super, used: set<nat>, vol: map<nat, File>)
    requires Whole(crc, disk, live, sb, vol) && TABLE in vol && Shape(View(vol), 0)
    requires live == used - Superblocks() && Superblocks() <= used
    ensures Audited(crc, disk, sb, used, vol) && |View(vol)| == |vol| - 1
  {
    hide Owned, Linked, Shape, Surveyed, Slots, Superblocks, DirsAgree, AllNamed, OwnedBy, Content, InodeAt;
    WholeSurvey(crc, disk, live, sb, vol);
    SlotsEnough(sb);
    forall k | k in vol ensures k < Slots(sb) {
      KeysBounded(vol, k, Slots(sb));
    }
    ShapeAgrees(vol, Slots(sb));
    assert View(vol).Keys == vol.Keys - {TABLE};
  }

  lemma ShapeDir(vol: map<nat, File>, d: nat)
    requires Linked(vol) && Shape(View(vol), 0) && Directory(vol, d)
    ensures DirAgrees(vol, d)
  {
    hide Linked, View, Content, InodeAt, SlotAt, Entries, Rooted, Distinct;
    LinkedTable(vol);
    var fs, data := View(vol), Content(vol[d]);
    ViewAt(vol, d);
    assert IsDir(fs, d) && DirOk(fs[d].data);
    forall k: nat | DIR_ENTRY * k < |data| ensures EntryAgrees(vol, d, SlotAt(data, k)) {
      SlotIsEntry(data, k);
      var e := SlotAt(data, k);
      if e.ino != 0 {
        assert e in Listing(fs, d);
        assert EntryOk(fs, d, e, 0);
        ViewAt(vol, e.ino);
      }
    }
  }

  lemma ShapeNamed(vol: map<nat, File>, i: nat, n: nat)
    requires Linked(vol) && Shape(View(vol), 0) && forall k :: k in vol ==> k < n
    requires i in vol && i != TABLE && i != ROOT_INO
    ensures Named(vol, i, n)
  {
    hide Linked, View, Content, InodeAt, SlotAt, Entries, Rooted, Distinct;
    LinkedTable(vol);
    var fs := View(vol);
    ViewAt(vol, i);
    assert HasName(fs, i) && ParentOk(fs, i);
    var d: nat := fs[i].parent;
    assert IsDir(fs, d) && DirOk(fs[d].data);
    ViewAt(vol, d);
    var e :| e in Listing(fs, d) && e.ino == i;
    var data := Content(vol[d]);
    var k :| 0 <= k < |Entries(data)| && Entries(data)[k] == e;
    SlotIsEntry(data, k);
    assert Lists(vol, d, i);
  }
}
