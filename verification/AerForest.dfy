/**
 A volume as a set of trees: the inode table under key 0 and one tree per live
 inode. Says which blocks they own, that they are stored, what bytes they hold
 and which superblock a mount would choose.
 */
module AerForest {
  import opened Options
  import opened LittleEndian
  import opened AerLayout
  import opened AerTree
  import opened AerOwnership
  import opened FileBytes

  datatype File = File(tree: Tree, node: Node)

  const TABLE: nat := 0
  const EMPTY_FILE := File(EMPTY_TREE, Hole)

  /** A tree header that fits its tree; nothing but zeros past the end. */
  ghost predicate FileOk(crc: Crc, f: File) {
    && f.tree.height <= MAX_HEIGHT
    && Points(f.tree.root, f.node)
    && Sound(crc, f.node, f.tree.height)
    && ZeroPast(f)
  }

  ghost function Content(f: File): (c: seq<byte>)
    ensures |c| == f.tree.size
    ensures forall pos :: 0 <= pos < |c| ==> c[pos] == ByteAt(f.node, f.tree.height, pos)
  {
    seq(f.tree.size, pos requires 0 <= pos => ByteAt(f.node, f.tree.height, pos))
  }

  /** `files` partition exactly the blocks of `live`, and `disk` stores them all. */
  ghost predicate Owned(crc: Crc, disk: Image, live: set<nat>, files: map<nat, File>) {
    && (forall k :: k in files ==>
          && FileOk(crc, files[k])
          && Stored(disk, files[k].node)
          && Blocks(files[k].node) <= live)
    && (forall j, k :: j in files && k in files && j != k ==> Blocks(files[j].node) !! Blocks(files[k].node))
    && (forall b :: b in live ==> exists k :: k in files && b in Blocks(files[k].node))
  }

  ghost predicate ZeroPast(f: File) {
    forall pos: nat :: pos >= f.tree.size ==> ByteAt(f.node, f.tree.height, pos) == 0
  }

  lemma OwnedExchange(crc: Crc, d: Image, live: set<nat>, files: map<nat, File>,
                      k: nat, f: File, d': Image, live': set<nat>)
    requires Owned(crc, d, live, files) && k in files
    requires FileOk(crc, f) && Exchanged(d, live, files[k].node, d', live', f.node)
    ensures Owned(crc, d', live', files[k := f])
  {
    hide FileOk, Stored, Blocks;
    var fs := files[k := f];
    forall j | j in fs && j != k
      ensures FileOk(crc, fs[j]) && Stored(d', fs[j].node) && Blocks(fs[j].node) <= live'
      ensures Blocks(fs[j].node) !! Blocks(f.node)
    {
      assert fs[j] == files[j];
      assert Blocks(files[j].node) !! Blocks(files[k].node);
      StoredFrame(d, d', files[j].node);
      forall b | b in Blocks(files[j].node) ensures b in live' && b !in Blocks(f.node) {
        assert b in live - Blocks(files[k].node);
      }
    }
    forall b | b in live' ensures exists j :: j in fs && b in Blocks(fs[j].node) {
      if b in Blocks(f.node) {
        assert fs[k] == f;
      } else {
        assert b in live' - Blocks(f.node);
        var j :| j in files && b in Blocks(files[j].node);
        assert fs[j] == files[j];
      }
    }
  }

  lemma OwnedAdd(crc: Crc, d: Image, live: set<nat>, files: map<nat, File>, k: nat)
    requires Owned(crc, d, live, files) && k !in files
    ensures Owned(crc, d, live, files[k := EMPTY_FILE])
  {
    hide FileOk, Stored, Blocks;
    var fs := files[k := EMPTY_FILE];
    EmptyOwns(crc, d);
    forall b | b in live ensures exists j :: j in fs && b in Blocks(fs[j].node) {
      var j :| j in files && b in Blocks(files[j].node);
      assert fs[j] == files[j];
    }
  }

  lemma EmptyOwns(crc: Crc, d: Image)
    ensures FileOk(crc, EMPTY_FILE) && Stored(d, EMPTY_FILE.node) && Blocks(EMPTY_FILE.node) == {}
  {
    forall pos: nat ensures ByteAt(Hole, 0, pos) == 0 { HoleBytes(0, pos); }
  }

  lemma OwnedDrop(crc: Crc, d: Image, live: set<nat>, files: map<nat, File>, k: nat, live': set<nat>)
    requires Owned(crc, d, live, files) && k in files
    requires live' == live - Blocks(files[k].node)
    ensures Owned(crc, d, live', files - {k})
  {
    hide FileOk, Stored, Blocks;
    var fs := files - {k};
    forall b | b in live' ensures exists j :: j in fs && b in Blocks(fs[j].node) {
      var j :| j in files && b in Blocks(files[j].node);
      assert j != k;
      assert fs[j] == files[j];
    }
  }

  lemma OwnedFrame(crc: Crc, d: Image, d': Image, live: set<nat>, files: map<nat, File>)
    requires Owned(crc, d, live, files) && |d'| == |d|
    requires forall b :: b in live && b < |d| ==> d'[b] == d[b]
    ensures Owned(crc, d', live, files)
  {
    forall k | k in files ensures Stored(d', files[k].node) {
      StoredFrame(d, d', files[k].node);
    }
  }

  // ---------------------------------------------------------- file contents

  /** A run of bytes within one data block, as part of the file's content. */
  lemma PieceOfContent(f: File, index: nat, within: nat, take: nat, data: Block)
    requires within + take <= BLOCK && index * BLOCK + within + take <= f.tree.size
    requires index < Cap(f.tree.height) ==> data == At(f.node, f.tree.height, index)
    requires index >= Cap(f.tree.height) ==> data == ZERO_BLOCK
    ensures data[within..within + take] == Content(f)[index * BLOCK + within..index * BLOCK + within + take]
  {
    hide ByteAt, At, Cap;
    SpanBytes(f.node, f.tree.height, index, within, take, data);
    var start := index * BLOCK;
    var piece := Content(f)[start + within..start + within + take];
    forall i | 0 <= i < take ensures piece[i] == data[within + i] {
      assert ByteAt(f.node, f.tree.height, index * BLOCK + (within + i)) == data[within + i];
      assert piece[i] == Content(f)[start + within + i];
    }
  }

  lemma OverlayContent(f: File, g: File, offset: nat, data: seq<byte>)
    requires data != []
    requires forall pos: nat ::
      ByteAt(g.node, g.tree.height, pos) == EditByte(Overlay(data, offset), pos, ByteAt(f.node, f.tree.height, pos))
    requires ZeroPast(f)
    requires g.tree.size == if offset + |data| <= f.tree.size then f.tree.size else offset + |data|
    ensures Content(g) == Overwrite(Content(f), offset, data)
    ensures ZeroPast(g)
  {
  }

  /** Growing the tree and overwriting its blocks overwrites the file's bytes. */
  lemma WrittenContent(f: File, n: Node, g: File, offset: nat, data: seq<byte>)
    requires data != []
    requires ZeroPast(f)
    requires SameBytes(f.node, f.tree.height, n, g.tree.height)
    requires (offset + |data| - 1) / BLOCK < Cap(g.tree.height)
    requires Edited(Overlay(data, offset), n, g.node, g.tree.height, 0)
    requires g.tree.size == if offset + |data| <= f.tree.size then f.tree.size else offset + |data|
    ensures Content(g) == Overwrite(Content(f), offset, data)
    ensures ZeroPast(g)
  {
    hide At, Edited, EditBlock, Cap, Content, Overwrite;
    var e := Overlay(data, offset);
    forall pos: nat
      ensures ByteAt(g.node, g.tree.height, pos) == EditByte(e, pos, ByteAt(f.node, f.tree.height, pos))
    {
      assert ByteAt(n, g.tree.height, pos) == ByteAt(f.node, f.tree.height, pos);
      if pos / BLOCK < Cap(g.tree.height) {
        EditedBytes(e, n, g.node, g.tree.height, pos);
      }
    }
    OverlayContent(f, g, offset, data);
  }

  lemma CutContent(f: File, g: File, size: nat)
    requires size <= f.tree.size == |Content(f)|
    requires forall pos: nat ::
      ByteAt(g.node, g.tree.height, pos) == EditByte(Cut(size), pos, ByteAt(f.node, f.tree.height, pos))
    requires g.tree.size == size
    ensures Content(g) == Resize(Content(f), size)
    ensures ZeroPast(g)
  {
  }

  /** Cutting the tree's blocks and lowering it cuts the file's bytes. */
  lemma TruncatedContent(f: File, n: Node, g: File, size: nat)
    requires size <= f.tree.size && ZeroPast(f) && g.tree.size == size
    requires Edited(Cut(size), f.node, n, f.tree.height, 0)
    requires SameBytes(n, f.tree.height, g.node, g.tree.height)
    ensures Content(g) == Resize(Content(f), size)
    ensures ZeroPast(g)
  {
    hide At, Edited, EditBlock, Cap, Content, Resize;
    forall pos: nat
      ensures ByteAt(g.node, g.tree.height, pos) == EditByte(Cut(size), pos, ByteAt(f.node, f.tree.height, pos))
    {
      assert ByteAt(g.node, g.tree.height, pos) == ByteAt(n, f.tree.height, pos);
      if pos / BLOCK < Cap(f.tree.height) {
        EditedBytes(Cut(size), f.node, n, f.tree.height, pos);
      }
    }
    CutContent(f, g, size);
  }

  lemma ExtendContent(f: File, g: File)
    requires f.node == g.node && f.tree.height == g.tree.height && f.tree.size <= g.tree.size
    requires ZeroPast(f)
    ensures Content(g) == Resize(Content(f), g.tree.size)
    ensures ZeroPast(g)
  {
  }

  // ------------------------------------------------------------ inode table

  ghost function InodeAt(table: seq<byte>, ino: nat): Inode {
    if INODE_SIZE * ino + INODE_SIZE <= |table|
    then DecodeInode(table[INODE_SIZE * ino..INODE_SIZE * ino + INODE_SIZE])
    else FREE_INODE
  }

  lemma RecordsOutside(slots: nat, table: seq<byte>, ino: nat, data: seq<byte>, j: nat)
    requires |table| == INODE_SIZE * slots && |data| == INODE_SIZE && j != ino
    ensures InodeAt(Overwrite(table, INODE_SIZE * ino, data), j) == InodeAt(table, j)
  {
    hide DecodeInode, Overwrite;
    var t := Overwrite(table, INODE_SIZE * ino, data);
    if j < slots {
      OverwriteOutside(table, INODE_SIZE * ino, data, INODE_SIZE * j, INODE_SIZE);
    } else if j < ino {
      OverwriteOutside(table, INODE_SIZE * ino, data, INODE_SIZE * j, INODE_SIZE);
      DecodeZeroInode();
    }
  }

  lemma RecordInside(table: seq<byte>, ino: nat, data: seq<byte>)
    requires |data| == INODE_SIZE
    ensures InodeAt(Overwrite(table, INODE_SIZE * ino, data), ino) == DecodeInode(data)
  {
    OverwriteInside(table, INODE_SIZE * ino, data);
  }

  lemma RecordCount(table: seq<byte>, ino: nat, data: seq<byte>)
    requires |table| % INODE_SIZE == 0 && |data| == INODE_SIZE
    ensures |Overwrite(table, INODE_SIZE * ino, data)| % INODE_SIZE == 0
  {
  }

  lemma InodeAtOverwrite(table: seq<byte>, ino: nat, inode: Inode, j: nat)
    requires |table| % INODE_SIZE == 0
    ensures InodeAt(Overwrite(table, INODE_SIZE * ino, EncodeInode(inode)), j)
         == if j == ino then inode else InodeAt(table, j)
  {
    if j != ino {
      RecordsOutside(|table| / INODE_SIZE, table, ino, EncodeInode(inode), j);
    } else {
      RecordInside(table, ino, EncodeInode(inode));
      InodeRoundTrip(inode);
    }
  }

  /** Reading one record: all of it, or less past the end. */
  lemma RecordSlice(table: seq<byte>, ino: nat)
    ensures var s := Slice(table, ino * INODE_SIZE, INODE_SIZE);
            if INODE_SIZE * ino + INODE_SIZE <= |table|
            then s == table[INODE_SIZE * ino..INODE_SIZE * ino + INODE_SIZE] && |s| == INODE_SIZE
            else |s| < INODE_SIZE
  {
  }

  ghost predicate LiveIno(table: seq<byte>, ino: nat) {
    ino != 0 && InodeAt(table, ino).kind != KIND_FREE
  }

  /** Whole records, no more than there may be, each with a usable tree. */
  ghost predicate TableOk(table: seq<byte>) {
    && |table| % INODE_SIZE == 0 && |table| <= INODE_SIZE * (MAX_INODES + 1)
    && forall ino: nat :: InodeAt(table, ino).tree.height <= MAX_HEIGHT
  }

  /** The inode table names exactly the trees of `files`. */
  ghost predicate Linked(files: map<nat, File>) {
    && TABLE in files
    && TableOk(Content(files[TABLE]))
    && (forall ino :: ino in files && ino != TABLE ==>
          LiveIno(Content(files[TABLE]), ino) && InodeAt(Content(files[TABLE]), ino).tree == files[ino].tree)
    && (forall ino: nat :: LiveIno(Content(files[TABLE]), ino) ==> ino in files)
  }

  /** `files` is the volume of superblock `sb`, stored on `disk`, owning exactly `live`. */
  ghost predicate Whole(crc: Crc, disk: Image, live: set<nat>, sb: Super, files: map<nat, File>) {
    && Owned(crc, disk, live, files)
    && Linked(files)
    && files[TABLE].tree == sb.inodes
    && (forall b :: b in live ==> 2 <= b < sb.blocks)
  }

  // ------------------------------------------------------------- superblocks

  ghost function Candidate(crc: Crc, blocks: nat, s: Sector): Option<Super> {
    match DecodeSuper(crc, s)
    case None => None
    case Some(sb) => if 16 <= sb.blocks <= blocks && sb.blocks <= MAX_BLOCKS then Some(sb) else None
  }

  ghost function Newer(a: Option<Super>, b: Option<Super>): Option<Super> {
    if b.Some? && (a.None? || b.value.generation > a.value.generation) then b else a
  }

  /** The superblock a mount of `img` chooses. */
  ghost function PickSuper(crc: Crc, img: Image): Option<Super>
    requires |img| >= 2
  {
    Newer(Candidate(crc, |img|, img[0][..SECTOR]), Candidate(crc, |img|, img[1][..SECTOR]))
  }

  /** Superblock `sb` sits in the slot of its parity and beats the other slot. */
  ghost predicate SlotsOk(crc: Crc, img: Image, sb: Super) {
    && |img| >= 2
    && var slot := sb.generation % 2;
       && Candidate(crc, |img|, img[slot][..SECTOR]) == Some(sb)
       && var other := Candidate(crc, |img|, img[1 - slot][..SECTOR]);
          other.Some? ==> other.value.generation < sb.generation
  }

  lemma SlotsPick(crc: Crc, img: Image, sb: Super)
    requires SlotsOk(crc, img, sb)
    ensures PickSuper(crc, img) == Some(sb)
  {
  }

  /** A mount of `img` finds superblock `sb` and, intact, the volume `files`. */
  ghost predicate Mounts(crc: Crc, img: Image, sb: Super, files: map<nat, File>) {
    && SlotsOk(crc, img, sb)
    && exists live :: Whole(crc, img, live, sb, files)
  }

  lemma FileUnique(crc: Crc, img: Image, f: File, g: File)
    requires FileOk(crc, f) && FileOk(crc, g) && Stored(img, f.node) && Stored(img, g.node)
    requires f.tree == g.tree
    ensures f == g
  {
    StoredUnique(crc, img, f.tree.root, f.node, g.node, f.tree.height);
  }

  lemma LinkedKeys(files: map<nat, File>, ino: nat)
    requires Linked(files)
    ensures ino in files <==> ino == TABLE || LiveIno(Content(files[TABLE]), ino)
  {
  }

  lemma LinkedTree(files: map<nat, File>, ino: nat)
    requires Linked(files) && ino in files && ino != TABLE
    ensures files[ino].tree == InodeAt(Content(files[TABLE]), ino).tree
  {
  }

  lemma WholeUnique(crc: Crc, img: Image, live: set<nat>, live': set<nat>, sb: Super,
                    files: map<nat, File>, files': map<nat, File>)
    requires Whole(crc, img, live, sb, files) && Whole(crc, img, live', sb, files')
    ensures files == files'
  {
    hide FileOk, Stored, Content, InodeAt, LiveIno, Blocks;
    FileUnique(crc, img, files[TABLE], files'[TABLE]);
    forall ino: nat ensures ino in files <==> ino in files' {
      LinkedKeys(files, ino);
      LinkedKeys(files', ino);
    }
    forall ino | ino in files ensures files[ino] == files'[ino] {
      if ino != TABLE {
        LinkedTree(files, ino);
        LinkedTree(files', ino);
        FileUnique(crc, img, files[ino], files'[ino]);
      }
    }
  }

  /** An image mounts as at most one volume. */
  lemma MountsUnique(crc: Crc, img: Image, sb: Super, files: map<nat, File>, sb': Super, files': map<nat, File>)
    requires Mounts(crc, img, sb, files) && Mounts(crc, img, sb', files')
    ensures sb == sb' && files == files'
  {
    SlotsPick(crc, img, sb);
    SlotsPick(crc, img, sb');
    var live :| Whole(crc, img, live, sb, files);
    var live' :| Whole(crc, img, live', sb', files');
    WholeUnique(crc, img, live, live', sb, files, files');
  }

  // ------------------------------------------------------ blocks in use, by file

  /** The blocks of the trees with keys below `n`. */
  ghost function Reached(files: map<nat, File>, n: nat): set<nat> {
    set k, b | k in files && k < n && b in Blocks(files[k].node) :: b
  }

  lemma ReachedStep(files: map<nat, File>, n: nat)
    ensures Reached(files, n + 1) == Reached(files, n) + if n in files then Blocks(files[n].node) else {}
    ensures n !in files ==> Reached(files, n + 1) == Reached(files, n)
  {
    hide Blocks;
    forall b | b in Reached(files, n + 1) ensures b in Reached(files, n) || (n in files && b in Blocks(files[n].node)) {
      var k :| k in files && k < n + 1 && b in Blocks(files[k].node);
      if k != n {
        assert k < n;
      }
    }
  }

  lemma ReachedApart(crc: Crc, disk: Image, live: set<nat>, files: map<nat, File>, n: nat)
    requires Owned(crc, disk, live, files) && n in files
    ensures Reached(files, n) !! Blocks(files[n].node) && Reached(files, n) <= live
  {
    hide Blocks, FileOk, Stored;
    forall b | b in Reached(files, n) ensures b !in Blocks(files[n].node) && b in live {
      var k :| k in files && k < n && b in Blocks(files[k].node);
      assert Blocks(files[k].node) !! Blocks(files[n].node);
    }
  }

  lemma ReachedAll(crc: Crc, disk: Image, live: set<nat>, files: map<nat, File>, n: nat)
    requires Owned(crc, disk, live, files) && forall k :: k in files ==> k < n
    ensures Reached(files, n) == live
  {
    hide Blocks, FileOk, Stored;
    forall b | b in live ensures b in Reached(files, n) {
      var k :| k in files && b in Blocks(files[k].node);
      assert k < n;
    }
  }

  lemma ReachedNone(files: map<nat, File>)
    ensures Reached(files, 0) == {}
  {
  }
}
