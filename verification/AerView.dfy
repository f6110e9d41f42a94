/** The filesystem a user sees, read off the trees of a volume. */
module AerView {
  import opened LittleEndian
  import opened AerLayout
  import opened AerTree
  import opened FileBytes
  import opened AerForest
  import opened AerNames

  ghost function MetaOf(inode: Inode, data: seq<byte>): Meta {
    Meta(inode.kind, inode.readOnly, inode.mode, inode.parent, inode.mtime, data)
  }

  ghost function View(files: map<nat, File>): Fs
    requires TABLE in files
  {
    map ino | ino in files && ino != TABLE :: MetaOf(InodeAt(Content(files[TABLE]), ino), Content(files[ino]))
  }

  /** What a caller is told about an inode. */
  datatype Stat = Stat(ino: u32, parent: u32, directory: bool, mode: u16, size: nat, mtime: u64, readOnly: bool)

  ghost function StatOf(ino: u32, m: Meta): Stat {
    Stat(ino, m.parent, m.kind == KIND_DIRECTORY, m.mode, |m.data|, m.mtime, m.readOnly)
  }

  function StatOfInode(ino: u32, inode: Inode): Stat {
    Stat(ino, inode.parent, inode.kind == KIND_DIRECTORY, inode.mode, inode.tree.size, inode.mtime, inode.readOnly)
  }

  /** As `Linked`, but the tree of `k` may be newer than the table knows. */
  ghost predicate LinkedBut(files: map<nat, File>, k: nat) {
    && TABLE in files
    && TableOk(Content(files[TABLE]))
    && (forall ino :: ino in files && ino != TABLE ==>
          LiveIno(Content(files[TABLE]), ino) && (ino != k ==> InodeAt(Content(files[TABLE]), ino).tree == files[ino].tree))
    && (forall ino: nat :: LiveIno(Content(files[TABLE]), ino) ==> ino in files)
  }

  /** Writing an inode's record makes the table agree with its tree again. */
  lemma PutLinks(files: map<nat, File>, ino: nat, inode: Inode, t: File)
    requires LinkedBut(files, ino) && 1 <= ino <= MAX_INODES
    requires ino in files && inode.kind != KIND_FREE && inode.tree == files[ino].tree && inode.tree.height <= MAX_HEIGHT
    requires Content(t) == Overwrite(Content(files[TABLE]), INODE_SIZE * ino, EncodeInode(inode))
    ensures Linked(files[TABLE := t])
  {
    hide Content, InodeAt, Overwrite, EncodeInode;
    PutTableOk(Content(files[TABLE]), ino, inode);
    forall j: nat ensures InodeAt(Content(t), j) == if j == ino then inode else InodeAt(Content(files[TABLE]), j) {
      InodeAtOverwrite(Content(files[TABLE]), ino, inode, j);
    }
  }

  lemma PutView(files: map<nat, File>, ino: nat, inode: Inode, t: File)
    requires LinkedBut(files, ino) && ino in files && ino != TABLE
    requires Content(t) == Overwrite(Content(files[TABLE]), INODE_SIZE * ino, EncodeInode(inode))
    ensures View(files[TABLE := t]) == View(files)[ino := MetaOf(inode, Content(files[ino]))]
  {
    hide Content, InodeAt, Overwrite, EncodeInode;
    forall j: nat ensures InodeAt(Content(t), j) == if j == ino then inode else InodeAt(Content(files[TABLE]), j) {
      InodeAtOverwrite(Content(files[TABLE]), ino, inode, j);
    }
  }

  /** A record for an inode the table did not have. */
  lemma AddLinks(files: map<nat, File>, ino: nat, inode: Inode, t: File, files': map<nat, File>)
    requires files' == files[ino := EMPTY_FILE][TABLE := t]
    requires Linked(files) && 1 <= ino <= MAX_INODES && ino !in files
    requires inode.kind != KIND_FREE && inode.tree == EMPTY_TREE
    requires Content(t) == Overwrite(Content(files[TABLE]), INODE_SIZE * ino, EncodeInode(inode))
    ensures Linked(files')
    ensures View(files') == View(files)[ino := MetaOf(inode, [])]
  {
    hide Content, InodeAt, Overwrite, EncodeInode;
    PutTableOk(Content(files[TABLE]), ino, inode);
    forall j: nat ensures InodeAt(Content(t), j) == if j == ino then inode else InodeAt(Content(files[TABLE]), j) {
      InodeAtOverwrite(Content(files[TABLE]), ino, inode, j);
    }
    EmptyContent();
  }

  lemma EmptyContent()
    ensures Content(EMPTY_FILE) == []
  {
  }

  /** Clearing an inode's record. */
  lemma FreeLinks(files: map<nat, File>, ino: nat, t: File, files': map<nat, File>)
    requires files' == (files - {ino})[TABLE := t]
    requires Linked(files) && 1 <= ino <= MAX_INODES && ino in files
    requires Content(t) == Overwrite(Content(files[TABLE]), INODE_SIZE * ino, EncodeInode(FREE_INODE))
    ensures Linked(files')
    ensures View(files') == View(files) - {ino}
  {
    hide Content, InodeAt, Overwrite, EncodeInode;
    PutTableOk(Content(files[TABLE]), ino, FREE_INODE);
    forall j: nat ensures InodeAt(Content(t), j) == if j == ino then FREE_INODE else InodeAt(Content(files[TABLE]), j) {
      InodeAtOverwrite(Content(files[TABLE]), ino, FREE_INODE, j);
    }
  }

  lemma PutTableOk(table: seq<byte>, ino: nat, inode: Inode)
    requires TableOk(table) && ino <= MAX_INODES && inode.tree.height <= MAX_HEIGHT
    ensures TableOk(Overwrite(table, INODE_SIZE * ino, EncodeInode(inode)))
  {
    hide InodeAt, Overwrite, EncodeInode;
    var t := Overwrite(table, INODE_SIZE * ino, EncodeInode(inode));
    RecordCount(table, ino, EncodeInode(inode));
    forall j: nat ensures InodeAt(t, j).tree.height <= MAX_HEIGHT {
      InodeAtOverwrite(table, ino, inode, j);
    }
  }

  lemma ContentSize(f: File)
    ensures |Content(f)| == f.tree.size
  {
  }

  /** There is no inode past the end of the table. */
  lemma PastTable(files: map<nat, File>, ino: nat)
    requires Linked(files) && ino >= files[TABLE].tree.size / INODE_SIZE && ino != TABLE
    ensures ino !in View(files)
    ensures files[TABLE].tree.size / INODE_SIZE <= MAX_INODES + 1
  {
    hide DecodeInode;
    assert InodeAt(Content(files[TABLE]), ino) == FREE_INODE;
  }

  lemma ViewKeys(files: map<nat, File>, ino: nat)
    requires Linked(files) && (ino == 0 || ino > MAX_INODES)
    ensures ino !in View(files)
  {
    hide Content, DecodeInode;
  }

  /** The table's record of an inode, as the view has it. */
  lemma ViewAt(files: map<nat, File>, ino: nat)
    requires Linked(files) && ino != TABLE
    ensures ino in View(files) <==> ino in files
    ensures ino in files <==> InodeAt(Content(files[TABLE]), ino).kind != KIND_FREE
    ensures ino in files ==>
      && View(files)[ino] == MetaOf(InodeAt(Content(files[TABLE]), ino), Content(files[ino]))
      && InodeAt(Content(files[TABLE]), ino).tree == files[ino].tree
  {
    hide Content, InodeAt;
  }

  /** A tree newer than its record shows only in that inode's bytes. */
  lemma TouchView(files: map<nat, File>, k: nat, f: File, m: Meta)
    requires TABLE in files && k in files && k != TABLE
    ensures View(files[k := f])[k := m] == View(files)[k := m]
  {
    hide Content, InodeAt;
  }

  lemma LinkedIsLinkedBut(files: map<nat, File>, k: nat)
    requires Linked(files)
    ensures LinkedBut(files, k)
  {
    hide Content, InodeAt, TableOk;
  }

  lemma TouchLinksBut(files: map<nat, File>, k: nat, f: File)
    requires LinkedBut(files, k) && k in files && k != TABLE
    ensures LinkedBut(files[k := f], k)
  {
    hide Content, InodeAt, TableOk;
  }

  lemma LinkedTable(files: map<nat, File>)
    requires Linked(files)
    ensures TABLE in files && TableOk(Content(files[TABLE]))
  {
  }

  lemma ViewLive(files: map<nat, File>, ino: nat)
    requires Linked(files) && ino in View(files)
    ensures 1 <= ino <= MAX_INODES
  {
    if !(1 <= ino <= MAX_INODES) {
      ViewKeys(files, ino);
      assert false;
    }
  }

  /** What a mount needs to know of one tree of a volume. */
  lemma WholeParts(crc: Crc, disk: Image, live: set<nat>, sb: Super, files: map<nat, File>, k: nat)
    requires Whole(crc, disk, live, sb, files) && k in files
    ensures Linked(files) && TABLE in files && files[TABLE].tree == sb.inodes && TableOk(Content(files[TABLE]))
    ensures FileOk(crc, files[k]) && Stored(disk, files[k].node)
    ensures forall b :: b in Blocks(files[k].node) ==> 2 <= b < sb.blocks
    ensures Reached(files, k) !! Blocks(files[k].node)
  {
    hide Blocks, FileOk, Stored, TableOk;
    ReachedApart(crc, disk, live, files, k);
  }

  lemma WholeRecord(crc: Crc, disk: Image, live: set<nat>, sb: Super, files: map<nat, File>, ino: nat)
    requires Whole(crc, disk, live, sb, files) && ino != TABLE
    ensures TABLE in files
    ensures ino in files <==> InodeAt(Content(files[TABLE]), ino).kind != KIND_FREE
    ensures ino in files ==> files[ino].tree == InodeAt(Content(files[TABLE]), ino).tree
  {
    hide Owned, InodeAt, Content;
    ViewAt(files, ino);
  }

  lemma WholeReached(crc: Crc, disk: Image, live: set<nat>, sb: Super, files: map<nat, File>, n: nat)
    requires Whole(crc, disk, live, sb, files) && n >= 1
    requires n >= sb.inodes.size / INODE_SIZE || n > MAX_INODES
    ensures Reached(files, n) == live && 0 !in live && 1 !in live
  {
    hide Blocks, FileOk, Stored, Owned, Linked;
    forall k | k in files ensures k < n {
      KeysBounded(files, k, n);
    }
    ReachedAll(crc, disk, live, files, n);
  }

  lemma KeysBounded(files: map<nat, File>, k: nat, n: nat)
    requires Linked(files) && k in files && n >= 1
    requires n >= files[TABLE].tree.size / INODE_SIZE || n > MAX_INODES
    ensures k < n
  {
    if k >= n > MAX_INODES {
      ViewKeys(files, k);
    } else if k >= n {
      PastTable(files, k);
    }
  }

  /** A volume with an empty inode table owns no block. */
  lemma EmptyVolume(crc: Crc, disk: Image, files: map<nat, File>)
    requires files == map[TABLE := EMPTY_FILE]
    ensures Owned(crc, disk, {}, files) && Linked(files)
  {
    forall pos: nat ensures ByteAt(Hole, 0, pos) == 0 { HoleBytes(0, pos); }
    assert Content(EMPTY_FILE) == [];
  }

  lemma EmptyView(files: map<nat, File>)
    requires files == map[TABLE := EMPTY_FILE]
    ensures View(files) == map[]
  {
  }
}
