/**
 On-disk layout of AerFS: block pointers, inodes, directory entries and the
 superblock sector, with the round trips of their encodings.
 The checksum is a parameter: nothing below depends on which function it is.
 */
module AerLayout {
  import opened Options
  import opened LittleEndian

  const BLOCK := 4096
  const SECTOR := 512
  const FANOUT := 512
  const MAX_HEIGHT := 3
  const MAX_BLOCKS := 65536
  const INODE_SIZE := 128
  const DIR_ENTRY := 64
  const NAME_MAX := 58
  const MAX_INODES := 65535
  const ROOT_INO := 1
  const MAGIC: seq<byte> := [65, 69, 82, 70, 83, 0, 0, 1]

  type Block = s: seq<byte> | |s| == BLOCK witness Zeros(BLOCK)
  type Sector = s: seq<byte> | |s| == SECTOR witness Zeros(SECTOR)
  type Crc = seq<byte> -> u32

  const ZERO_BLOCK: Block := Zeros(BLOCK)

  datatype Error =
    | NotFound | Exists | NotDirectory | IsDirectory | NotEmpty | NoSpace
    | InvalidName | InvalidArgument | TooBig | Corrupt | Io | BadSuperblock

  datatype Result<+T> = Ok(value: T) | Err(error: Error)

  datatype Ptr = Ptr(block: u32, crc: u32)
  const NULL := Ptr(0, 0)

  datatype Tree = Tree(size: u64, height: byte, root: Ptr)
  const EMPTY_TREE := Tree(0, 0, NULL)

  datatype Super = Super(generation: u64, blocks: u32, inodes: Tree, volumeLabel: seq<byte>)

  const KIND_FREE: byte := 0
  const KIND_FILE: byte := 1
  const KIND_DIRECTORY: byte := 2

  datatype Inode = Inode(kind: byte, readOnly: bool, mode: u16, parent: u32, mtime: u64, tree: Tree)
  const FREE_INODE := Inode(KIND_FREE, false, 0, 0, 0, EMPTY_TREE)

  /** The block with `src` copied in from byte `at`. */
  function Splice(b: Block, at: nat, src: seq<byte>): Block
    requires at + |src| <= BLOCK
  {
    b[..at] + src + b[at + |src|..]
  }

  // ------------------------------------------------------------ pointers

  function GetPtr(b: Block, i: int): Ptr
    requires 0 <= i < FANOUT
  {
    Ptr(FromLe32(b[8 * i..8 * i + 4]), FromLe32(b[8 * i + 4..8 * i + 8]))
  }

  function PutPtr(b: Block, i: int, p: Ptr): Block
    requires 0 <= i < FANOUT
  {
    b[..8 * i] + Le32(p.block) + Le32(p.crc) + b[8 * i + 8..]
  }

  /** A pointer written into a node is the one read back, and no other moves. */
  lemma GetPutPtr(b: Block, i: int, p: Ptr, j: int)
    requires 0 <= i < FANOUT && 0 <= j < FANOUT
    ensures GetPtr(PutPtr(b, i, p), j) == if i == j then p else GetPtr(b, j)
  {
    var c := PutPtr(b, i, p);
    if i == j {
      assert c[8 * i..8 * i + 4] == Le32(p.block);
      assert c[8 * i + 4..8 * i + 8] == Le32(p.crc);
    } else {
      assert forall k :: 8 * j <= k < 8 * j + 8 ==> c[k] == b[k];
      assert c[8 * j..8 * j + 4] == b[8 * j..8 * j + 4];
      assert c[8 * j + 4..8 * j + 8] == b[8 * j + 4..8 * j + 8];
    }
  }

  lemma GetPtrZero(i: int)
    requires 0 <= i < FANOUT
    ensures GetPtr(ZERO_BLOCK, i) == NULL
  {
    assert ZERO_BLOCK[8 * i..8 * i + 4] == Zeros(4);
    assert ZERO_BLOCK[8 * i + 4..8 * i + 8] == Zeros(4);
    FromZeros(4);
  }

  // -------------------------------------------------------------- inodes

  function EncodeInode(n: Inode): (s: seq<byte>)
    ensures |s| == INODE_SIZE
  {
    [n.kind, if n.readOnly then 1 else 0] + Le16(n.mode) + Le32(n.parent) + Le64(n.tree.size)
    + Le64(n.mtime) + [n.tree.height, 0, 0, 0] + Le32(n.tree.root.block) + Le32(n.tree.root.crc)
    + Zeros(92)
  }

  function DecodeInode(s: seq<byte>): Inode
    requires |s| == INODE_SIZE
  {
    Inode(s[0], s[1] != 0, FromLe16(s[2..4]), FromLe32(s[4..8]), FromLe64(s[16..24]),
          Tree(FromLe64(s[8..16]), s[24], Ptr(FromLe32(s[28..32]), FromLe32(s[32..36]))))
  }

  lemma InodeRoundTrip(n: Inode)
    ensures DecodeInode(EncodeInode(n)) == n
  {
    var s := EncodeInode(n);
    assert s[2..4] == Le16(n.mode);
    assert s[4..8] == Le32(n.parent);
    assert s[8..16] == Le64(n.tree.size);
    assert s[16..24] == Le64(n.mtime);
    assert s[28..32] == Le32(n.tree.root.block);
    assert s[32..36] == Le32(n.tree.root.crc);
  }

  lemma DecodeZeroInode()
    ensures DecodeInode(Zeros(INODE_SIZE)) == FREE_INODE
  {
    var s := Zeros(INODE_SIZE);
    assert s[2..4] == Zeros(2) && s[4..8] == Zeros(4) && s[8..16] == Zeros(8);
    assert s[16..24] == Zeros(8) && s[28..32] == Zeros(4) && s[32..36] == Zeros(4);
    FromZeros(2);
    FromZeros(4);
    FromZeros(8);
  }

  // --------------------------------------------------- directory entries

  /** A directory slot; `ino == 0` marks it free. */
  datatype Entry = Entry(ino: u32, kind: byte, name: seq<byte>)
  const FREE_ENTRY := Entry(0, 0, [])

  function EncodeEntry(e: Entry): (s: seq<byte>)
    requires |e.name| <= NAME_MAX
    ensures |s| == DIR_ENTRY
  {
    Le32(e.ino) + [|e.name|, e.kind] + e.name + Zeros(NAME_MAX - |e.name|)
  }

  function DecodeEntry(s: seq<byte>): Entry
    requires |s| == DIR_ENTRY
  {
    var length: int := if s[4] <= NAME_MAX then s[4] else NAME_MAX;
    Entry(FromLe32(s[0..4]), s[5], s[6..6 + length])
  }

  lemma EntryRoundTrip(e: Entry)
    requires |e.name| <= NAME_MAX
    ensures DecodeEntry(EncodeEntry(e)) == e
  {
    var s := EncodeEntry(e);
    assert s[0..4] == Le32(e.ino);
    assert s[6..6 + |e.name|] == e.name;
  }

  lemma DecodeZeroEntry()
    ensures DecodeEntry(Zeros(DIR_ENTRY)) == FREE_ENTRY
  {
    var s := Zeros(DIR_ENTRY);
    assert s[0..4] == Zeros(4);
    FromZeros(4);
  }

  // ---------------------------------------------------------- superblock

  function SuperBody(sb: Super): (s: seq<byte>)
    requires |sb.volumeLabel| == 16
    ensures |s| == 508
  {
    MAGIC + Le32(1) + Le64(sb.generation) + Le32(sb.blocks) + Zeros(8) + Le64(sb.inodes.size)
    + [sb.inodes.height, 0, 0, 0] + Le32(sb.inodes.root.block) + Le32(sb.inodes.root.crc)
    + sb.volumeLabel + Zeros(440)
  }

  function EncodeSuper(crc: Crc, sb: Super): Sector
    requires |sb.volumeLabel| == 16
  {
    SuperBody(sb) + Le32(crc(SuperBody(sb)))
  }

  function DecodeSuper(crc: Crc, s: Sector): Option<Super>
  {
    if s[..8] != MAGIC || FromLe32(s[508..512]) != crc(s[..508]) || s[40] > MAX_HEIGHT then None
    else
      Some(Super(FromLe64(s[12..20]), FromLe32(s[20..24]),
                 Tree(FromLe64(s[32..40]), s[40], Ptr(FromLe32(s[44..48]), FromLe32(s[48..52]))),
                 s[52..68]))
  }

  lemma SuperFields(sb: Super)
    requires |sb.volumeLabel| == 16
    ensures var b := SuperBody(sb);
            && b[..8] == MAGIC && b[12..20] == Le64(sb.generation) && b[20..24] == Le32(sb.blocks)
            && b[32..40] == Le64(sb.inodes.size) && b[40] == sb.inodes.height
            && b[44..48] == Le32(sb.inodes.root.block) && b[48..52] == Le32(sb.inodes.root.crc)
            && b[52..68] == sb.volumeLabel
  {
    hide ToBytes;
  }

  lemma SuperRoundTrip(crc: Crc, sb: Super)
    requires |sb.volumeLabel| == 16 && sb.inodes.height <= MAX_HEIGHT
    ensures DecodeSuper(crc, EncodeSuper(crc, sb)) == Some(sb)
  {
    hide SuperBody, ToBytes;
    SuperFields(sb);
    var b := SuperBody(sb);
    var s := EncodeSuper(crc, sb);
    assert s[..508] == b;
    assert s[508..512] == Le32(crc(b));
    assert s[..8] == b[..8];
    assert s[12..20] == b[12..20];
    assert s[20..24] == b[20..24];
    assert s[32..40] == b[32..40];
    assert s[44..48] == b[44..48];
    assert s[48..52] == b[48..52];
    assert s[52..68] == b[52..68];
  }

  lemma ZeroSectorIsNoSuper(crc: Crc)
    ensures DecodeSuper(crc, Zeros(SECTOR)) == None
  {
    assert Zeros(SECTOR)[..8][0] == 0;
  }

  lemma SuperFits(crc: Crc, s: Sector)
    ensures DecodeSuper(crc, s).Some? ==>
      |DecodeSuper(crc, s).value.volumeLabel| == 16 && DecodeSuper(crc, s).value.inodes.height <= MAX_HEIGHT
  {
  }
}
