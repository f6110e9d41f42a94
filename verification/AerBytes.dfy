/**
 The on-disk format of AerFS, byte by byte and by the numbers the bytes stand
 for; and that the encodings and decodings are of that format.
 */
module AerBytes {
  import opened LittleEndian
  import opened AerLayout
  import opened AerForest
  import opened AerDirs

  predicate Zero(s: seq<byte>, from: nat, to: nat)
    requires to <= |s|
  {
    forall i :: from <= i < to ==> s[i] == 0
  }

  // ----------------------------------------------------------------- pointers

  lemma PointerBytes(b: Block, i: nat)
    requires i < FANOUT
    ensures GetPtr(b, i) == Ptr(Word(b, 8 * i), Word(b, 8 * i + 4))
  {
    WordIs(b, 8 * i);
    WordIs(b, 8 * i + 4);
  }

  /** A pointer put into a node is in its eight bytes, and no other byte changes. */
  lemma PointerPut(b: Block, i: nat, p: Ptr)
    requires i < FANOUT
    ensures var c := PutPtr(b, i, p);
            && Word(c, 8 * i) == p.block && Word(c, 8 * i + 4) == p.crc
            && forall k :: 0 <= k < BLOCK && !(8 * i <= k < 8 * i + 8) ==> c[k] == b[k]
  {
    hide ToBytes;
    var c := PutPtr(b, i, p);
    assert c[8 * i..8 * i + 4] == Le32(p.block) && c[8 * i + 4..8 * i + 8] == Le32(p.crc);
    WordIs(c, 8 * i);
    WordIs(c, 8 * i + 4);
  }

  // ------------------------------------------------------------------- inodes

  /** The bytes of an inode record. */
  predicate InodeBytes(s: seq<byte>, n: Inode) {
    && |s| == 128
    && s[0] == n.kind && (s[1] != 0 <==> n.readOnly) && Short(s, 2) == n.mode
    && Word(s, 4) == n.parent && Long(s, 8) == n.tree.size && Long(s, 16) == n.mtime
    && s[24] == n.tree.height && Word(s, 28) == n.tree.root.block && Word(s, 32) == n.tree.root.crc
  }

  lemma InodeDecoded(s: seq<byte>)
    requires |s| == INODE_SIZE
    ensures InodeBytes(s, DecodeInode(s))
  {
    hide FromBytes;
    ShortIs(s[2..4]);
    WordIs(s, 4);
    LongIs(s, 8);
    LongIs(s, 16);
    WordIs(s, 28);
    WordIs(s, 32);
  }

  lemma InodeEncoded(n: Inode)
    ensures var s := EncodeInode(n);
            InodeBytes(s, n) && s[1] <= 1 && Zero(s, 25, 28) && Zero(s, 36, 128)
  {
    hide ToBytes, FromBytes, DecodeInode;
    InodeRoundTrip(n);
    InodeDecoded(EncodeInode(n));
  }

  /** Inode `i` is in the `i`-th 128 bytes of the table. */
  lemma InodePlace(table: seq<byte>, i: nat)
    ensures 128 * i + 128 <= |table| ==> InodeBytes(table[128 * i..128 * i + 128], InodeAt(table, i))
    ensures 128 * i + 128 > |table| ==> InodeAt(table, i).kind == 0
  {
    hide DecodeInode;
    if 128 * i + 128 <= |table| {
      InodeDecoded(table[128 * i..128 * i + 128]);
    }
  }

  // ------------------------------------------------------------------ entries

  /** The bytes of a directory slot; a length over 58 counts as 58. */
  predicate EntryBytes(s: seq<byte>, e: Entry) {
    && |s| == 64 && |e.name| == (if s[4] <= 58 then s[4] else 58)
    && Word(s, 0) == e.ino && s[5] == e.kind && forall i :: 0 <= i < |e.name| ==> s[6 + i] == e.name[i]
  }

  lemma EntryDecoded(s: seq<byte>)
    requires |s| == DIR_ENTRY
    ensures EntryBytes(s, DecodeEntry(s))
  {
    WordIs(s, 0);
  }

  lemma EntryEncoded(e: Entry)
    requires |e.name| <= NAME_MAX
    ensures var s := EncodeEntry(e); EntryBytes(s, e) && s[4] == |e.name| && Zero(s, 6 + |e.name|, 64)
  {
    hide ToBytes, FromBytes;
    EntryRoundTrip(e);
    EntryDecoded(EncodeEntry(e));
  }

  /** Entry `k` is in the `k`-th 64 bytes of the directory. */
  lemma EntryPlace(data: seq<byte>, k: nat)
    ensures k < |Entries(data)| <==> 64 * k + 64 <= |data|
    ensures 64 * k + 64 <= |data| ==> EntryBytes(data[64 * k..64 * k + 64], Entries(data)[k])
  {
    hide DecodeEntry;
    if 64 * k + 64 <= |data| {
      EntryDecoded(data[64 * k..64 * k + 64]);
    }
  }

  // --------------------------------------------------------------- superblocks

  /** A sector begins with the name and version of the format, ends with the checksum of the rest, and has a usable height. */
  predicate SuperSealed(crc: Crc, s: Sector) {
    && s[..8] == [65, 69, 82, 70, 83, 0, 0, 1]
    && Word(s, 508) == crc(s[..508]) && s[40] <= 3
  }

  /** The bytes of a superblock sector. */
  predicate SuperBytes(s: Sector, sb: Super) {
    && Long(s, 12) == sb.generation && Word(s, 20) == sb.blocks
    && Long(s, 32) == sb.inodes.size && s[40] == sb.inodes.height
    && Word(s, 44) == sb.inodes.root.block && Word(s, 48) == sb.inodes.root.crc
    && s[52..68] == sb.volumeLabel
  }

  lemma SuperDecoded(crc: Crc, s: Sector)
    ensures DecodeSuper(crc, s).Some? <==> SuperSealed(crc, s)
    ensures DecodeSuper(crc, s).Some? ==> SuperBytes(s, DecodeSuper(crc, s).value)
  {
    hide FromBytes;
    WordIs(s, 508);
    LongIs(s, 12);
    WordIs(s, 20);
    LongIs(s, 32);
    WordIs(s, 44);
    WordIs(s, 48);
  }

  lemma SuperEncoded(crc: Crc, sb: Super)
    requires |sb.volumeLabel| == 16 && sb.inodes.height <= MAX_HEIGHT
    ensures var s := EncodeSuper(crc, sb);
            && SuperSealed(crc, s) && SuperBytes(s, sb)
            && Word(s, 8) == 1 && Zero(s, 24, 32) && Zero(s, 41, 44) && Zero(s, 68, 508)
  {
    hide ToBytes, FromBytes, DecodeSuper;
    SuperRoundTrip(crc, sb);
    SuperDecoded(crc, EncodeSuper(crc, sb));
    var s := EncodeSuper(crc, sb);
    assert s[8..12] == Le32(1);
    WordIs(s, 8);
  }
}
