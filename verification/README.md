# AerOS: a verified model of its core algorithms

This project models nine parts of AerOS in Dafny and proves what each is for.

- **AerFS** (`AerLayout`, `AerBytes`, `AerTree`, `AerDevice`, `AerOwnership`, `AerForest`, `AerCrash`, `AerDirs`,
  `AerNames`, `AerCalls`, `AerEffects`, `AerDepth`, `AerView`, `AerSlots`, `AerCheck`, `AerFs`): the copy-on-write
  filesystem, from bytes to names. A device holds durable contents and unflushed writes; a power cut keeps any part of
  those, block writes torn at sector boundaries. Every public call is proved against a specification on a tree of
  names, which is in turn proved to do, byte by byte and name by name, what the call is for, and to refuse with each
  error exactly when it is due. Every run of calls is proved to survive a power cut at any device step as the volume
  before or after the call in progress. Space accounting is exact and mounting rebuilds it. A check, of a volume in any
  state, reports no damage exactly when trees, block map, entries and inodes agree, and on every reachable volume they
  do.
- **DEFLATE** (`BitStreams`, `DeflateFormat`, `Deflate`, `Adler`): the compressor against a decoder written from
  RFC 1950 and RFC 1951, its hash chains and the longest match among them, and the bound on its output.
- **Huffman coding** (`HuffmanCost`, `HuffmanMerge`, `HuffmanCounts`, `HuffmanTables`, `HuffmanStream`, `DcScan`): code
  lengths and why they are optimal, their limitation to 16 bits, canonical codes, byte stuffing and the way back, as
  round trips of symbols and of a scan of DC values with their bits in between.
- **Block layer** (`BlockCache`, `BlockBatches`, `BlockScheduler`): coherence of the write-through cache, and a
  scheduler that reorders and merges but means the same as submission order, serves each request once and none across
  a barrier.
- **GPE events** (`GpeEvents`): interrupts and polling under every interleaving on one processor; no event is lost
  and none is handled twice.
- **Streaming search** (`NeedleSearch`): an index by first byte and a carried tail against plain substring search.
- **AML** (`AmlFields`, `AmlNamespace`, `AmlPaths`, `AmlRuns`): bit fields of regions and buffers, what names mean, and
  the namespace across method calls, against rules that determine every run.
- **SHA-256 streaming** (`Sha256`), **slot choice and relocation** (`Aslr`, `Relocation`), **clipboard** (`Clipboard`).

`Options`, `Arithmetic`, `LittleEndian` and `FileBytes` are shared. State that the source updates in place is a class
whose methods are tied to functions on values; what is promised is proved about those functions.

## How the source is read

- Checksums of AerFS and the SHA-256 compression are parameters: every theorem holds for every such function.
- The clock is read once for each call, as the argument `now`. Whether a device command or a memory request succeeds
  is left open; `Device.reliable` says that no command fails.
- The kernel is built with overflow checks, so where a 64-bit sum could overflow the model requires that it does not.
  Arithmetic that wraps in the source wraps in the model.
- Bitmaps of blocks and inodes are sets. A sector buffer counts whole sectors.

## Where the code differs from what it promises

- `AerDepth.TooDeepToRename`: a directory with 4096 or more above it cannot take in another, nor have one in it
  renamed in place, on an undamaged volume: damage is reported. `AerDepth.RenameCutOff` says exactly when, by the
  depth of the directory and the inodes near above it.
- `AerCrash.CommitInDoubt`: when the superblock write or the flush after it fails, the call reports an error and
  memory is rolled back, but a sector left in flight may still land, so the volume found after a power cut may be
  either. `AerFs.Commit` says that this is so exactly when the sector is in flight, which the device's queue shows;
  otherwise the old volume is in force and calls go on. Nothing is promised about calls made while it is in flight.
- `AerSlots.OlderTaken`: a superblock sector that cannot be read is skipped, so the older volume may be mounted.
  `AerFs.Load` shows that the newest is taken exactly when its slot can be read, and `AerSlots.OlderStillWhole` that
  the older one is whole exactly as long as none of the blocks only it used has been written again.
- `AerSlots.NewerLost`: once the older volume is mounted in that way, a write may take a block that is free in it but
  belongs to the newer one, while the newer superblock is still in its slot; a later mount that can read the slot then
  picks a volume that is no longer there. `AerSlots.NewerAtRisk` shows that this happens exactly when a block that only
  the newer volume uses has been written, and `AerSlots.RiskEnds` that the next commit, which takes over the newer
  superblock's slot and generation, ends it.
- `GpeEvents.OnAgain`: a line that is shut off because it is stuck is not off for good; an event in hand at that
  moment is enabled again once it has been served. `Poll` and `NeverAgain` show that exactly those are, so the line
  stays off exactly when nothing was pending, queued or running.
- `NeedleSearch.CutIndependent`: the carried tail covers needles of up to 81 bytes, while needles added at run time
  may have 96; the longer ones can be missed at a cut.
- `AmlFields.SelfStore`: storing a buffer into a field of itself goes wrong exactly when the field has more than 64
  bits and starts after bit 0 and before its own length.
- `AmlNamespace.AliasOutlives`: a method may make an older name an alias of a node that goes when it returns. A node
  then created in the scope that alias names can be its own parent, and looking a name up from it does not end.
  `AddedOrder` and `AddedAliases` give the exact conditions of one step, and `ExecTerm` shows that they suffice for
  any run. Before a run, `Tidy` of the namespace and `AllTame` of the terms, that aliases name live nodes and no method
  makes one, is a test that rules the failure out; the terms of a table may make aliases outside its methods.
- `Aslr.HowEvenly`: a slot is said to be chosen uniformly (`kernel/src/aslr.rs`, lines 101-103). The choice is a 64-bit
  word modulo the number of slots, which is uniform exactly when that number divides 2^64; otherwise some slots are
  named by one word more than others.
- `Clipboard.Clipboard.Clear`: the generation is said to change with the current text (`kernel/src/clipboard.rs`, lines
  20-22), and after `Push` and `Select` it does exactly then. Clearing leaves it as it is, although the current text
  changes exactly when there was one.

## Model

| member | source | states |
|---|---|---|
| `AerLayout.GetPutPtr` | kernel/src/aerfs.rs:281-293 | a pointer put into a node is the one got back, and no other pointer of the node moves |
| `AerLayout.InodeRoundTrip` | kernel/src/aerfs.rs:163-200 | decoding an encoded inode record gives the record |
| `AerLayout.DecodeZeroInode` | kernel/src/aerfs.rs:177-200 | a zeroed record is a free inode, so a table extended by zeros holds only free inodes |
| `AerLayout.EntryRoundTrip` | kernel/src/aerfs.rs:846-869 | decoding an encoded directory entry gives the entry |
| `AerLayout.SuperRoundTrip` | kernel/src/aerfs.rs:390-437 | decoding an encoded superblock gives the superblock, for every checksum function |
| `AerLayout.ZeroSectorIsNoSuper` | kernel/src/aerfs.rs:406-437 | a wiped sector is no superblock |
| `AerBytes.PointerBytes` | kernel/src/aerfs.rs:281-287 | a pointer is the two little-endian words at eight times its place: block, checksum |
| `AerBytes.PointerPut` | kernel/src/aerfs.rs:289-293 | a pointer put into a node is in those eight bytes, and no other byte changes |
| `AerBytes.InodeEncoded` | kernel/src/aerfs.rs:163-175 | where each field of an inode is in its 128 bytes, and zeros elsewhere |
| `AerBytes.InodeDecoded` | kernel/src/aerfs.rs:177-200 | what is read of any 128 bytes are the fields at those places |
| `AerBytes.InodePlace` | kernel/src/aerfs.rs:731-746 | inode i is in the i-th 128 bytes of the table, and free past its end |
| `AerBytes.EntryEncoded` | kernel/src/aerfs.rs:846-869 | where inode, length, kind and name are in the 64 bytes of a slot, and zeros after the name |
| `AerBytes.EntryDecoded` | kernel/src/aerfs.rs:976-985 | what is read of any 64 bytes are the fields at those places, a length over 58 counting as 58 |
| `AerBytes.EntryPlace` | kernel/src/aerfs.rs:973-989 | entry k is in the k-th 64 bytes of a directory, and there are as many as fit |
| `AerBytes.SuperEncoded` | kernel/src/aerfs.rs:390-404 | where each field of a superblock is in its sector, the checksum of the first 508 bytes last |
| `AerBytes.SuperDecoded` | kernel/src/aerfs.rs:406-437 | a sector is a superblock exactly if it begins with the name and version of the format, ends with the checksum of the rest and has a usable height; its fields are those at the places given |
| `AerDevice.Device.WriteBlock` | kernel/src/aerfs.rs:88-98 | a block write is seen by later reads at once and stays unflushed; a failed one may leave anything in that block and touches no other |
| `AerDevice.Device.WriteSector` | kernel/src/aerfs.rs:88-98 | a sector write replaces one sector; a failed one is refused and changes nothing, or is left in flight with the old sector or the new one to be seen |
| `AerDevice.Device.Flush` | kernel/src/aerfs.rs:88-98 | a flush that succeeds makes everything seen durable; one that fails promises nothing new |
| `AerDevice.CrashSector` | kernel/src/aerfs.rs:88-98 | with one sector write in flight, a power cut leaves the old sector or the new one, whole |
| `AerDevice.SectorLands` | kernel/src/aerfs.rs:88-98 | an unflushed sector write may have landed whole |
| `AerTree.DigitStep` | kernel/src/aerfs.rs:506-522 | the radix digits of a block index, one level at a time, lead to that block |
| `AerTree.StoredUnique` | kernel/src/aerfs.rs:480-491 | what an image stores under a pointer is determined by the image |
| `AerTree.OverlayBlock` | kernel/src/aerfs.rs:564-611 | copying the overlap of the data into a block is the overwrite's effect on that block |
| `AerTree.TrimmedRoot` | kernel/src/aerfs.rs:704-727 | a trimmed tree that fits one level lower has everything under its first child |
| `AerTree.GrownBytes` | kernel/src/aerfs.rs:547-561 | putting a root above a tree changes no byte of the file |
| `AerOwnership.KidStep` | kernel/src/aerfs.rs:564-611 | replacing one child exchanges exactly its blocks and leaves its siblings and everything outside alone |
| `AerOwnership.BuildDone` | kernel/src/aerfs.rs:564-611 | when all children are done and the node is written anew, the subtree's blocks are exactly exchanged and its bytes edited |
| `AerOwnership.BuildEmpty` | kernel/src/aerfs.rs:643-702 | a node whose last child is gone is released with all its blocks |
| `AerOwnership.RootDropped` | kernel/src/aerfs.rs:704-727 | dropping a root whose only child is the first releases that one block |
| `AerForest.WrittenContent` | kernel/src/aerfs.rs:613-624 | growing a tree and editing its blocks overwrites the file's bytes, with zeros in between |
| `AerForest.TruncatedContent` | kernel/src/aerfs.rs:704-727 | cutting blocks and lowering the tree cuts the file's bytes and leaves zeros past the end |
| `AerForest.ExtendContent` | kernel/src/aerfs.rs:704-711 | extending a file exposes only zeros |
| `AerForest.OwnedExchange` | kernel/src/aerfs.rs:356-388 | exchanging one file's blocks keeps the files apart and the map of blocks in use exact |
| `AerForest.MountsUnique` | kernel/src/aerfs.rs:1282-1308 | an image mounts as at most one volume |
| `AerFsModel.AerFs.Alloc` | kernel/src/aerfs.rs:356-371 | gives the first free block from the hint on, wrapping around, neither in use nor taken, and the hint moves past it; fails exactly when there is none |
| `AerFsModel.AerFs.Release` | kernel/src/aerfs.rs:373-382 | a block taken in this transaction is free again at once, a committed one only after the commit |
| `AerFsModel.AerFs.ReadChecked` | kernel/src/aerfs.rs:480-491 | what passes the checksum is the block on the device; on an intact tree only the device can make it fail |
| `AerFsModel.AerFs.WriteNew` | kernel/src/aerfs.rs:493-502 | writes to a newly taken block and returns a pointer with its checksum |
| `AerFsModel.AerFs.LeafPointer` | kernel/src/aerfs.rs:506-522 | follows the tree to a data block, or to a hole |
| `AerFsModel.AerFs.TreeRead` | kernel/src/aerfs.rs:524-545 | reads exactly the file's bytes at the offset, up to its end, for every height and holes |
| `AerFsModel.AerFs.Grow` | kernel/src/aerfs.rs:547-561 | raises the tree until it has room, bytes unchanged; too big exactly past three levels |
| `AerFsModel.AerFs.WriteNode` | kernel/src/aerfs.rs:564-611 | rewrites the part of a tree that the data falls into, copying every node on the way, and leaves the scratch blocks of higher levels alone |
| `AerFsModel.AerFs.TreeWrite` | kernel/src/aerfs.rs:613-624 | the file's bytes become the old ones overwritten at the offset, gaps zero; blocks are exactly exchanged |
| `AerFsModel.AerFs.FreeSubtree` | kernel/src/aerfs.rs:626-641 | releases exactly the blocks of a subtree |
| `AerFsModel.AerFs.TruncateNode` | kernel/src/aerfs.rs:643-702 | drops every block past the cut and zeroes the rest of the last one kept |
| `AerFsModel.AerFs.TruncateKids` | kernel/src/aerfs.rs:660-702 | the children's part of a cut: a node left without children is released, one with a changed child is copied |
| `AerFsModel.AerFs.Lower` | kernel/src/aerfs.rs:713-726 | lowers a trimmed tree to the height it needs without changing a byte |
| `AerFsModel.AerFs.TreeTruncate` | kernel/src/aerfs.rs:704-727 | the file's bytes become the old ones cut or extended with zeros |
| `AerFsModel.AerFs.GetInode` | kernel/src/aerfs.rs:731-746 | the record of an inode of the volume in memory; on a readable table only a number out of range or the device can make it fail |
| `AerFsModel.AerFs.GetRecord` | kernel/src/aerfs.rs:731-746 | the record at that number of an intact table, whatever the records hold; damage is reported exactly for a height no tree has |
| `AerFsModel.AerFs.PutInode` | kernel/src/aerfs.rs:748-757 | replaces one record of the table and no other |
| `AerFsModel.AerFs.LiveInode` | kernel/src/aerfs.rs:759-766 | the record of an inode in use; not found exactly when it is free or out of range |
| `AerFsModel.AerFs.FreeInodeNumber` | kernel/src/aerfs.rs:784-796 | the lowest number not in use; no space exactly when all are |
| `AerFsModel.AerFs.DirFind` | kernel/src/aerfs.rs:801-815 | the first entry under a name |
| `AerFsModel.AerFs.DirFindIno` | kernel/src/aerfs.rs:817-829 | the slot of an inode, or the first free slot |
| `AerFsModel.AerFs.DirIsEmpty` | kernel/src/aerfs.rs:831-843 | true exactly when no slot is in use |
| `AerFsModel.AerFs.DirInsert` | kernel/src/aerfs.rs:846-869 | adds one entry, in the first free slot or at the end |
| `AerFsModel.AerFs.DirClear` | kernel/src/aerfs.rs:873-892 | clears one slot and gives back the free slots at the end |
| `AerFsModel.AerFs.DropInode` | kernel/src/aerfs.rs:1128-1131 | frees an inode's blocks and its record, and nothing else |
| `AerNames.ListingInsert` | kernel/src/aerfs.rs:846-869 | an entry added to a directory: its listing gains exactly that entry |
| `AerNames.ListingClear` | kernel/src/aerfs.rs:873-892 | an entry cleared: the listing loses exactly that entry |
| `AerNames.RootedMove` | kernel/src/aerfs.rs:1168-1219 | moving a directory under one it does not contain leaves every chain of parents leading to the root |
| `AerNames.SlotBound` | kernel/src/aerfs.rs:846-869 | a directory never has more slots in use than there are inodes |
| `AerCalls.CreateKeeps` | kernel/src/aerfs.rs:1019-1044 | creating keeps: one entry for each inode, in its recorded parent with its kind, names unique, no cycles |
| `AerCalls.RemoveKeeps` | kernel/src/aerfs.rs:1133-1151 | removing keeps the same |
| `AerCalls.RenameKeeps` | kernel/src/aerfs.rs:1168-1219 | renaming, over an existing name or not, keeps the same |
| `AerCalls.CallKeeps` | kernel/src/aerfs.rs:1019-1219 | every mutating call keeps the same |
| `AerCalls.CreateNames` | kernel/src/aerfs.rs:1019-1044 | creating adds exactly one name |
| `AerCalls.RemoveNames` | kernel/src/aerfs.rs:1133-1151 | removing takes away exactly one inode and its one name |
| `AerCalls.RenameNames` | kernel/src/aerfs.rs:1168-1219 | renaming drops the old name and whatever held the new one and adds the new name, all at once |
| `AerCalls.NamesUnique` | kernel/src/aerfs.rs:801-829 | an entry is the only one under its name and the only one of its inode |
| `AerCalls.InsideCutOff` | kernel/src/aerfs.rs:1153-1164 | the walk up gives up exactly when neither the inode nor the root is among the first 4096 steps |
| `AerDepth.RenameCutOff` | kernel/src/aerfs.rs:1153-1219 | on an undamaged volume a rename reports damage exactly when it is valid in every other way, moves a directory, and the directory it goes to has 4096 or more above it with the moved one not among the 4096 nearest |
| `AerDepth.DepthIs` | kernel/src/aerfs.rs:1153-1164 | the depth counted along the parents is the number of the first step up that reaches the root |
| `AerDepth.TooDeepToRename` | kernel/src/aerfs.rs:1153-1219 | directories created one inside the other on a fresh volume: giving the last one another name in place fails as damage exactly from the 4097th on, and the volume is undamaged |
| `AerFsModel.AerFs.IsInsideOf` | kernel/src/aerfs.rs:1153-1164 | walks up as the specification does, on the stored records |
| `AerFsModel.AerFs.CreateIn` | kernel/src/aerfs.rs:1019-1044 | the body of create does what its specification on names and bytes says, error cases included; see `AerEffects.CreateEffect` |
| `AerFsModel.AerFs.WriteIn` | kernel/src/aerfs.rs:1054-1073 | the body of a write, likewise; what that is on bytes, `AerEffects.WriteEffect` says |
| `AerFsModel.AerFs.TruncateIn` | kernel/src/aerfs.rs:1075-1094 | the body of truncate, likewise; see `AerEffects.TruncateEffect` |
| `AerFsModel.AerFs.SetReadOnlyIn` | kernel/src/aerfs.rs:1096-1106 | the body of set_read_only, likewise |
| `AerFsModel.AerFs.SetModeIn` | kernel/src/aerfs.rs:1108-1118 | the body of set_mode, likewise |
| `AerFsModel.AerFs.RemoveIn` | kernel/src/aerfs.rs:1133-1151 | the body of remove, likewise; see `AerEffects.RemoveEffect` |
| `AerFsModel.AerFs.UnlinkAndDrop` | kernel/src/aerfs.rs:1133-1151 | the name goes first, then the inode with its blocks; as a whole what the specification says |
| `AerFsModel.AerFs.DisplaceIn` | kernel/src/aerfs.rs:1190-1205 | the inode in the way of a rename is removed, unless its kind, its contents or its attributes forbid it |
| `AerFsModel.AerFs.RenameIn` | kernel/src/aerfs.rs:1168-1219 | the body of rename, likewise; see `AerEffects.RenameEffect` |
| `AerFsModel.AerFs.Rollback` | kernel/src/aerfs.rs:384-388 | memory is back at the committed volume |
| `AerFsModel.AerFs.FlushBlocks` | kernel/src/aerfs.rs:441-447 | the blocks of the new volume become durable before any superblock is written; the old volume survives every device step of it |
| `AerFsModel.AerFs.WriteSuper` | kernel/src/aerfs.rs:448-453 | one sector of the slot that is not current is written; every state on the way survives a power cut as the volume before or after |
| `AerFsModel.AerFs.Publish` | kernel/src/aerfs.rs:441-462 | blocks first, then the superblock, each flushed: published, refused, or in doubt exactly when the sector is in flight |
| `AerFsModel.AerFs.Commit` | kernel/src/aerfs.rs:441-462 | either the new volume is committed and in force, the one before it still whole, or the old one is in force; at every device step in between a power cut leaves one of the two; only a failing device makes it fail, and it is open which holds exactly when the superblock sector is left in flight, and then a power cut may leave either |
| `AerCrash.AnchoredWrite` | kernel/src/aerfs.rs:356-371 | writing blocks the committed volume does not use cannot harm it, torn or whole |
| `AerCrash.SlotsAdvance` | kernel/src/aerfs.rs:441-452 | the next superblock goes to the slot of the older one, wins, and leaves the current one where it was |
| `AerCrash.CommitInFlight` | kernel/src/aerfs.rs:441-462 | while the superblock sector is in flight, a power cut leaves the old volume or the new one, both whole |
| `AerCrash.CommitInDoubt` | kernel/src/aerfs.rs:441-462 | with that sector in flight both outcomes are possible, whatever the call has reported |
| `AerCrash.CommitLanded` | kernel/src/aerfs.rs:441-462 | once it is flushed the new volume is the committed one |
| `AerCrash.LoadGuards` | kernel/src/aerfs.rs:1282-1308 | a volume read back from a quiet device is guarded against power cuts from then on |
| `AerFsModel.AerFs.End` | kernel/src/aerfs.rs:465-476 | a transaction takes effect as a whole or changes nothing |
| `AerFsModel.AerFs.CreateEntry` | kernel/src/aerfs.rs:1019-1052 | the lowest free inode is new and empty, with the permissions of its kind, and the directory has exactly that name more; or nothing changes. It fails exactly with the error the call is to be refused with, or for a failing device or a full one, and every device state it goes through survives a power cut as before or after |
| `AerFsModel.AerFs.WriteFileAt` | kernel/src/aerfs.rs:1054-1073 | the data is in the file from the offset on, a gap before it is zero, every other byte, attribute and inode is as it was and the time is the call's; or nothing changes. Errors and power cuts as for create |
| `AerFsModel.AerFs.TruncateTo` | kernel/src/aerfs.rs:1075-1094 | the file has that length: its own bytes as far as they go, then zeros; the rest as for a write |
| `AerFsModel.AerFs.ChangeReadOnly` | kernel/src/aerfs.rs:1096-1106 | exactly that flag of that inode is set; the rest as for a write, but the time stays |
| `AerFsModel.AerFs.ChangeMode` | kernel/src/aerfs.rs:1108-1118 | exactly the low twelve bits of the permissions of that inode are set; the rest likewise |
| `AerFsModel.AerFs.RemoveEntry` | kernel/src/aerfs.rs:1133-1151 | the inode is gone with its one name, and nothing else; the rest as for create |
| `AerFsModel.AerFs.RenameEntry` | kernel/src/aerfs.rs:1168-1219 | the inode has its new name and parent and nothing else new; whatever else had that name is gone; every other name and inode stays; the rest as for create |
| `AerFsModel.AerFs.Perform` | kernel/src/aerfs.rs:1019-1219 | the same for any call |
| `AerEffects.WriteEffect` | kernel/src/aerfs.rs:1054-1073 | the data is in the file from the offset on, a gap before it is zero, every other byte, attribute and inode is as it was, and the time is the call's |
| `AerEffects.TruncateEffect` | kernel/src/aerfs.rs:1075-1094 | the file has that length, its own bytes as far as they go and then zeros, and nothing else changes but its time |
| `AerEffects.CreateEffect` | kernel/src/aerfs.rs:1019-1052 | the lowest free number is a new, empty inode of that kind with its permissions, and there is exactly one name more |
| `AerEffects.RemoveEffect` | kernel/src/aerfs.rs:1133-1151 | inode and name are gone, and only the parent's bytes and time change |
| `AerEffects.RenameEffect` | kernel/src/aerfs.rs:1168-1219 | the inode has the new parent and name and keeps everything else; what had the name is gone; of all other inodes only the two directories change, in bytes and time |
| `AerEffects.SpecEffect` | kernel/src/aerfs.rs:1019-1219 | every call that succeeds has its effect, said without the functions that specify calls |
| `AerEffects.CreateRefusal` | kernel/src/aerfs.rs:1019-1044 | each error of create, exactly when it is due: a bad name, no directory, a name that is taken, no inode left |
| `AerEffects.WriteRefusal` | kernel/src/aerfs.rs:1054-1073 | each error of a write, exactly when it is due: no file, read-only, bytes past 2^39 |
| `AerEffects.RemoveRefusal` | kernel/src/aerfs.rs:1133-1151 | each error of remove, exactly when it is due: the root, no inode, read-only, a directory with names in it |
| `AerEffects.InsideIs` | kernel/src/aerfs.rs:1153-1166 | the walk up from a directory finds an inode exactly if it is that directory or above it, and gives up exactly if neither it nor the root is within 4096 steps |
| `AerEffects.RenameRefusal` | kernel/src/aerfs.rs:1168-1219 | each error of rename, exactly when it is due: by the arguments, by what is above the new directory, and by kind, flag and contents of what has the name |
| `AerEffects.SpecRefusal` | kernel/src/aerfs.rs:1019-1219 | every call is refused with an error exactly when that error is due |
| `AerFsModel.AerFs.CallMeans` | kernel/src/aerfs.rs:1019-1219 | so every call carried out on the device has its effect, or the error is due or the device's |
| `AerFsModel.AerFs.SettledOnDisk` | kernel/src/aerfs.rs:3-21 | between calls the superblock in force is, byte for byte, in the slot of its generation's parity, and in the other an older one or none |
| `AerFsModel.AerFs.Run` | kernel/src/aerfs.rs:3-21 | any run of calls, failed ones included: each does exactly its effect on inodes, bytes and names or is refused with the error that is due; cut at any device step, what mounts is the volume before or after the call in progress, with all earlier calls in it; it goes on to the last call unless a superblock sector is left in flight, and then a power cut may leave the volume before or after that call; on a device that does not fail it reaches its end |
| `AerFsModel.AerFs.Find` | kernel/src/aerfs.rs:921-933 | finds exactly the one entry of that name, with its inode's attributes; not found exactly when there is none |
| `AerFsModel.AerFs.ReadAt` | kernel/src/aerfs.rs:993-999 | fills the buffer with the file's bytes from the offset on, as many as there are and as fit, and leaves the rest of it |
| `FileBytes.SliceReads` | kernel/src/aerfs.rs:993-999 | byte by byte, what a read puts into the buffer |
| `AerFsModel.AerFs.MarkNode` | kernel/src/aerfs.rs:1316-1336 | marks exactly the blocks of a tree, each once; on an intact volume it meets none twice |
| `AerFsModel.AerFs.Scan` | kernel/src/aerfs.rs:1340-1351 | the map of blocks in use is rebuilt exactly, without a report of damage |
| `AerFsModel.AerFs.ChooseSuper` | kernel/src/aerfs.rs:1282-1300 | picks the newest valid superblock among exactly the slots that could be read |
| `AerFsModel.AerFs.Load` | kernel/src/aerfs.rs:1282-1308 | whatever slots can be read: the newest volume is the one taken exactly when its own slot is read, and is then mounted with the blocks in use exactly the superblocks and what it reaches; otherwise the older superblock is taken, and its volume if that is still there; no superblock exactly when neither slot gives one; it succeeds on every device that does not fail |
| `AerSlots.PickedNewest` | kernel/src/aerfs.rs:1282-1300 | the superblock taken is in a slot that could be read and none in such a slot is newer |
| `AerSlots.CurrentTaken` | kernel/src/aerfs.rs:1282-1300 | the current superblock is taken exactly when its slot can be read |
| `AerSlots.StillWhole` | kernel/src/aerfs.rs:356-388 | a volume is whole exactly as long as each of its blocks holds what it held |
| `AerSlots.OlderStillWhole` | kernel/src/aerfs.rs:356-388 | beside an intact current volume the one before it is whole exactly as long as no block only it used has been written again |
| `AerSlots.OlderTaken` | kernel/src/aerfs.rs:1282-1308 | an image as one change of the root's permissions leaves it on which, the newer slot unreadable, the volume before the change is the one mounted |
| `AerSlots.NewerAtRisk` | kernel/src/aerfs.rs:356-388 | once the older volume is mounted, and as long as no superblock is written, a mount that reads both slots picks the newer superblock, and finds its volume exactly when none of the blocks only it uses has been written |
| `AerSlots.RiskEnds` | kernel/src/aerfs.rs:441-462 | the next commit takes the slot and the generation of the unread superblock, and its own is then the one picked |
| `AerSlots.NewerLost` | kernel/src/aerfs.rs:356-388 | an image on which a single write, to a block free in the older volume, leaves the newer superblock picked and its volume gone |
| `AerFsModel.AerFs.FormatHere` | kernel/src/aerfs.rs:1224-1259 | leaves a mounted volume that holds only its root; refuses exactly the sizes out of range |
| `AerFsModel.Reboot` | kernel/src/aerfs.rs:1273-1308 | after a power cut in any state a call goes through, with both superblock slots readable, the volume mounted is the one before or the one after it |
| `AerFsModel.AerFs.CheckNode` | kernel/src/aerfs.rs:1355-1387 | an intact tree adds no damage to the report and has each block counted once; a tree that adds none is intact, within the volume, and shares no block with what was met before, whatever state the volume is in |
| `AerFsModel.AerFs.CheckKids` | kernel/src/aerfs.rs:1382-1386 | the same for the children of a node, one after the other |
| `AerCheck.SurveyUnique` | kernel/src/aerfs.rs:1402-1416 | what an image holds under a superblock is determined by the image |
| `AerCheck.SurveyAdd` | kernel/src/aerfs.rs:1402-1416 | an inode in use with an intact tree of its own makes the survey one inode longer |
| `AerCheck.SurveyPrefix` | kernel/src/aerfs.rs:1402-1416 | the first inodes of a surveyed volume are surveyed, and the next tree shares no block with theirs |
| `AerFsModel.AerFs.CheckInode` | kernel/src/aerfs.rs:1402-1416 | one inode: adding no damage means that its record is readable and its tree intact and its own; of an inode of which that is so no damage is added |
| `AerFsModel.AerFs.CheckTrees` | kernel/src/aerfs.rs:1392-1416 | no damage is found exactly if there are trees, of the table and of every inode in use, that are intact and share no block; each inode and each block is counted once |
| `AerFsModel.AerFs.CheckEntry` | kernel/src/aerfs.rs:1432-1441 | an entry is counted as damaged exactly if it is in use and its inode has another kind or another parent |
| `AerFsModel.AerFs.CheckEntries` | kernel/src/aerfs.rs:1424-1442 | no entry is counted as damaged exactly if every slot, the last one even if it is cut short, agrees with its inode; the inodes noted are exactly those named |
| `AerFsModel.AerFs.CheckNames` | kernel/src/aerfs.rs:1417-1443 | the same over all directories; the inodes noted are the root and exactly those some directory names |
| `AerFsModel.AerFs.CheckOrphans` | kernel/src/aerfs.rs:1444-1451 | no orphan is counted exactly if every inode in use but the root has been noted |
| `AerFsModel.AerFs.CheckMap` | kernel/src/aerfs.rs:1452-1456 | no mismatch is counted exactly if the blocks met are those of the map |
| `AerCheck.NamedIfNoOrphan` | kernel/src/aerfs.rs:1444-1451 | with no orphan counted every inode in use but the root has an entry in some directory |
| `AerCheck.SlotIsEntry` | kernel/src/aerfs.rs:1424-1442 | in a directory of whole slots the slots a check reads are its entries |
| `AerCheck.WholeAudited` | kernel/src/aerfs.rs:1392-1458 | every volume stored whole, in the shape the calls keep, is one a check passes |
| `AerFsModel.AerFs.MountedAudited` | kernel/src/aerfs.rs:1392-1458 | so is every reachable volume |
| `AerFsModel.AerFs.Fsck` | kernel/src/aerfs.rs:1392-1458 | a volume in any state, on a device that does not fail: no damage is reported exactly if there is a volume on it whose trees are intact and share no block, whose blocks are those of the map, whose entries all agree with their inodes and whose inodes all have an entry, and there is only one such; each inode and block is counted once; every reachable volume is clean; if reads fail, both directions hold as long as those the verdict rests on do not |
| `BitStreams.ReverseShift` | kernel/src/deflate.rs:44-46 | reversing a 32-bit word and shifting down reverses the code alone |
| `DeflateFormat.LengthFits` | kernel/src/deflate.rs:55-61 | the extra bits of a length always fit the bits the table gives them, and base and extra give back the length |
| `DeflateFormat.DistanceFits` | kernel/src/deflate.rs:62-69 | the same for distances up to 32768 |
| `DeflateFormat.LengthTable` | kernel/src/deflate.rs:55-61 | the tables of lengths hold what section 3.2.5 of RFC 1951 counts up: runs of four codes, each run with one extra bit more |
| `DeflateFormat.DistanceTable` | kernel/src/deflate.rs:62-69 | the same for distances, runs of two codes |
| `DeflateFormat.CopyIsInput` | kernel/src/deflate.rs:126-139 | copying from where the input repeats itself gives the input, overlapping copies included |
| `DeflateFormat.InflateTokens` | kernel/src/deflate.rs:89-189 | a decoder written from sections 3.2.5 and 3.2.6 of RFC 1951 gives back what the tokens stand for and stops where they end |
| `DeflateFormat.TokenCost` | kernel/src/deflate.rs:72-79 | no token takes more than nine bits for each byte it stands for |
| `Deflate.BitWriter.Put` | kernel/src/deflate.rs:26-41 | appends exactly the low bits, or fails exactly when a byte would not fit |
| `Deflate.BitWriter.PutCode` | kernel/src/deflate.rs:44-46 | appends a Huffman code from its highest bit |
| `Deflate.BitWriter.Flush` | kernel/src/deflate.rs:48-52 | fills the last byte with zero bits |
| `Deflate.BitWriter.PutSymbol` | kernel/src/deflate.rs:72-79 | appends the fixed code of a literal or length symbol |
| `Deflate.BitWriter.PutToken` | kernel/src/deflate.rs:141-164 | appends the code of a literal or of a copy with its extra bits |
| `Deflate.FindMatch` | kernel/src/deflate.rs:116-140 | the match reported is one, within the window and up to 258 bytes, and none of the 24 nearest positions of the same hash in the window agrees for longer |
| `Deflate.IndexPositions` | kernel/src/deflate.rs:165-173 | each hash leads to its last position so far, and each position still in the window to the nearest one before it with the same hash |
| `Deflate.IndexStep` | kernel/src/deflate.rs:165-173 | one position more: no link of another position still in the window is overwritten |
| `Deflate.NextToken` | kernel/src/deflate.rs:113-164 | the token stands for exactly the next bytes of the input, and is a literal only when no candidate agrees for three bytes |
| `Deflate.StreamDecodes` | kernel/src/deflate.rs:89-189 | a finished stream decodes to the input and begins with the two bytes of its header |
| `DeflateFormat.BigEndianValue` | kernel/src/deflate.rs:182-184 | the last four bytes, weighted from the highest down, are the checksum |
| `Deflate.WriteTokens` | kernel/src/deflate.rs:112-178 | the tokens written stand for the whole input |
| `Deflate.WriteEnd` | kernel/src/deflate.rs:179-189 | the end of the block, zeros up to a whole byte and the checksum, its highest byte first, complete the stream |
| `Deflate.ZlibCompress` | kernel/src/deflate.rs:88-189 | a stream that fits begins with 0x78 0x9c, ends with the checksum of the input as the weighted sum of its last four bytes, and decodes, by section 2.2 of RFC 1950, to the input; and one always fits in 6 + ceil((9n + 10) / 8) bytes |
| `Adler.Adler32` | kernel/src/inflate.rs:353-366 | reducing once in each chunk gives the checksum of the definition, and no sum leaves 32 bits |
| `Adler.ChecksumSteps` | kernel/src/inflate.rs:353-366 | the checksum of nothing is one, and what one byte more makes of a checksum, by the two sums modulo 65521 |
| `HuffmanMerge.MergeOk` | tools/make-progressive.py:166-187 | merging the two lists of least frequency keeps the lists disjoint, the symbols covered and each list's weight one |
| `HuffmanCost.LightestDeepest` | tools/make-progressive.py:166-176 | whatever lengths a prefix code gives, the two least frequent symbols can share the greatest length at no more cost |
| `HuffmanCost.MergeCheaper` | tools/make-progressive.py:166-187 | lengths for the forest before a merge give lengths for the one after it that cost less by at least the merged frequencies |
| `HuffmanMerge.DepthStep` | tools/make-progressive.py:166-187 | merging keeps every deep tree, and every tree beside it, as heavy as the Fibonacci numbers ask |
| `HuffmanMerge.DeepestStep` | tools/make-progressive.py:166-187 | merging the last of the lightest trees keeps the reserved symbol as deep as any other |
| `HuffmanMerge.CodeSizes` | tools/make-progressive.py:162-187 | the code lengths sum, as powers of one half, to exactly one; no lengths of any prefix code cost less; a code of n bits needs a total count of at least the Fibonacci number F(n + 2); the reserved symbol's code is as long as any |
| `HuffmanCounts.LongestEven` | tools/make-progressive.py:192-200 | the longest codes come in pairs |
| `HuffmanCounts.ShorterExists` | tools/make-progressive.py:192-200 | the search for a shorter code to split never runs off the table |
| `HuffmanCounts.SplitCodes` | tools/make-progressive.py:192-200 | one step of the adjustment keeps the number of codes and the sum |
| `HuffmanCounts.Limit` | tools/make-progressive.py:192-200 | the adjustment ends with no code over 16 bits, the same number of codes and a sum of one; it is a chain of steps, in each of which two of the longest codes go and the longest of those at least two bits shorter makes way for them |
| `HuffmanCounts.DropLongest` | tools/make-progressive.py:201-204 | one code of the greatest length goes and no other, so no code is all ones |
| `HuffmanTables.CountSizes` | tools/make-progressive.py:188-191 | counts how many codes each length has; there is no table exactly when one is over 32 |
| `HuffmanTables.SortSymbols` | tools/make-progressive.py:205-209 | every symbol with a code once, by length and number, at a place of its length, the reserved one left out |
| `HuffmanTables.OptimalTable` | tools/make-progressive.py:162-210 | a table exactly when some symbol occurs and no optimal length is over 32, which any total count below 9227464 rules out: at most 16 bits, room for one code more; its counts are how many symbols have each length, limited as `Limit` says, less one of the longest; when no optimal length is over 16, every symbol's code has its optimal length |
| `HuffmanTables.LengthsKept` | tools/make-progressive.py:188-210 | dropping one longest code takes away exactly the reserved symbol's, so the canonical codes have the lengths the algorithm gave |
| `HuffmanTables.CodeTable` | tools/make-progressive.py:213-223 | canonical codes: each value has the code the counting assigns to its place, which is the one before plus one, shifted by as many bits as it is longer |
| `HuffmanTables.CountUp` | tools/make-progressive.py:213-223 | the first code is zero, and each next one is one more than the code before, with a zero bit behind it for each bit it is longer |
| `HuffmanTables.BuildDecoder` | tools/make-progressive.py:83-93 | the decoder's table is the inverse of the canonical assignment |
| `HuffmanStream.PrefixFree` | tools/make-progressive.py:213-223 | no code starts with another and none is all ones |
| `HuffmanStream.DecodeCode` | tools/make-progressive.py:126-132 | a code is read as its symbol whatever follows |
| `HuffmanStream.SymbolsRoundTrip` | tools/make-progressive.py:126-132 | reading the bits of a list of symbols gives the list |
| `HuffmanStream.Pack` | tools/make-progressive.py:380-387 | padding with ones, packing and stuffing: every byte is worth its eight bits, the first of them 128, and a zero follows every 0xFF |
| `HuffmanStream.MsbBytesWeigh` | tools/make-progressive.py:381-385 | a byte of a bit string, by the weights of its eight bits |
| `HuffmanStream.StuffedIs` | tools/make-progressive.py:382-387 | a zero follows every 0xFF |
| `HuffmanStream.StuffedLength` | tools/make-progressive.py:382-387 | as many bytes are added as there were 0xFF |
| `HuffmanStream.Pad` | tools/make-progressive.py:379-380 | ones up to a whole byte, fewer than eight of them |
| `HuffmanStream.UnstuffStuffed` | tools/make-progressive.py:97-110 | unstuffing undoes stuffing and stops at the marker |
| `HuffmanStream.Unstuff` | tools/make-progressive.py:97-110 | removes the stuffed zeros up to the first marker |
| `HuffmanStream.BitReader.DecodeSymbol` | tools/make-progressive.py:126-132 | reads the one symbol whose code comes next, or reports that none does |
| `HuffmanStream.ReadSymbols` | tools/make-progressive.py:113-132 | reads back the symbols that were written |
| `HuffmanStream.WriteAndRead` | tools/make-progressive.py:83-132 | counts to table to codes to stuffed bytes to symbols again: what is read is what was written, whenever there is a table |
| `DcScan.AmplitudeRoundTrip` | tools/make-progressive.py:134-135 | extending the low bits of a value of that size gives the value, negative ones included |
| `DcScan.ExtendTable` | tools/make-progressive.py:134-135 | the numbers that n bits stand for, by value: the lower half counts up from 1 - 2^n, the upper half from 2^(n-1) |
| `DcScan.AmplitudeIs` | tools/make-progressive.py:250-257 | a number that is not negative is written as it is, a negative one less one in its n bits, in the lower half |
| `DcScan.SizeIsCategory` | tools/make-progressive.py:250-257 | the bit length of a difference is the one whose bits hold it exactly |
| `DcScan.DiffIs` | tools/make-progressive.py:248-257 | a value is the one before it, or zero, plus its difference |
| `DcScan.GroupWritten` | tools/make-progressive.py:248-257 | the bits of one difference: its size's code, then as a number the difference, or for a negative one what it is less one modulo 2^n |
| `DcScan.Count` | tools/make-progressive.py:345-354 | the first pass counts each size as often as it comes up |
| `DcScan.Write` | tools/make-progressive.py:248-257 | each difference from the value before, one after the other and with nothing in between: the code of its size, then as a number the difference, or for a negative one what it is less one modulo 2^n |
| `HuffmanStream.BitReader.ReadBits` | tools/make-progressive.py:120-124 | the number that the next bits, high one first, stand for |
| `DcScan.Read` | tools/make-progressive.py:137-147 | reading a size, the number that many bits stand for and adding up gives the values written |
| `DcScan.WriteAndRead` | tools/make-progressive.py:83-147 | DC values of a first scan: counted, coded with the table made of the counts, stuffed, and read back as they were; there is a table for every scan of 1 to 9227463 values |
| `BlockCache.Cache.FindPage` | kernel/src/block.rs:261-269 | the one way that holds a page, if any |
| `BlockCache.Cache.Insert` | kernel/src/block.rs:277-301 | puts a page into an empty way of its set or, in a full set, in place of the one used longest ago; or, if there is an empty way and the cache may not grow, leaves all as it was, and only then |
| `BlockCache.Cache.CacheInvalidate` | kernel/src/block.rs:314-321 | exactly the pages of that disk that overlap the sectors go, and the cache stays coherent |
| `BlockCache.Cache.CacheStore` | kernel/src/block.rs:323-339 | exactly the cached pages the sectors lie in are brought up to date and marked as used now; no page comes or goes |
| `BlockCache.Cache.Read` | kernel/src/block.rs:346-380 | what it returns is, sector by sector, what the medium holds, and the cache stays coherent |
| `BlockCache.Cache.ReadPagePart` | kernel/src/block.rs:382-426 | the part of a page: a page that is cached is marked as the one used last, and nothing else changes; one that is not comes in whole if there is memory and the disk has all of it, and the cache is left alone otherwise |
| `BlockCache.Cache.ReadThrough` | kernel/src/block.rs:400-419 | a page missed comes in with what the medium holds and the miss is noted; the next one is read ahead exactly if this one follows the last one missed on that disk, in 64 bits |
| `BlockCache.Cache.ReadAhead` | kernel/src/block.rs:428-443 | the page asked for comes in, with what the medium holds, if there is memory, the disk has all of it, it is not cached yet and the read does not fail; otherwise the pages are as they were |
| `BlockCache.Cache.WriteRun` | kernel/src/block.rs:94-112 | after a write, failed ones too, every cached page equals the medium: the pages written to stay, up to date and used now, or after a failure exactly these go; it is one command, and leaves the head at its end |
| `BlockCache.Cache.Write` | kernel/src/block.rs:446-460 | the sectors given hold the data, each its own, and no other sector changes; the cache stays coherent when it fails |
| `BlockCache.Cache.InvalidateDisk` | kernel/src/block.rs:478-487 | drops every page of one disk and no other |
| `BlockCache.Cache.Reclaim` | kernel/src/block.rs:491-512 | gives back as many pages as asked for, or all, the least recently used first |
| `BlockBatches.AnyOrder` | kernel/src/block.rs:552-642 | requests without a conflict, served in any order, leave the same media and buffers as in order |
| `BlockBatches.StillThere` | kernel/src/block.rs:552-557 | a request not served yet finds the sectors it reads as they were |
| `BlockBatches.SectorAfter` | kernel/src/block.rs:552-642 | after a batch a sector holds what the last request that writes it gives, or what it held |
| `BlockBatches.ServedInTurn` | kernel/src/block.rs:552-642 | a read of a batch has, sector by sector, what is on the media when its turn comes; nothing else of a request changes |
| `BlockScheduler.Rotate` | kernel/src/block.rs:597-612 | the ascending requests of one disk become one sweep up from its head, then on from the lowest |
| `BlockScheduler.Arrange` | kernel/src/block.rs:592-613 | the order served has every request of the sorted one exactly once, disks by their slots, and is, for each run of one disk, one sweep up from where its head is and on from the lowest |
| `BlockScheduler.MergedWrite` | kernel/src/block.rs:726-767 | one write of the joined data is each write in turn |
| `BlockScheduler.MergedRead` | kernel/src/block.rs:726-767 | each request's part of one joined read is what its own read returns |
| `BlockScheduler.ReadsInTurn` | kernel/src/block.rs:726-767 | reads served in turn change no medium, and each gets what its own read would |
| `BlockScheduler.HasHazard` | kernel/src/block.rs:579-582 | true exactly when two requests of the group conflict |
| `BlockScheduler.Scheduler.ServeCached` | kernel/src/block.rs:655-683 | a well-formed read is served from the cache exactly if every sector of it is there, with what the medium holds; the pages stay, only when they were used changes |
| `BlockScheduler.Scheduler.CacheFill` | kernel/src/block.rs:686-704 | a run comes into the cache exactly if it is one whole page, there is memory and it is not there yet; the cache stays coherent |
| `BlockScheduler.Scheduler.RunSingle` | kernel/src/block.rs:706-724 | serves one request as its meaning says, past the cache with one command, or none if it is malformed |
| `BlockScheduler.Scheduler.RunMerged` | kernel/src/block.rs:726-767 | serves neighbours as if one by one, with one command for all of them unless one is malformed |
| `BlockScheduler.Scheduler.HandOut` | kernel/src/block.rs:726-767 | gives each request its part of the sectors read for all |
| `BlockScheduler.Scheduler.Gather` | kernel/src/block.rs:614-634 | the longest run of neighbours of one kind on one disk, of eight sectors at most, from a place on |
| `BlockScheduler.Scheduler.Dispatch` | kernel/src/block.rs:614-642 | the requests listed are served each once, and the commands are those of the longest runs the list can be cut into, one after the other |
| `BlockScheduler.Scheduler.Prepare` | kernel/src/block.rs:585-591 | exactly the reads the cache can serve are served from it, in turn; the others are listed |
| `BlockScheduler.Scheduler.RunSwept` | kernel/src/block.rs:579-642 | a group without a conflict: reads that the cache can serve first, then all others, disk by disk in one sweep each from where the last command left its head, and with the commands of the longest runs |
| `BlockScheduler.Scheduler.RunGroup` | kernel/src/block.rs:579-642 | a group between barriers has the meaning of its submission order, and each of its requests is served exactly once: in submission order when there is a conflict or no reordering, otherwise swept as `RunSwept` says |
| `BlockScheduler.Scheduler.RunNext` | kernel/src/block.rs:565-577 | the next group runs up to the next barrier or the end; everything said of the groups before it stays |
| `BlockScheduler.Scheduler.Submit` | kernel/src/block.rs:565-577 | both schedules leave media, buffers, flags and count exactly as if the first 64 requests had been served in the order submitted; each is served exactly once, and none across a barrier; the groups between barriers come in turn, each in submission order or swept, from where the commands before it left the heads |
| `GpeEvents.Gpe.constructor` | kernel/src/acpi_events.rs:200-224 | nothing pending, queued or running and no stale status, and exactly the handled events enabled |
| `GpeEvents.Gpe.HandleByte` | kernel/src/acpi_events.rs:260-287 | what is enabled and active is masked and noted before an edge is acknowledged |
| `GpeEvents.Gpe.HandleInterrupt` | kernel/src/acpi_events.rs:240-294 | every enabled event that is active is masked and pending, and nothing else is; an interrupt that finds none, and only such, is counted, in 32 bits, and shuts the line off exactly when more than 4000 came before; every handled event stays in exactly one of enabled, pending or in service, and no edge is lost |
| `GpeEvents.Gpe.HandleBytes` | kernel/src/acpi_events.rs:256-288 | the same over all bytes of the block: found is reported exactly if something was |
| `GpeEvents.Storm` | kernel/src/acpi_events.rs:240-313 | with nothing enabled the 4001st interrupt shuts the line off, and none before it |
| `GpeEvents.Gpe.ShutOff` | kernel/src/acpi_events.rs:297-312 | no source is enabled any more, until a poll enables again what was in hand |
| `GpeEvents.Gpe.Take` | kernel/src/acpi_events.rs:396-403 | pending events of a word become queued, each once |
| `GpeEvents.Gpe.Begin` | kernel/src/acpi_events.rs:404-433 | a handler is entered once for one masking and serves every edge so far |
| `GpeEvents.Gpe.Reenable` | kernel/src/acpi_events.rs:335-366 | a level event is acknowledged after its handler, an edge is not, and either is enabled again, on a line that is shut off too |
| `GpeEvents.Gpe.RunWord` | kernel/src/acpi_events.rs:403-436 | exactly the queued handlers of a word run, lowest number first, with interrupts between any two steps |
| `GpeEvents.Gpe.PollWord` | kernel/src/acpi_events.rs:396-436 | what is pending of a word is taken and its handlers run; what comes in meanwhile stays pending |
| `GpeEvents.Gpe.Poll` | kernel/src/acpi_events.rs:396-438 | every event pending at the call has its handler entered; conservation holds under every interleaving; on a line that is shut off exactly the events in hand at the shut-off have been enabled again when it returns |
| `GpeEvents.Gpe.OffUntilPolled` | kernel/src/acpi_events.rs:297-438 | shut off between two polls, a line has exactly the events pending then enabled again by the next; so none exactly when none was pending |
| `GpeEvents.Gpe.NeverAgain` | kernel/src/acpi_events.rs:297-366 | with nothing in hand at the shut-off nothing is enabled, pending, queued or running after it |
| `GpeEvents.OnAgain` | kernel/src/acpi_events.rs:240-366 | a run from the start: an event fires, 4001 interrupts find nothing and shut the line off, and the poll enables the event again |
| `NeedleSearch.Build` | kernel/src/antivirus.rs:698-717 | a counting sort: each needle exactly once, in the bucket of its first byte |
| `NeedleSearch.ScanAt` | kernel/src/antivirus.rs:719-741 | finds exactly the needles that start at a position |
| `NeedleSearch.Scan` | kernel/src/antivirus.rs:719-741 | finds exactly the needles that occur in the window |
| `NeedleSearch.OccursInTail` | kernel/src/antivirus.rs:814-863 | what is new in a longer stream shows in the old tail and the new bytes, if the needle has at most 81 bytes |
| `NeedleSearch.CutAnywhere` | kernel/src/antivirus.rs:806-863 | however a stream is cut, a needle of at most 81 bytes is found exactly when it is there |
| `NeedleSearch.SinglesMiss` | kernel/src/antivirus.rs:806-863 | fed one byte at a time, a longer needle is never found |
| `NeedleSearch.CutIndependent` | kernel/src/antivirus.rs:806-863 | the search is independent of the cuts exactly for needles of up to 81 bytes; those added at run time may have 96 (kernel/src/antivirus.rs:439) |
| `NeedleSearch.Scanner.FeedChunk` | kernel/src/antivirus.rs:814-863 | one chunk: the tail and the hits are those of the longer stream |
| `NeedleSearch.Scanner.Feed` | kernel/src/antivirus.rs:806-812 | after any feeding a needle of at most 81 bytes is hit exactly when it is in the stream |
| `AmlFields.GetBits` | kernel/src/aml.rs:2663-2673 | the bits asked for, zero past the end |
| `AmlFields.PutBits` | kernel/src/aml.rs:2675-2686 | replaces exactly those bits, nothing past the end |
| `AmlFields.MergedWord` | kernel/src/aml.rs:1134-1146 | masking and merging replaces exactly the field's bits of a word |
| `AmlFields.Region.ReadField` | kernel/src/aml.rs:1080-1110 | for every offset, length and access width: the field's bits, as an integer or a buffer; fails exactly when its last access unit passes the region's end or a buffer finds no room |
| `AmlFields.ShowIs` | kernel/src/aml.rs:1080-1110 | bit by bit: up to 64 bits an integer, more a buffer to the end of its last byte, zeros past the field |
| `AmlFields.Region.WriteField` | kernel/src/aml.rs:1112-1152 | the field holds the value cut or zero-extended to it and the other bits of the units touched follow the update rule; fails exactly when a unit passes the end, with the units before it written |
| `AmlFields.WrittenStores` | kernel/src/aml.rs:1112-1152 | bit by bit: the value in the field, zeros past its end; around it, in the units touched, what the update rule says; and every other bit as it was |
| `AmlFields.Preserved` | kernel/src/aml.rs:1112-1152 | under the preserve rule no bit outside the field changes |
| `AmlFields.FieldReadsBack` | kernel/src/aml.rs:1080-1152 | writing then reading gives the value cut or zero-extended to the field, under every update rule |
| `AmlFields.OtherFieldKept` | kernel/src/aml.rs:1112-1152 | other fields keep their values: always when they share no access unit, under preserve when they share no bit |
| `AmlFields.StoreThenRead` | kernel/src/aml.rs:1154-1203 | the same round trip for fields of buffers |
| `AmlFields.ReadThenStore` | kernel/src/aml.rs:1154-1203 | a value read and stored back changes nothing |
| `AmlFields.Buffers.ReadBufferField` | kernel/src/aml.rs:1154-1172 | the field's bits; fails exactly past the buffer's end or without room |
| `AmlFields.Buffers.WriteBufferField` | kernel/src/aml.rs:1174-1203 | replaces exactly the field's bits by the value's; when the value is the field's own buffer, by what the 64-bit steps leave |
| `AmlFields.SelfStore` | kernel/src/aml.rs:1174-1203 | storing a buffer into a field of itself is right for every content exactly when the field has at most 64 bits, starts at bit 0, or starts at or past its own length |
| `AmlFields.UnsafeCopy` | kernel/src/aml.rs:1174-1203 | otherwise there is a buffer that comes out wrong, and this is one |
| `AmlNamespace.Namespace.Child` | kernel/src/aml.rs:504-511 | the first child of that name, none exactly when there is none |
| `AmlNamespace.Namespace.Add` | kernel/src/aml.rs:513-530 | gives an existing child another kind or appends a node; parent and name stay unique; fails exactly when the table is full |
| `AmlNamespace.Namespace.TruncateNodes` | kernel/src/aml.rs:532-537 | keeps the nodes below the mark, and the root always |
| `AmlNamespace.Namespace.DerefAlias` | kernel/src/aml.rs:539-547 | follows aliases, eight steps at most; a live node leads to a live one when every alias points down |
| `AmlNamespace.Namespace.WalkPrefix` | kernel/src/aml.rs:549-558 | the root, or that many scopes up, stopping at the root |
| `AmlNamespace.Namespace.Search` | kernel/src/aml.rs:570-583 | ends, at the nearest enclosing scope with a child of that name; none exactly when no enclosing scope has one |
| `AmlNamespace.Namespace.Resolve` | kernel/src/aml.rs:562-587 | what the path means, segment by segment through aliases; a bare name means its nearest enclosing match; live when every alias points down |
| `AmlNamespace.Namespace.ResolveExact` | kernel/src/aml.rs:590-596 | the node the path leads to from its start, through no alias |
| `AmlPaths.DerefIs` | kernel/src/aml.rs:539-547 | where aliases lead: each the next, to the first that is none, or to the ninth |
| `AmlPaths.StartIs` | kernel/src/aml.rs:549-558 | where a path starts: the root, or that many scopes out |
| `AmlPaths.DownIs` | kernel/src/aml.rs:562-596 | a chain of children by name is the way taken, and the only one |
| `AmlPaths.SoughtIs` | kernel/src/aml.rs:570-583 | the nearest enclosing scope that has the name is the one found |
| `AmlPaths.MeantIs` | kernel/src/aml.rs:562-587 | a path means a node exactly if some way leads there: from its first node, found outward if the name is bare, down by names through aliases, and through one at the end |
| `AmlPaths.PutElse` | kernel/src/aml.rs:599-613 | a definition touches no other node there was, and what it makes on the way are plain scopes |
| `AmlNamespace.AddedOrder` | kernel/src/aml.rs:513-530 | parents stay below their children exactly when a new node is not put below a free slot |
| `AmlNamespace.AddedAliases` | kernel/src/aml.rs:1415-1424 | aliases keep pointing down exactly when an existing name is not made an alias of itself or of a later node |
| `AmlNamespace.Namespace.CreationPoint` | kernel/src/aml.rs:599-613 | creates exactly the missing scopes of a path and gives the place the last name belongs to |
| `AmlNamespace.Namespace.DefineNode` | kernel/src/aml.rs:1386-1389 | the node of that path has that kind; names and parents before it are as they were |
| `AmlNamespace.PutFound` | kernel/src/aml.rs:590-613 | an object created, or given another kind, is the one its path leads to afterwards |
| `AmlNamespace.Namespace.ExecTerm` | kernel/src/aml.rs:1391-1543 | through any nesting of definitions, scopes, calls, conditions and loops, and for every way the conditions come out: the nodes and the outcome are those the term is to have, by one rule for each kind of term; names stay unique and, if every alias points down and none is raised, parents stay below children; none is raised when no method and no term makes an alias; no node is lost when aliases name live nodes and no method makes one, even if terms do |
| `AmlRuns.DoesOnce` | kernel/src/aml.rs:1391-1543 | a term, from given nodes and with given answers to its conditions, has one effect: these rules leave nothing open |
| `AmlRuns.CalledOnce` | kernel/src/aml.rs:2465-2493 | the same for a call |
| `AmlRuns.LoopOnce` | kernel/src/aml.rs:1573-1596 | the same for a loop |
| `AmlNamespace.Namespace.ExecDevice` | kernel/src/aml.rs:1505-1524 | the object is made, then the body runs in it; if it cannot be made, nothing runs |
| `AmlPaths.DeviceMade` | kernel/src/aml.rs:1505-1524 | the path of a device leads to an object in which the body has run |
| `AmlNamespace.Namespace.ExecCall` | kernel/src/aml.rs:2418-2437 | a path that means a method calls it, any other node is left alone, and one that means nothing fails |
| `AmlNamespace.Namespace.ExecAlias` | kernel/src/aml.rs:1415-1424 | the new name is an alias of what the source means; it fails if that is nothing |
| `AmlNamespace.Namespace.ExecIf` | kernel/src/aml.rs:1552-1571 | the condition is asked once, and exactly the block it picks runs |
| `AmlNamespace.MeantLive` | kernel/src/aml.rs:562-596 | while no alias dangles, whatever a path means or opens is a live node |
| `AmlNamespace.PutTidy` | kernel/src/aml.rs:1386-1424 | making a node, an alias of a live node included, leaves no alias dangling |
| `AmlNamespace.AllPlainIsTame` | kernel/src/aml.rs:1391-1424 | terms that make no alias at all are among those whose methods make none |
| `AmlNamespace.Namespace.ExecBlock` | kernel/src/aml.rs:1362-1367 | the same for a list of terms, each doing what it does on the nodes the one before left |
| `AmlNamespace.Namespace.ExecLoop` | kernel/src/aml.rs:1573-1596 | the same for a loop: it asks before each turn, goes on after a continue, ends when the answer is no or at a break, passes on a return or an error, and fails after one turn more than the limit |
| `AmlNamespace.Namespace.CallMethod` | kernel/src/aml.rs:2465-2493 | the body runs one level deeper, a return ends it, and past the limit of nesting nothing runs; on return, whatever the outcome, the nodes are those before the call, with the same names and parents, in order; if no method makes an alias, none dangles then |
| `AmlNamespace.Namespace.ExecScope` | kernel/src/aml.rs:1394-1406 | opens the scope the path leads to, or else what it means, or else a new one, and runs the body there; at the top level an error in it is made good |
| `AmlNamespace.AliasOutlives` | kernel/src/aml.rs:1391-1424 | a run without that condition: a method is called that makes an older name an alias of its own node; opened afterwards from another scope, that name leads to a free slot, and the node created there is its own parent, so the search from it never ends |
| `Sha256.PaddingInjective` | kernel/src/auth.rs:107-115 | different messages of fewer than 2^61 bytes pad to different blocks |
| `Sha256.PaddedIs` | kernel/src/auth.rs:107-115 | the message, one bit, zeros and, in the last eight bytes, the highest first, the number of bits; to the end of the nearest block of 64 |
| `Sha256.Hasher.Update` | kernel/src/auth.rs:92-105 | the state covers the whole blocks of everything fed so far, the buffer the rest |
| `Sha256.Hasher.Finish` | kernel/src/auth.rs:107-121 | the result is the fold of the compression over the message padded as in section 5.1.1 of FIPS 180-4 |
| `Sha256.HashChunks` | kernel/src/auth.rs:92-127 | every way of cutting a message gives the digest of the whole |
| `Aslr.PickSlot` | kernel/src/aslr.rs:104-130 | an aligned place where the image fits, with the number of such places; none exactly when there is none |
| `Aslr.SlotFits` | kernel/src/aslr.rs:104-130 | every choice names a place that fits |
| `Aslr.SlotReached` | kernel/src/aslr.rs:104-130 | every place that fits is named by a choice |
| `Aslr.SlotInjective` | kernel/src/aslr.rs:104-130 | no two choices name the same place, when the regions do not overlap |
| `Aslr.HowEvenly` | kernel/src/aslr.rs:101-130 | of all 64-bit words, each choice is named by the same number or by one more; all by the same number exactly when the number of slots divides that of the words |
| `Relocation.ApplyRelocations` | kernel/src/aslr.rs:137-186 | moves exactly the words the table names up to its first error and reports that error, when no target touches the table |
| `Relocation.ApplyTable` | kernel/src/aslr.rs:154-185 | block after block up to the end of the table or the first error |
| `Relocation.BlockAsks` | kernel/src/aslr.rs:162-182 | a block is without error exactly if every entry is padding or a word within the image; then exactly the words its entries ask for are moved, by page and twelve bits of offset |
| `Relocation.TargetsAre` | kernel/src/aslr.rs:156-184 | of a table without error exactly the words its entries name are moved |
| `Relocation.RelocateTwice` | kernel/src/aslr.rs:137-186 | by a and then by b is by their sum modulo 2^64, when no two targets overlap |
| `Relocation.ApplyTwice` | kernel/src/aslr.rs:137-186 | two calls, by a and then by b, leave the image of one call by a + b with the same result; by amounts that cancel, the image there was |
| `Relocation.RelocateBack` | kernel/src/aslr.rs:137-186 | by the same amount back restores the image |
| `Relocation.WordMoved` | kernel/src/aslr.rs:165-176 | each named word moves by the delta, once |
| `Relocation.BytesKept` | kernel/src/aslr.rs:165-176 | every byte outside the named words stays |
| `Clipboard.Clipboard.Push` | kernel/src/clipboard.rs:82-106 | the arrays hold what pushing on a most-recently-used list of at most eight distinct non-empty texts gives; changed exactly when that list changed, and the generation exactly when its first text did |
| `Clipboard.PushedIs` | kernel/src/clipboard.rs:82-106 | by places: a text that was there moves to the front, a new one pushes the eighth out |
| `Clipboard.Clipboard.Select` | kernel/src/clipboard.rs:109-119 | the text selected comes first, the others keep their order; an index out of range changes nothing; the generation changes exactly when the first text does |
| `Clipboard.Clipboard.Clear` | kernel/src/clipboard.rs:127-131 | no text, and every byte zero; the generation stays, though the current text changes exactly when there was one |
| `Clipboard.Clipboard.TrimToCharEdge` | kernel/src/clipboard.rs:155-166 | the longest prefix within the limit that does not cut a character |

## Left out

- AerFsModel.AerFs.Run: ends when a superblock sector is left in flight, because memory and device may then hold different volumes.
- AerFsModel.AerFs.Load: when an older superblock is taken and the blocks of its volume have been written again, nothing is promised; nor for calls after it, until the next commit, beyond what `AerSlots.NewerAtRisk` says.
- AerFsModel.AerFs.Fsck: which of the counters of a report damage goes to is not stated, only whether there is any.
- AerFsModel.AerFs.Commit: on a volume that is being formatted, a failed commit leaves open what the device holds.
- BlockScheduler.Scheduler.Submit: is stated for disks whose commands succeed and requests within their disks; which pages are cached when the turn of a later group comes is left to the record of the run.
- BlockScheduler.Sort: an insertion sort stands for the library's, which may order requests of one sector differently.
- BlockCache.Cache.Read: whether there is memory for pages is a field that no call changes, and every disk is cached; the RAM disk that is not is left out.
- HuffmanTables.OptimalTable: codes of up to 16 bits are proved optimal; what it costs to limit longer ones is not stated.
- DeflateFormat.InflateTokens: the decoder reads fixed-code blocks; stored and dynamic blocks, which the compressor never writes, are not decoded.
- Deflate.ZlibCompress: inputs of 2^32 bytes or more are excluded, since positions are stored in 32 bits.
- DcScan.WriteAndRead: one component's values after the point transform; interleaved components, AC coefficients and refinement scans are left out.
- NeedleSearch.Scanner.Feed: promises nothing for needles over 81 bytes; `SinglesMiss` shows why. The needles are fixed, while the source builds its index anew for each chunk from a database that may change between chunks.
- GpeEvents.Gpe.Poll: what a handler does, the power button and the embedded controller are not modelled; the interrupt may come between any two steps, on one processor.
- AmlFields.Region.WriteField: regions are plain storage and fields are normal ones; index and bank fields, and strings as values, are left out.
- AmlNamespace.Namespace.ExecTerm: values are left out, with the calls made to find them; how each condition comes out is given by a function of how many were asked before, and a run is followed only until a node is created below a free slot.
- AmlNamespace.Namespace.Add: a method's kind holds its body. In the source it holds offsets into the code of the table in which the node was first made (`kernel/src/aml.rs`, lines 514-516 and 2472), so a method that another table defines again runs other bytes.
- Relocation.ApplyRelocations: promises nothing when a target touches the relocation table itself.
- Aslr.PickSlot: addresses are unbounded, so the rounding up of a start near 2^64 is not modelled.
- AerFS: path resolution and listing, label and free-space queries, and the device traits of the host.
- AML: the operators, package lengths, number codecs, resource templates and the hardware hooks.
- The repository's own inflate, image decoding, fonts, drivers, desktop, installer, network and user management.
