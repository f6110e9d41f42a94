/** What each mutating call of AerFS does to the filesystem a user sees, and what all of them keep. */
module AerCalls {
  import opened LittleEndian
  import opened AerLayout
  import opened FileBytes
  import opened AerDirs
  import opened AerNames

  /** The filesystem after a call, and the inode the call was about. */
  datatype Change = Change(fs: Fs, ino: nat)

  /** The most bytes a tree of the greatest height addresses. */
  const MAX_FILE := FANOUT * FANOUT * FANOUT * BLOCK

  /** The lowest free inode number from `k` on, or one too high. */
  ghost function FreeIno(fs: Fs, k: nat): (r: nat)
    requires k <= MAX_INODES + 1
    ensures k <= r <= MAX_INODES + 1
    ensures r <= MAX_INODES ==> r !in fs
    ensures forall i :: k <= i < r ==> i in fs
    decreases MAX_INODES + 1 - k
  {
    if k > MAX_INODES || k !in fs then k else FreeIno(fs, k + 1)
  }

  lemma FreeInoIs(fs: Fs, n: nat)
    requires 2 <= n <= MAX_INODES + 1 && (n <= MAX_INODES ==> n !in fs)
    requires forall i :: 2 <= i < n ==> i in fs
    ensures FreeIno(fs, 2) == n
  {
  }

  ghost function Create(fs: Fs, dir: u32, name: seq<byte>, kind: byte, now: u64): Result<Change> {
    if !ValidName(name) then Err(InvalidName)
    else if dir !in fs then Err(NotFound)
    else if fs[dir].kind != KIND_DIRECTORY then Err(NotDirectory)
    else if FindName(Entries(fs[dir].data), name, 0).Some? then Err(Exists)
    else if FreeIno(fs, 2) > MAX_INODES then Err(NoSpace)
    else
      var ino := FreeIno(fs, 2);
      var mode := if kind == KIND_DIRECTORY then 493 else 420;
      Ok(Change(Insert(fs[ino := Meta(kind, false, mode, dir, now, [])], dir, Entry(ino, kind, name), now), ino))
  }

  ghost function WriteAt(fs: Fs, ino: u32, offset: nat, data: seq<byte>, now: u64): Result<Change> {
    if ino !in fs then Err(NotFound)
    else if fs[ino].kind == KIND_DIRECTORY then Err(IsDirectory)
    else if fs[ino].readOnly then Err(InvalidArgument)
    else if data != [] && offset + |data| > MAX_FILE then Err(TooBig)
    else Ok(Change(SetData(fs, ino, Overwrite(fs[ino].data, offset, data), now), ino))
  }

  ghost function Truncate(fs: Fs, ino: u32, length: nat, now: u64): Result<Change> {
    if ino !in fs then Err(NotFound)
    else if fs[ino].kind == KIND_DIRECTORY then Err(IsDirectory)
    else if fs[ino].readOnly then Err(InvalidArgument)
    else Ok(Change(SetData(fs, ino, Resize(fs[ino].data, length), now), ino))
  }

  ghost function SetReadOnly(fs: Fs, ino: u32, readOnly: bool): Result<Change> {
    if ino !in fs then Err(NotFound) else Ok(Change(fs[ino := fs[ino].(readOnly := readOnly)], ino))
  }

  ghost function SetMode(fs: Fs, ino: u32, mode: u16): Result<Change> {
    if ino !in fs then Err(NotFound) else Ok(Change(fs[ino := fs[ino].(mode := mode % 4096)], ino))
  }

  /** Clearing the name of `ino` from the directory it gives as its parent. */
  ghost function Unlink(fs: Fs, dir: nat, ino: nat, now: u64): Result<Change> {
    if dir !in fs then Err(NotFound)
    else if FindIno(Entries(fs[dir].data), ino, 0).None? then Err(Corrupt)
    else Ok(Change(Clear(fs, dir, FindIno(Entries(fs[dir].data), ino, 0).value, now), ino))
  }

  ghost function Remove(fs: Fs, ino: u32, now: u64): Result<Change> {
    if ino == ROOT_INO then Err(InvalidArgument)
    else if ino !in fs then Err(NotFound)
    else if fs[ino].readOnly then Err(InvalidArgument)
    else if fs[ino].kind == KIND_DIRECTORY && !AllFree(Entries(fs[ino].data)) then Err(NotEmpty)
    else
      match Unlink(fs, fs[ino].parent, ino, now)
      case Err(e) => Err(e)
      case Ok(c) => Ok(Change(c.fs - {ino as nat}, ino))
  }

  /** Whether `ancestor` is `candidate` or above it, looking at no more than `steps` inodes. */
  ghost function IsInside(fs: Fs, candidate: nat, ancestor: nat, steps: nat): Result<bool>
    decreases steps
  {
    if steps == 0 then Err(Corrupt)
    else if candidate == ancestor then Ok(true)
    else if candidate == ROOT_INO then Ok(false)
    else if candidate !in fs then Err(NotFound)
    else IsInside(fs, fs[candidate].parent, ancestor, steps - 1)
  }

  /** Making room for a rename: the entry already under the new name goes, if it may. */
  ghost function Displace(fs: Fs, ino: nat, newDir: nat, k: nat, now: u64): Result<Change>
    requires ino in fs && newDir in fs && k < |Entries(fs[newDir].data)|
  {
    var existing := Entries(fs[newDir].data)[k];
    if existing.kind != fs[ino].kind then
      Err(if existing.kind == KIND_DIRECTORY then IsDirectory else NotDirectory)
    else if existing.ino !in fs then Err(NotFound)
    else if fs[existing.ino].readOnly then Err(InvalidArgument)
    else if fs[existing.ino].kind == KIND_DIRECTORY && !AllFree(Entries(fs[existing.ino].data)) then Err(NotEmpty)
    else
      match Unlink(fs, newDir, existing.ino, now)
      case Err(e) => Err(e)
      case Ok(c) => Ok(Change(c.fs - {existing.ino as nat}, existing.ino))
  }

  /** Moving a name once the target is free. */
  ghost function Move(fs: Fs, ino: u32, newDir: u32, newName: seq<byte>, now: u64): Result<Change>
    requires ValidName(newName)
  {
    if ino !in fs then Err(NotFound)
    else
      var kind := fs[ino].kind;
      match Unlink(fs, fs[ino].parent, ino, now)
      case Err(e) => Err(e)
      case Ok(c) =>
        if newDir !in c.fs || ino !in c.fs then Err(NotFound)
        else
          NameBound(newName);
          Ok(Change(SetParent(Insert(c.fs, newDir, Entry(ino, kind, newName), now), ino, newDir), ino))
  }

  ghost function Rename(fs: Fs, ino: u32, newDir: u32, newName: seq<byte>, now: u64): Result<Change> {
    if !ValidName(newName) then Err(InvalidName)
    else if ino == ROOT_INO then Err(InvalidArgument)
    else if ino !in fs then Err(NotFound)
    else if newDir !in fs then Err(NotFound)
    else if fs[newDir].kind != KIND_DIRECTORY then Err(NotDirectory)
    else if fs[ino].kind == KIND_DIRECTORY && IsInside(fs, newDir, ino, 4096).Err? then
      Err(IsInside(fs, newDir, ino, 4096).error)
    else if fs[ino].kind == KIND_DIRECTORY && IsInside(fs, newDir, ino, 4096).value then Err(InvalidArgument)
    else
      match FindName(Entries(fs[newDir].data), newName, 0)
      case None => Move(fs, ino, newDir, newName, now)
      case Some(k) =>
        if Entries(fs[newDir].data)[k].ino == ino then Ok(Change(fs, ino))
        else
          match Displace(fs, ino, newDir, k, now)
          case Err(e) => Err(e)
          case Ok(c) => Move(c.fs, ino, newDir, newName, now)
  }

  // --------------------------------------------------------- what calls keep

  /** Every name: which directory, which entry. */
  ghost function Names(fs: Fs): set<(nat, Entry)> {
    set d, e | d in fs && fs[d].kind == KIND_DIRECTORY && e in Listing(fs, d) :: (d, e)
  }

  lemma EditEntries(fs: Fs, fs': Fs, i: nat)
    requires Relisted(fs, fs', i) && (fs[i].kind == KIND_DIRECTORY ==> fs'[i].data == fs[i].data)
    requires EntriesOk(fs, 0) && DirsOk(fs)
    ensures EntriesOk(fs', 0) && DirsOk(fs')
  {
    hide DirOk, Used, Entries, ValidName;
    forall d | IsDir(fs', d) ensures DirOk(fs'[d].data) {
      assert IsDir(fs, d);
    }
    forall d, e | IsDir(fs', d) && e in Listing(fs', d) ensures EntryOk(fs', d, e, 0) {
      assert EntryOk(fs, d, e, 0);
    }
  }

  lemma EditNames(fs: Fs, fs': Fs, i: nat)
    requires Relisted(fs, fs', i) && (fs[i].kind == KIND_DIRECTORY ==> fs'[i].data == fs[i].data)
    requires NamedOk(fs, 0) && ParentsOk(fs)
    ensures NamedOk(fs', 0)
  {
    hide Used, Entries;
    forall j | j in fs' && j != ROOT_INO && j != 0 ensures HasName(fs', j) {
      assert HasName(fs, j);
      assert ParentOk(fs, j);
      var e :| e in Listing(fs, fs[j].parent) && e.ino == j;
      assert e in Listing(fs', fs'[j].parent);
    }
  }

  lemma EditSameNames(fs: Fs, fs': Fs, i: nat)
    requires Relisted(fs, fs', i) && (fs[i].kind == KIND_DIRECTORY ==> fs'[i].data == fs[i].data)
    ensures Names(fs') == Names(fs)
  {
  }

  /** Changing an inode's bytes or attributes, but no directory's bytes, keeps the shape and the names. */
  lemma EditKeeps(fs: Fs, fs': Fs, i: nat)
    requires Shape(fs, 0) && Relisted(fs, fs', i)
    requires fs[i].kind == KIND_DIRECTORY ==> fs'[i].data == fs[i].data
    ensures Shape(fs', 0) && Names(fs') == Names(fs)
  {
    hide DirsOk, EntriesOk, NamedOk, ParentsOk, RootedOk, Names;
    RelistedKeeps(fs, fs', i);
    EditEntries(fs, fs', i);
    EditNames(fs, fs', i);
    EditSameNames(fs, fs', i);
  }

  lemma WriteKeeps(fs: Fs, ino: u32, offset: nat, data: seq<byte>, now: u64)
    requires Shape(fs, 0) && WriteAt(fs, ino, offset, data, now).Ok?
    ensures var fs' := WriteAt(fs, ino, offset, data, now).value.fs; Shape(fs', 0) && Names(fs') == Names(fs)
  {
    hide Shape, Names;
    EditKeeps(fs, WriteAt(fs, ino, offset, data, now).value.fs, ino);
  }

  lemma TruncateKeeps(fs: Fs, ino: u32, length: nat, now: u64)
    requires Shape(fs, 0) && Truncate(fs, ino, length, now).Ok?
    ensures var fs' := Truncate(fs, ino, length, now).value.fs; Shape(fs', 0) && Names(fs') == Names(fs)
  {
    hide Shape, Names;
    EditKeeps(fs, Truncate(fs, ino, length, now).value.fs, ino);
  }

  lemma AttributesKeep(fs: Fs, ino: u32, readOnly: bool, mode: u16)
    requires Shape(fs, 0) && ino in fs
    ensures var a := SetReadOnly(fs, ino, readOnly).value.fs; Shape(a, 0) && Names(a) == Names(fs)
    ensures var b := SetMode(fs, ino, mode).value.fs; Shape(b, 0) && Names(b) == Names(fs)
  {
    hide Shape, Names;
    EditKeeps(fs, SetReadOnly(fs, ino, readOnly).value.fs, ino);
    EditKeeps(fs, SetMode(fs, ino, mode).value.fs, ino);
  }

  lemma NoSuchName(es: seq<Entry>, name: seq<byte>)
    requires FindName(es, name, 0).None?
    ensures forall e :: e in Used(es) ==> e.name != name
  {
  }

  lemma NothingListed(es: seq<Entry>)
    ensures AllFree(es) <==> Used(es) == {}
  {
    if Used(es) == {} {
      forall i | 0 <= i < |es| ensures es[i].ino == 0 {
        if es[i].ino != 0 { UsedAt(es, i); }
      }
    }
  }

  /** An inode no one gives as parent is above nothing but itself. */
  lemma {:induction false} OutsideChildless(fs: Fs, d: nat, x: nat, n: nat)
    requires d != x && forall j :: j in fs && j != x ==> fs[j].parent != x
    ensures Up(fs, d, n) != x
    decreases n
  {
    if n > 0 && d in fs {
      OutsideChildless(fs, fs[d].parent, x, n - 1);
    }
  }

  lemma FreshOutside(fs: Fs, x: nat, m: Meta, d: nat)
    requires ParentsOk(fs) && x !in fs && d in fs && m.parent == d
    ensures Outside(fs[x := m], d, x)
  {
    var mid := fs[x := m];
    forall j | j in mid && j != x ensures mid[j].parent != x {
      assert ParentOk(fs, j);
    }
    forall n: nat ensures Up(mid, d, n) != x {
      OutsideChildless(mid, d, x, n);
    }
  }

  lemma CreateKeeps(fs: Fs, dir: u32, name: seq<byte>, kind: byte, now: u64)
    requires Shape(fs, 0) && kind in {KIND_FILE, KIND_DIRECTORY}
    requires Create(fs, dir, name, kind, now).Ok?
    ensures Shape(Create(fs, dir, name, kind, now).value.fs, 0)
  {
    hide EntriesOk, NamedOk, RootedOk, DirsOk, ParentsOk, Entries, ValidName, Used, Outside, PutEntry, FindName;
    var ino := FreeIno(fs, 2);
    var mode := if kind == KIND_DIRECTORY then 493 else 420;
    var m := Meta(kind, false, mode, dir, now, []);
    var mid := fs[ino := m];
    AddKeeps(fs, ino, m);
    NoSuchName(Entries(fs[dir].data), name);
    FreshOutside(fs, ino, m, dir);
    PlaceKeeps(mid, ino, dir, name, now);
    var fs' := Insert(mid, dir, Entry(ino, kind, name), now);
    assert SetParent(fs', ino, dir) == fs';
  }

  lemma UnlinkKeeps(fs: Fs, ino: nat, now: u64)
    requires Shape(fs, 0) && ino in fs && ino != ROOT_INO
    ensures Unlink(fs, fs[ino].parent, ino, now).Ok?
    ensures Shape(Unlink(fs, fs[ino].parent, ino, now).value.fs, ino)
  {
    hide Entries, DirOk, Distinct;
    assert HasName(fs, ino);
    assert ParentOk(fs, ino);
    var p := fs[ino].parent;
    var e :| e in Listing(fs, p) && e.ino == ino;
    var k := FindIno(Entries(fs[p].data), ino, 0).value;
    ClearKeeps(fs, p, k, now);
  }

  lemma RemoveKeeps(fs: Fs, ino: u32, now: u64)
    requires Shape(fs, 0) && Remove(fs, ino, now).Ok?
    ensures Shape(Remove(fs, ino, now).value.fs, 0)
  {
    hide EntriesOk, NamedOk, RootedOk, DirsOk, ParentsOk, Entries;
    UnlinkKeeps(fs, ino, now);
    var mid := Unlink(fs, fs[ino].parent, ino, now).value.fs;
    if mid[ino].kind == KIND_DIRECTORY {
      assert fs[ino].parent != ino by { NotOwnParent(fs, ino); }
      NothingListed(Entries(fs[ino].data));
    }
    DropKeeps(mid, ino);
  }

  lemma {:induction false} UpSelf(fs: Fs, i: nat, n: nat)
    requires i in fs && fs[i].parent == i
    ensures Up(fs, i, n) == i
    decreases n
  {
    if n > 0 { UpSelf(fs, i, n - 1); }
  }

  lemma NotOwnParent(fs: Fs, i: nat)
    requires RootedOk(fs) && i in fs && i != ROOT_INO
    ensures fs[i].parent != i
  {
    if fs[i].parent == i {
      assert Rooted(fs, i);
      var n: nat :| Up(fs, i, n) == ROOT_INO;
      UpSelf(fs, i, n);
      assert false;
    }
  }

  // ------------------------------------------------------------------ rename

  /** A walk that ends at the root without meeting the inode shows it is not above. */
  lemma {:induction false} InsideFalse(fs: Fs, candidate: nat, ancestor: nat, steps: nat, n: nat)
    requires IsDir(fs, ROOT_INO) && fs[ROOT_INO].parent == ROOT_INO && ancestor != ROOT_INO
    requires IsInside(fs, candidate, ancestor, steps) == Ok(false)
    ensures Up(fs, candidate, n) != ancestor
    decreases steps
  {
    if candidate == ROOT_INO {
      UpRoot(fs, n);
    } else if n > 0 {
      InsideFalse(fs, fs[candidate].parent, ancestor, steps - 1, n - 1);
    }
  }

  /** The walk up from `candidate` stops at step `n`. */
  ghost predicate Stops(fs: Fs, candidate: nat, ancestor: nat, n: nat) {
    Up(fs, candidate, n) == ancestor || Up(fs, candidate, n) == ROOT_INO
  }

  /**
   The walk is cut off exactly when neither the inode nor the root is among the
   first `steps` on the way up, so on an undamaged volume a directory can be
   moved into one 4096 or more levels deep only with a report of damage.
   */
  lemma {:induction false} InsideCutOff(fs: Fs, candidate: nat, ancestor: nat, steps: nat)
    requires ParentsOk(fs) && candidate in fs
    ensures IsInside(fs, candidate, ancestor, steps).Err? <==>
      forall n: nat :: n < steps ==> !Stops(fs, candidate, ancestor, n)
    ensures IsInside(fs, candidate, ancestor, steps).Err? ==>
      IsInside(fs, candidate, ancestor, steps) == Err(Corrupt)
    decreases steps
  {
    if steps == 0 {
    } else if candidate == ancestor || candidate == ROOT_INO {
      assert Stops(fs, candidate, ancestor, 0);
    } else {
      assert ParentOk(fs, candidate);
      var p := fs[candidate].parent;
      InsideCutOff(fs, p, ancestor, steps - 1);
      forall n: nat | n < steps - 1 ensures Stops(fs, p, ancestor, n) == Stops(fs, candidate, ancestor, n + 1) {
      }
      forall n: nat | 0 < n < steps ensures Stops(fs, candidate, ancestor, n) == Stops(fs, p, ancestor, n - 1) {
      }
      assert !Stops(fs, candidate, ancestor, 0);
    }
  }

  /** Nothing is inside a file. */
  lemma FileOutside(fs: Fs, d: nat, x: nat)
    requires ParentsOk(fs) && IsDir(fs, d) && x in fs && fs[x].kind != KIND_DIRECTORY
    ensures Outside(fs, d, x)
  {
    forall j | j in fs && j != x ensures fs[j].parent != x {
      assert ParentOk(fs, j);
    }
    forall n: nat ensures Up(fs, d, n) != x {
      OutsideChildless(fs, d, x, n);
    }
  }

  lemma OutsideFrame(fs: Fs, fs': Fs, d: nat, x: nat)
    requires Outside(fs, d, x) && fs.Keys == fs'.Keys && forall j :: j in fs ==> fs'[j].parent == fs[j].parent
    ensures Outside(fs', d, x)
  {
    forall n: nat ensures Up(fs', d, n) != x {
      UpFrame(fs, fs', d, n);
    }
  }

  lemma OutsideDrop(fs: Fs, d: nat, x: nat, v: nat)
    requires Outside(fs, d, x) && d != v && forall j :: j in fs && j != v ==> fs[j].parent != v
    ensures Outside(fs - {v}, d, x)
  {
    forall n: nat ensures Up(fs - {v}, d, n) != x {
      UpAvoids(fs, v, d, n);
    }
  }

  /** What clearing a name does to the listings. */
  lemma UnlinkListing(fs: Fs, ino: nat, now: u64, d: nat)
    requires Shape(fs, 0) && ino in fs && ino != ROOT_INO && d in fs
    ensures Unlink(fs, fs[ino].parent, ino, now).Ok?
    ensures var mid := Unlink(fs, fs[ino].parent, ino, now).value.fs;
            && Relisted(fs, mid, fs[ino].parent)
            && Listing(mid, d) == set e | e in Listing(fs, d) && (d == fs[ino].parent ==> e.ino != ino)
  {
    hide Entries, Distinct, EntriesOk, RootedOk, ClearEntry;
    UnlinkKeeps(fs, ino, now);
    assert ParentOk(fs, ino);
    var p := fs[ino].parent;
    assert DirOk(fs[p].data);
    var k := FindIno(Entries(fs[p].data), ino, 0).value;
    ListingClear(fs, p, k, now);
    UsedAt(Entries(fs[p].data), k);
    if d == p {
      forall e | e in Listing(fs, p) ensures e == Entries(fs[p].data)[k] <==> e.ino == ino {
        if e != Entries(fs[p].data)[k] {
          DistinctInos(fs, p, e, Entries(fs[p].data)[k]);
        }
      }
    }
  }

  lemma MoveKeeps(fs: Fs, ino: u32, newDir: u32, newName: seq<byte>, now: u64)
    requires Shape(fs, 0) && ino in fs && ino != ROOT_INO && IsDir(fs, newDir) && ValidName(newName)
    requires Outside(fs, newDir, ino)
    requires forall e :: e in Listing(fs, newDir) ==> e.name != newName
    ensures Move(fs, ino, newDir, newName, now).Ok?
    ensures Shape(Move(fs, ino, newDir, newName, now).value.fs, 0)
  {
    hide EntriesOk, NamedOk, RootedOk, DirsOk, ParentsOk, Entries, ValidName, Listing, Outside, ClearEntry;
    UnlinkKeeps(fs, ino, now);
    UnlinkListing(fs, ino, now, newDir);
    var mid := Unlink(fs, fs[ino].parent, ino, now).value.fs;
    OutsideFrame(fs, mid, newDir, ino);
    PlaceKeeps(mid, ino, newDir, newName, now);
  }

  lemma DisplaceKeeps(fs: Fs, ino: nat, newDir: nat, k: nat, now: u64)
    requires Shape(fs, 0) && ino in fs && IsDir(fs, newDir) && Outside(fs, newDir, ino)
    requires k < |Entries(fs[newDir].data)| && Entries(fs[newDir].data)[k].ino != 0
    requires Entries(fs[newDir].data)[k].ino != ino
    requires Displace(fs, ino, newDir, k, now).Ok?
    ensures var mid := Displace(fs, ino, newDir, k, now).value.fs;
            && Shape(mid, 0) && ino in mid && IsDir(mid, newDir) && Outside(mid, newDir, ino)
            && forall e :: e in Listing(mid, newDir) ==> e.name != Entries(fs[newDir].data)[k].name
  {
    hide NamedOk, RootedOk, ParentsOk, Entries, ValidName, Outside, Distinct, Used;
    var gone := Entries(fs[newDir].data)[k];
    var v := gone.ino;
    UsedAt(Entries(fs[newDir].data), k);
    assert EntryOk(fs, newDir, gone, 0);
    UnlinkKeeps(fs, v, now);
    UnlinkListing(fs, v, now, newDir);
    UnlinkListing(fs, v, now, v);
    NotOwnParent(fs, v);
    NothingListed(Entries(fs[v].data));
    var mid := Unlink(fs, newDir, v, now).value.fs;
    DropKeeps(mid, v);
    forall j | j in mid && j != v ensures mid[j].parent != v {
      NoChildren(mid, v, j);
    }
    OutsideFrame(fs, mid, newDir, ino);
    OutsideDrop(mid, newDir, ino, v);
    forall e | e in Listing(mid, newDir) ensures e.name != gone.name {
      DistinctInos(fs, newDir, e, gone);
    }
  }

  /** Renaming, over an existing name or not, keeps the shape. */
  lemma RenameKeeps(fs: Fs, ino: u32, newDir: u32, newName: seq<byte>, now: u64)
    requires Shape(fs, 0) && Rename(fs, ino, newDir, newName, now).Ok?
    ensures Shape(Rename(fs, ino, newDir, newName, now).value.fs, 0)
  {
    hide EntriesOk, NamedOk, RootedOk, DirsOk, ParentsOk, Entries, ValidName, Used, Move, Displace;
    RenameOutside(fs, ino, newDir, newName, now);
    var es := Entries(fs[newDir].data);
    match FindName(es, newName, 0)
    case None =>
      NoSuchName(es, newName);
      MoveKeeps(fs, ino, newDir, newName, now);
    case Some(k) =>
      if es[k].ino != ino {
        DisplaceKeeps(fs, ino, newDir, k, now);
        MoveKeeps(Displace(fs, ino, newDir, k, now).value.fs, ino, newDir, newName, now);
      }
  }

  // ------------------------------------------------- what calls do to the names

  lemma DirShape(fs: Fs, d: nat)
    requires DirsOk(fs) && IsDir(fs, d)
    ensures DirOk(fs[d].data)
  {
  }

  lemma NamesHas(fs: Fs, d: nat, e: Entry)
    ensures (d, e) in Names(fs) <==> IsDir(fs, d) && e in Listing(fs, d)
  {
  }

  lemma InsertNames(fs: Fs, d: nat, e: Entry, now: u64)
    requires IsDir(fs, d) && DirOk(fs[d].data) && |e.name| <= NAME_MAX && e.ino != 0
    requires forall x :: x in Listing(fs, d) ==> x.ino != e.ino && x.name != e.name
    ensures Names(Insert(fs, d, e, now)) == Names(fs) + {(d, e)}
  {
    hide Used, Entries, Distinct, PutEntry;
    ListingInsert(fs, d, e, now);
    var fs' := Insert(fs, d, e, now);
    forall c | c in fs && c != d ensures Listing(fs', c) == Listing(fs, c) {
    }
  }

  /** Creating adds one name, and touches nothing but the directory. */
  lemma CreateNames(fs: Fs, dir: u32, name: seq<byte>, kind: byte, now: u64)
    requires Shape(fs, 0) && kind in {KIND_FILE, KIND_DIRECTORY}
    requires Create(fs, dir, name, kind, now).Ok?
    ensures var c := Create(fs, dir, name, kind, now).value;
            && 2 <= c.ino <= MAX_INODES && c.ino !in fs && c.fs.Keys == fs.Keys + {c.ino}
            && c.fs[c.ino].data == [] && c.fs[c.ino].kind == kind && c.fs[c.ino].parent == dir
            && (forall i :: i in fs && i != dir ==> c.fs[i] == fs[i])
            && Names(c.fs) == Names(fs) + {(dir, Entry(c.ino, kind, name))}
  {
    hide EntriesOk, NamedOk, RootedOk, ParentsOk, Entries, ValidName, Used, PutEntry, FindName, Distinct;
    var ino := FreeIno(fs, 2);
    var mode := if kind == KIND_DIRECTORY then 493 else 420;
    var m := Meta(kind, false, mode, dir, now, []);
    var mid := fs[ino := m];
    NameBound(name);
    NoSuchName(Entries(fs[dir].data), name);
    AddedNames(fs, ino, m);
    DirShape(fs, dir);
    forall e | e in Listing(mid, dir) ensures e.ino != ino {
      ListedLive(fs, dir, e);
    }
    InsertNames(mid, dir, Entry(ino, kind, name), now);
  }

  lemma AddedNames(fs: Fs, x: nat, m: Meta)
    requires x !in fs && m.data == []
    ensures Names(fs[x := m]) == Names(fs)
  {
    hide Entries;
    EmptyDir();
    var fs' := fs[x := m];
    forall c | c in fs ensures Listing(fs', c) == Listing(fs, c) {
    }
  }

  lemma ListedLive(fs: Fs, d: nat, e: Entry)
    requires EntriesOk(fs, 0) && IsDir(fs, d) && e in Listing(fs, d)
    ensures e.ino in fs && fs[e.ino].parent == d && fs[e.ino].kind == e.kind
  {
    assert EntryOk(fs, d, e, 0);
  }

  lemma UnlinkNames(fs: Fs, ino: nat, now: u64)
    requires Shape(fs, 0) && ino in fs && ino != ROOT_INO
    ensures Unlink(fs, fs[ino].parent, ino, now).Ok?
    ensures Names(Unlink(fs, fs[ino].parent, ino, now).value.fs) == set p | p in Names(fs) && p.1.ino != ino
  {
    hide Entries, Used, Names, Shape;
    UnlinkListing(fs, ino, now, ino);
    var mid := Unlink(fs, fs[ino].parent, ino, now).value.fs;
    forall d: nat, e ensures (d, e) in Names(mid) <==> (d, e) in Names(fs) && e.ino != ino {
      NamesHas(mid, d, e);
      NamesHas(fs, d, e);
      if IsDir(fs, d) {
        UnlinkHas(fs, ino, now, d, e);
      }
    }
    forall p: (nat, Entry) ensures p in Names(mid) <==> p in Names(fs) && p.1.ino != ino {
      assert p == (p.0, p.1);
    }
  }

  lemma UnlinkHas(fs: Fs, ino: nat, now: u64, d: nat, e: Entry)
    requires Shape(fs, 0) && ino in fs && ino != ROOT_INO && IsDir(fs, d)
    ensures Unlink(fs, fs[ino].parent, ino, now).Ok?
    ensures var mid := Unlink(fs, fs[ino].parent, ino, now).value.fs;
            IsDir(mid, d) && (e in Listing(mid, d) <==> e in Listing(fs, d) && e.ino != ino)
  {
    hide Entries, Used, EntriesOk, NamedOk, RootedOk, DirsOk, ParentsOk;
    UnlinkListing(fs, ino, now, d);
    if e in Listing(fs, d) {
      ListedLive(fs, d, e);
    }
  }

  lemma DroppedNames(fs: Fs, x: nat)
    requires IsDir(fs, x) ==> Listing(fs, x) == {}
    ensures Names(fs - {x}) == Names(fs)
  {
    hide Entries, Used;
    var fs' := fs - {x};
    forall c | c in fs' ensures Listing(fs', c) == Listing(fs, c) {
    }
  }

  lemma UnlinkedEmpty(fs: Fs, ino: nat, now: u64)
    requires Shape(fs, 0) && ino in fs && ino != ROOT_INO
    requires IsDir(fs, ino) ==> AllFree(Entries(fs[ino].data))
    ensures Unlink(fs, fs[ino].parent, ino, now).Ok?
    ensures var mid := Unlink(fs, fs[ino].parent, ino, now).value.fs; IsDir(mid, ino) ==> Listing(mid, ino) == {}
  {
    hide Entries, Used, EntriesOk, NamedOk, RootedOk, DirsOk, ParentsOk;
    UnlinkListing(fs, ino, now, ino);
    NothingListed(Entries(fs[ino].data));
  }

  /** Removing takes away one inode and its one name. */
  lemma RemoveNames(fs: Fs, ino: u32, now: u64)
    requires Shape(fs, 0) && Remove(fs, ino, now).Ok?
    ensures var fs' := Remove(fs, ino, now).value.fs;
            && fs'.Keys == fs.Keys - {ino as nat}
            && (forall i :: i in fs' && fs[i].kind != KIND_DIRECTORY ==> fs'[i] == fs[i])
            && Names(fs') == set p | p in Names(fs) && p.1.ino != ino
  {
    hide Entries, Used, EntriesOk, NamedOk, RootedOk, DirsOk, Names, ClearEntry;
    assert ParentOk(fs, ino);
    UnlinkNames(fs, ino, now);
    UnlinkedEmpty(fs, ino, now);
    DroppedNames(Unlink(fs, fs[ino].parent, ino, now).value.fs, ino);
  }

  lemma MoveNames(fs: Fs, ino: u32, newDir: u32, newName: seq<byte>, now: u64)
    requires Shape(fs, 0) && ino in fs && ino != ROOT_INO && IsDir(fs, newDir) && ValidName(newName)
    requires Outside(fs, newDir, ino)
    requires forall e :: e in Listing(fs, newDir) ==> e.name != newName
    ensures Move(fs, ino, newDir, newName, now).Ok?
    ensures Names(Move(fs, ino, newDir, newName, now).value.fs)
         == (set p | p in Names(fs) && p.1.ino != ino) + {(newDir, Entry(ino, fs[ino].kind, newName))}
  {
    hide EntriesOk, NamedOk, RootedOk, ParentsOk, Entries, ValidName, Used, Outside, ClearEntry, PutEntry, Distinct;
    UnlinkKeeps(fs, ino, now);
    UnlinkListing(fs, ino, now, newDir);
    UnlinkNames(fs, ino, now);
    NameBound(newName);
    var mid := Unlink(fs, fs[ino].parent, ino, now).value.fs;
    var e := Entry(ino, fs[ino].kind, newName);
    DirShape(mid, newDir);
    forall x | x in Listing(mid, newDir) ensures x.ino != ino {
      ListedNotLoose(mid, newDir, x, ino);
    }
    InsertNames(mid, newDir, e, now);
    SetParentNames(Insert(mid, newDir, e, now), ino, newDir);
  }

  lemma ListedNotLoose(fs: Fs, d: nat, e: Entry, loose: nat)
    requires EntriesOk(fs, loose) && IsDir(fs, d) && e in Listing(fs, d)
    ensures e.ino != loose
  {
    assert EntryOk(fs, d, e, loose);
  }

  lemma SetParentNames(fs: Fs, x: nat, d: u32)
    requires x in fs
    ensures Names(SetParent(fs, x, d)) == Names(fs)
  {
    hide Entries, Used;
    var fs' := SetParent(fs, x, d);
    forall c | c in fs ensures Listing(fs', c) == Listing(fs, c) {
    }
  }

  lemma DisplaceNames(fs: Fs, ino: nat, newDir: nat, k: nat, now: u64)
    requires Shape(fs, 0) && ino in fs && IsDir(fs, newDir)
    requires k < |Entries(fs[newDir].data)| && Entries(fs[newDir].data)[k].ino != 0
    requires Displace(fs, ino, newDir, k, now).Ok?
    ensures Names(Displace(fs, ino, newDir, k, now).value.fs)
         == set p | p in Names(fs) && p.1.ino != Entries(fs[newDir].data)[k].ino
    ensures ino in Displace(fs, ino, newDir, k, now).value.fs ==>
      Displace(fs, ino, newDir, k, now).value.fs[ino].kind == fs[ino].kind
  {
    hide NamedOk, RootedOk, DirsOk, ParentsOk, Entries, Used, ClearEntry, Names, EntriesOk;
    var gone := Entries(fs[newDir].data)[k];
    UsedAt(Entries(fs[newDir].data), k);
    ListedLive(fs, newDir, gone);
    ListedNotRoot(fs, newDir, gone);
    UnlinkNames(fs, gone.ino, now);
    UnlinkedEmpty(fs, gone.ino, now);
    DroppedNames(Unlink(fs, newDir, gone.ino, now).value.fs, gone.ino);
  }

  lemma ListedNotRoot(fs: Fs, d: nat, e: Entry)
    requires EntriesOk(fs, 0) && IsDir(fs, d) && e in Listing(fs, d)
    ensures e.ino != ROOT_INO
  {
    assert EntryOk(fs, d, e, 0);
  }

  /** An entry is the one under its name, and the one of its inode. */
  lemma NamesUnique(fs: Fs, d: nat, e: Entry)
    requires Shape(fs, 0) && (d, e) in Names(fs)
    ensures forall p :: p in Names(fs) ==> (p.1.ino == e.ino <==> p == (d, e))
    ensures forall p :: p in Names(fs) ==> (p.0 == d && p.1.name == e.name <==> p == (d, e))
  {
    hide Entries, Used, EntriesOk, NamedOk, RootedOk, ParentsOk, DirOk;
    ListedLive(fs, d, e);
    forall p | p in Names(fs) && (p.1.ino == e.ino || (p.0 == d && p.1.name == e.name)) ensures p == (d, e) {
      assert IsDir(fs, p.0) && IsDir(fs, d);
      ListedLive(fs, p.0, p.1);
      if p.1 != e {
        DistinctInos(fs, d, p.1, e);
      }
    }
  }

  /** Renaming drops the old name and whatever held the new one, and adds the new name: all at once. */
  lemma RenameNames(fs: Fs, ino: u32, newDir: u32, newName: seq<byte>, now: u64)
    requires Shape(fs, 0) && Rename(fs, ino, newDir, newName, now).Ok?
    ensures Names(Rename(fs, ino, newDir, newName, now).value.fs)
         == (set p | p in Names(fs) && p.1.ino != ino && !(p.0 == newDir && p.1.name == newName))
            + {(newDir as nat, Entry(ino, fs[ino].kind, newName))}
  {
    hide EntriesOk, NamedOk, RootedOk, DirsOk, ParentsOk, Entries, ValidName, Used, Move, Displace, Outside;
    RenameOutside(fs, ino, newDir, newName, now);
    var es := Entries(fs[newDir].data);
    match FindName(es, newName, 0)
    case None =>
      NoSuchName(es, newName);
      MoveNames(fs, ino, newDir, newName, now);
    case Some(k) =>
      UsedAt(es, k);
      ListedLive(fs, newDir, es[k]);
      NamesUnique(fs, newDir, es[k]);
      if es[k].ino != ino {
        DisplaceKeeps(fs, ino, newDir, k, now);
        DisplaceNames(fs, ino, newDir, k, now);
        MoveNames(Displace(fs, ino, newDir, k, now).value.fs, ino, newDir, newName, now);
      }
  }

  lemma RenameOutside(fs: Fs, ino: u32, newDir: u32, newName: seq<byte>, now: u64)
    requires Shape(fs, 0) && Rename(fs, ino, newDir, newName, now).Ok?
    ensures ino in fs && IsDir(fs, newDir) && Outside(fs, newDir, ino)
  {
    hide EntriesOk, NamedOk, RootedOk, DirsOk, ParentsOk, Entries, ValidName, Used, Move, Displace;
    if fs[ino].kind == KIND_DIRECTORY {
      forall n: nat ensures Up(fs, newDir, n) != ino {
        InsideFalse(fs, newDir, ino, 4096, n);
      }
    } else {
      FileOutside(fs, newDir, ino);
    }
  }

  lemma ParentIsDir(fs: Fs, i: nat)
    requires Shape(fs, 0) && i in fs && i != ROOT_INO
    ensures IsDir(fs, fs[i].parent) && fs[i].parent != i
  {
    hide Entries, NamedOk, EntriesOk, DirsOk;
    assert ParentOk(fs, i);
    NotOwnParent(fs, i);
  }

  /** The inode in the way of a rename, and what is left without it. */
  lemma DisplaceShape(fs: Fs, ino: nat, newDir: nat, k: nat, now: u64)
    requires Shape(fs, 0) && ino in fs && IsDir(fs, newDir)
    requires k < |Entries(fs[newDir].data)| && Entries(fs[newDir].data)[k].ino != 0
    ensures var v := Entries(fs[newDir].data)[k].ino; v in fs && v != newDir && v != ROOT_INO && fs[v].parent == newDir
    ensures Displace(fs, ino, newDir, k, now).Ok? ==> Shape(Displace(fs, ino, newDir, k, now).value.fs, 0)
  {
    hide EntriesOk, NamedOk, RootedOk, DirsOk, ParentsOk, Entries, Unlink;
    var e := Entries(fs[newDir].data)[k];
    UsedAt(Entries(fs[newDir].data), k);
    ListedLive(fs, newDir, e);
    ListedNotRoot(fs, newDir, e);
    ParentIsDir(fs, e.ino);
    if Displace(fs, ino, newDir, k, now).Ok? {
      RemoveKeeps(fs, e.ino, now);
    }
  }

  lemma DisplacedRest(fs: Fs, ino: nat, newDir: nat, k: nat, now: u64)
    requires ino in fs && IsDir(fs, newDir) && k < |Entries(fs[newDir].data)|
    requires Entries(fs[newDir].data)[k].ino != ino && Entries(fs[newDir].data)[k].ino != newDir
    requires Displace(fs, ino, newDir, k, now).Ok?
    ensures var mid := Displace(fs, ino, newDir, k, now).value.fs;
            IsDir(mid, newDir) && ino in mid && mid[ino].parent == fs[ino].parent && mid[ino].kind == fs[ino].kind
  {
    hide Entries, FindIno, AllFree, ClearEntry;
  }

  // --------------------------------------------------------------- any call

  /** A call with its arguments and the time at which it is made. */
  datatype Call =
    | CallCreate(dir: u32, name: seq<byte>, directory: bool, now: u64)
    | CallWrite(ino: u32, offset: nat, data: seq<byte>, now: u64)
    | CallTruncate(ino: u32, length: u64, now: u64)
    | CallReadOnly(ino: u32, readOnly: bool)
    | CallMode(ino: u32, mode: u16)
    | CallRemove(ino: u32, now: u64)
    | CallRename(ino: u32, newDir: u32, newName: seq<byte>, now: u64)

  function KindOf(directory: bool): byte {
    if directory then KIND_DIRECTORY else KIND_FILE
  }

  ghost function Spec(fs: Fs, c: Call): Result<Change> {
    match c
    case CallCreate(dir, name, directory, now) => Create(fs, dir, name, KindOf(directory), now)
    case CallWrite(ino, offset, data, now) => WriteAt(fs, ino, offset, data, now)
    case CallTruncate(ino, length, now) => Truncate(fs, ino, length, now)
    case CallReadOnly(ino, readOnly) => SetReadOnly(fs, ino, readOnly)
    case CallMode(ino, mode) => SetMode(fs, ino, mode)
    case CallRemove(ino, now) => Remove(fs, ino, now)
    case CallRename(ino, newDir, newName, now) => Rename(fs, ino, newDir, newName, now)
  }

  lemma {:induction false} InsideNotIo(fs: Fs, candidate: nat, ancestor: nat, steps: nat)
    ensures IsInside(fs, candidate, ancestor, steps) != Err(Io)
    decreases steps
  {
    if steps > 0 && candidate in fs {
      InsideNotIo(fs, fs[candidate].parent, ancestor, steps - 1);
    }
  }

  lemma SpecNotIo(fs: Fs, c: Call)
    ensures Spec(fs, c) != Err(Io)
  {
    hide Entries, FindName, FindIno, IsInside, AllFree, FreeIno, ValidName, Overwrite, Resize, Insert;
    if c.CallRename? {
      InsideNotIo(fs, c.newDir, c.ino, 4096);
    }
  }

  /** Whatever the call, the tree of names stays a tree of names. */
  lemma CallKeeps(fs: Fs, c: Call)
    requires Shape(fs, 0) && Spec(fs, c).Ok?
    ensures Shape(Spec(fs, c).value.fs, 0)
  {
    hide Shape, Create, WriteAt, Truncate, Remove, Rename;
    match c
    case CallCreate(dir, name, directory, now) => CreateKeeps(fs, dir, name, KindOf(directory), now);
    case CallWrite(ino, offset, data, now) => WriteKeeps(fs, ino, offset, data, now);
    case CallTruncate(ino, length, now) => TruncateKeeps(fs, ino, length, now);
    case CallReadOnly(ino, readOnly) => AttributesKeep(fs, ino, readOnly, 0);
    case CallMode(ino, mode) => AttributesKeep(fs, ino, false, mode);
    case CallRemove(ino, now) => RemoveKeeps(fs, ino, now);
    case CallRename(ino, newDir, newName, now) => RenameKeeps(fs, ino, newDir, newName, now);
  }

  // ------------------------------------------------------------- looking up

  lemma SlotNamed(fs: Fs, d: nat, k: nat)
    requires Shape(fs, 0) && IsDir(fs, d) && k < |Entries(fs[d].data)| && Entries(fs[d].data)[k].ino != 0
    ensures (d, Entries(fs[d].data)[k]) in Names(fs) && Entries(fs[d].data)[k].ino in fs
  {
    hide EntriesOk, NamedOk, RootedOk, DirsOk, ParentsOk, Entries;
    UsedAt(Entries(fs[d].data), k);
    ListedLive(fs, d, Entries(fs[d].data)[k]);
  }

  lemma Unnamed(fs: Fs, d: nat, name: seq<byte>)
    requires IsDir(fs, d) && FindName(Entries(fs[d].data), name, 0).None?
    ensures forall p :: p in Names(fs) ==> p.0 != d || p.1.name != name
  {
    hide Entries, FindName, Used;
    NoSuchName(Entries(fs[d].data), name);
  }

  lemma NoDirectory(fs: Fs, d: nat)
    ensures !IsDir(fs, d) ==> forall p :: p in Names(fs) ==> p.0 != d
  {
  }

  /** A slot in use names an inode that agrees with it. */
  lemma SlotFacts(fs: Fs, d: nat, k: nat)
    requires Shape(fs, 0) && IsDir(fs, d) && k < |Entries(fs[d].data)| && Entries(fs[d].data)[k].ino != 0
    ensures var e := Entries(fs[d].data)[k];
            e.ino in fs && 1 <= e.ino <= MAX_INODES && fs[e.ino].parent == d && fs[e.ino].kind == e.kind
  {
    hide EntriesOk, NamedOk, RootedOk, DirsOk, ParentsOk, Entries;
    UsedAt(Entries(fs[d].data), k);
    ListedLive(fs, d, Entries(fs[d].data)[k]);
  }
}
