/**
 What each call does to inodes, bytes and names, and when it is refused, said
 without the functions that specify the calls; and that these functions agree.
 */
module AerEffects {
  import opened LittleEndian
  import opened AerLayout
  import opened FileBytes
  import opened AerDirs
  import opened AerNames
  import opened AerCalls

  // ------------------------------------------------------------------ effects

  /** Outside `touched` no inode has come, gone or changed. */
  ghost predicate SameBut(fs: Fs, fs': Fs, touched: set<nat>) {
    forall i: nat :: i !in touched ==> (i in fs <==> i in fs') && (i in fs && i in fs' ==> fs'[i] == fs[i])
  }

  /** An inode that keeps all but its bytes and its time. */
  ghost predicate Rewritten(fs: Fs, fs': Fs, i: nat, now: u64) {
    && i in fs && i in fs'
    && fs'[i].kind == fs[i].kind && fs'[i].readOnly == fs[i].readOnly && fs'[i].mode == fs[i].mode
    && fs'[i].parent == fs[i].parent && fs'[i].mtime == now
  }

  /** The data is in the file from `offset` on, a gap before it is zero, and every other byte is as it was. */
  ghost predicate HoldsData(was: seq<byte>, got: seq<byte>, offset: nat, data: seq<byte>) {
    && |got| == (if data == [] || offset + |data| <= |was| then |was| else offset + |data|)
    && (forall i :: offset <= i < offset + |data| ==> got[i] == data[i - offset])
    && (forall i :: 0 <= i < |was| && !(offset <= i < offset + |data|) ==> got[i] == was[i])
    && (forall i :: |was| <= i < |got| && i < offset ==> got[i] == 0)
  }

  ghost predicate Wrote(fs: Fs, fs': Fs, ino: nat, offset: nat, data: seq<byte>, now: u64) {
    Rewritten(fs, fs', ino, now) && SameBut(fs, fs', {ino}) && HoldsData(fs[ino].data, fs'[ino].data, offset, data)
  }

  /** The file is `length` bytes long: as many of its own as there were, and zeros. */
  ghost predicate CutTo(was: seq<byte>, got: seq<byte>, length: nat) {
    && |got| == length
    && (forall i :: 0 <= i < length && i < |was| ==> got[i] == was[i])
    && (forall i :: |was| <= i < length ==> got[i] == 0)
  }

  ghost predicate Truncated(fs: Fs, fs': Fs, ino: nat, length: nat, now: u64) {
    Rewritten(fs, fs', ino, now) && SameBut(fs, fs', {ino}) && CutTo(fs[ino].data, fs'[ino].data, length)
  }

  /** One attribute is set; time, bytes and everything else stay. */
  ghost predicate Marked(fs: Fs, fs': Fs, ino: nat, readOnly: bool, mode: nat) {
    && ino in fs && ino in fs' && SameBut(fs, fs', {ino})
    && fs'[ino].readOnly == readOnly && fs'[ino].mode == mode
    && fs'[ino].kind == fs[ino].kind && fs'[ino].parent == fs[ino].parent
    && fs'[ino].mtime == fs[ino].mtime && fs'[ino].data == fs[ino].data
  }

  ghost predicate HasEntry(fs: Fs, d: nat, name: seq<byte>) {
    exists p :: p in Names(fs) && p.0 == d && p.1.name == name
  }

  /** The lowest free number is a new, empty inode, and the directory has one name more. */
  ghost predicate Created(fs: Fs, fs': Fs, ino: nat, dir: u32, name: seq<byte>, directory: bool, now: u64) {
    var kind: byte := if directory then 2 else 1;
    && 2 <= ino <= 65535 && ino !in fs && (forall i :: 2 <= i < ino ==> i in fs)
    && ino in fs' && fs'[ino] == Meta(kind, false, if directory then 493 else 420, dir, now, [])
    && SameBut(fs, fs', {ino, dir}) && Rewritten(fs, fs', dir, now)
    && !HasEntry(fs, dir, name) && Names(fs') == Names(fs) + {(dir as nat, Entry(ino, kind, name))}
  }

  /** The inode is gone with its one name. */
  ghost predicate Removed(fs: Fs, fs': Fs, ino: nat, now: u64) {
    && ino in fs && ino !in fs' && SameBut(fs, fs', {ino, fs[ino].parent}) && Rewritten(fs, fs', fs[ino].parent, now)
    && Names(fs') == set p | p in Names(fs) && p.1.ino != ino
  }

  /** `v` is another inode that has the name. */
  ghost predicate InTheWay(fs: Fs, ino: nat, dir: nat, name: seq<byte>, v: nat) {
    v != ino && exists p :: p in Names(fs) && p.0 == dir && p.1.name == name && p.1.ino == v
  }

  /** The inode has the name already. */
  ghost predicate There(fs: Fs, ino: nat, dir: nat, name: seq<byte>) {
    exists p :: p in Names(fs) && p.0 == dir && p.1.name == name && p.1.ino == ino
  }

  /** The inode has its new name and parent and nothing else new; whatever had that name is gone. */
  ghost predicate Renamed(fs: Fs, fs': Fs, ino: u32, newDir: u32, newName: seq<byte>, now: u64) {
    && ino in fs
    && if There(fs, ino, newDir, newName) then fs' == fs
       else
         && ino in fs' && fs'[ino] == fs[ino].(parent := newDir)
         && Rewritten(fs, fs', fs[ino].parent, now) && Rewritten(fs, fs', newDir, now)
         && (forall v: nat :: InTheWay(fs, ino, newDir, newName, v) ==> v in fs && v !in fs')
         && (forall i: nat ::
               i !in {ino as nat, fs[ino].parent as nat, newDir as nat} && !InTheWay(fs, ino, newDir, newName, i) ==>
                 (i in fs <==> i in fs') && (i in fs && i in fs' ==> fs'[i] == fs[i]))
         && Names(fs') == (set p | p in Names(fs) && p.1.ino != ino && !(p.0 == newDir && p.1.name == newName))
                          + {(newDir as nat, Entry(ino, fs[ino].kind, newName))}
  }

  /** What a call that succeeds has done. */
  ghost predicate Effect(fs: Fs, c: Call, fs': Fs, about: nat) {
    match c
    case CallCreate(dir, name, directory, now) => Created(fs, fs', about, dir, name, directory, now)
    case CallWrite(ino, offset, data, now) => about == ino && Wrote(fs, fs', ino, offset, data, now)
    case CallTruncate(ino, length, now) => about == ino && Truncated(fs, fs', ino, length, now)
    case CallReadOnly(ino, readOnly) => about == ino && ino in fs && Marked(fs, fs', ino, readOnly, fs[ino].mode)
    case CallMode(ino, mode) => about == ino && ino in fs && Marked(fs, fs', ino, fs[ino].readOnly, mode % 4096)
    case CallRemove(ino, now) => about == ino && Removed(fs, fs', ino, now)
    case CallRename(ino, newDir, newName, now) => about == ino && Renamed(fs, fs', ino, newDir, newName, now)
  }

  // ----------------------------------------------------------------- refusals

  ghost predicate BadName(name: seq<byte>) {
    |name| == 0 || |name| > 58 || name == [46] || name == [46, 46] || 47 in name || 0 in name
  }

  ghost predicate IsFile(fs: Fs, i: nat) {
    i in fs && !IsDir(fs, i)
  }

  ghost predicate EditRefused(fs: Fs, ino: nat, e: Error) {
    match e
    case NotFound => ino !in fs
    case IsDirectory => IsDir(fs, ino)
    case InvalidArgument => IsFile(fs, ino) && fs[ino].readOnly
    case _ => false
  }

  ghost predicate CreateRefused(fs: Fs, dir: nat, name: seq<byte>, e: Error) {
    match e
    case InvalidName => BadName(name)
    case NotFound => !BadName(name) && dir !in fs
    case NotDirectory => !BadName(name) && IsFile(fs, dir)
    case Exists => !BadName(name) && HasEntry(fs, dir, name)
    case NoSpace =>
      !BadName(name) && IsDir(fs, dir) && !HasEntry(fs, dir, name) && forall i :: 2 <= i <= 65535 ==> i in fs
    case _ => false
  }

  ghost predicate RemoveRefused(fs: Fs, ino: nat, e: Error) {
    match e
    case NotFound => ino != 1 && ino !in fs
    case InvalidArgument => ino == 1 || (ino in fs && fs[ino].readOnly)
    case NotEmpty => ino != 1 && IsDir(fs, ino) && !fs[ino].readOnly && exists p :: p in Names(fs) && p.0 == ino
    case _ => false
  }

  /** `ino` is `d` or above it, within 4096 inodes. */
  ghost predicate Within(fs: Fs, d: nat, ino: nat) {
    exists n: nat :: n < 4096 && Up(fs, d, n) == ino
  }

  /** The arguments of a rename name a live inode, and a directory to move it to. */
  ghost predicate Movable(fs: Fs, ino: nat, newDir: nat, newName: seq<byte>) {
    !BadName(newName) && ino != 1 && ino in fs && IsDir(fs, newDir)
  }

  /** Nothing above the new directory forbids the move. */
  ghost predicate Passes(fs: Fs, ino: nat, newDir: nat, newName: seq<byte>) {
    Movable(fs, ino, newDir, newName) && (IsDir(fs, ino) ==> !Within(fs, newDir, ino) && Within(fs, newDir, 1))
  }

  ghost predicate RenameRefused(fs: Fs, ino: nat, newDir: nat, newName: seq<byte>, e: Error) {
    match e
    case InvalidName => BadName(newName)
    case NotFound => !BadName(newName) && ino != 1 && (ino !in fs || newDir !in fs)
    case NotDirectory =>
      || (!BadName(newName) && ino != 1 && ino in fs && IsFile(fs, newDir))
      || (Passes(fs, ino, newDir, newName) && IsDir(fs, ino)
          && exists v: nat :: InTheWay(fs, ino, newDir, newName, v) && IsFile(fs, v))
    case IsDirectory =>
      && Passes(fs, ino, newDir, newName) && IsFile(fs, ino)
      && exists v: nat :: InTheWay(fs, ino, newDir, newName, v) && IsDir(fs, v)
    case InvalidArgument =>
      || (!BadName(newName) && ino == 1)
      || (Movable(fs, ino, newDir, newName) && IsDir(fs, ino) && Within(fs, newDir, ino))
      || (Passes(fs, ino, newDir, newName)
          && exists v: nat ::
               InTheWay(fs, ino, newDir, newName, v) && v in fs && (IsDir(fs, v) <==> IsDir(fs, ino)) && fs[v].readOnly)
    case NotEmpty =>
      && Passes(fs, ino, newDir, newName) && IsDir(fs, ino)
      && exists v: nat ::
           InTheWay(fs, ino, newDir, newName, v) && IsDir(fs, v) && !fs[v].readOnly && exists p :: p in Names(fs) && p.0 == v
    case Corrupt =>
      Movable(fs, ino, newDir, newName) && IsDir(fs, ino) && !Within(fs, newDir, ino) && !Within(fs, newDir, 1)
    case _ => false
  }

  /** The error, and when a call is refused with it. */
  ghost predicate Refused(fs: Fs, c: Call, e: Error) {
    match c
    case CallCreate(dir, name, _, _) => CreateRefused(fs, dir, name, e)
    case CallWrite(ino, offset, data, _) =>
      || EditRefused(fs, ino, e)
      || (e == TooBig && IsFile(fs, ino) && !fs[ino].readOnly && data != [] && offset + |data| > 0x80_0000_0000)
    case CallTruncate(ino, _, _) => EditRefused(fs, ino, e)
    case CallReadOnly(ino, _) => e == NotFound && ino !in fs
    case CallMode(ino, _) => e == NotFound && ino !in fs
    case CallRemove(ino, _) => RemoveRefused(fs, ino, e)
    case CallRename(ino, newDir, newName, _) => RenameRefused(fs, ino, newDir, newName, e)
  }

  // ---------------------------------------------------------------- agreement

  lemma WriteEffect(fs: Fs, ino: u32, offset: nat, data: seq<byte>, now: u64)
    requires WriteAt(fs, ino, offset, data, now).Ok?
    ensures Effect(fs, CallWrite(ino, offset, data, now), WriteAt(fs, ino, offset, data, now).value.fs,
                   WriteAt(fs, ino, offset, data, now).value.ino)
  {
  }

  lemma TruncateEffect(fs: Fs, ino: u32, length: u64, now: u64)
    requires Truncate(fs, ino, length, now).Ok?
    ensures Effect(fs, CallTruncate(ino, length, now), Truncate(fs, ino, length, now).value.fs,
                   Truncate(fs, ino, length, now).value.ino)
  {
  }

  lemma NamedEntry(fs: Fs, d: nat, name: seq<byte>)
    requires IsDir(fs, d)
    ensures FindName(Entries(fs[d].data), name, 0).Some? <==> HasEntry(fs, d, name)
  {
    hide Entries, Names;
    var es := Entries(fs[d].data);
    match FindName(es, name, 0)
    case None =>
      Unnamed(fs, d, name);
    case Some(k) =>
      UsedAt(es, k);
      NamesHas(fs, d, es[k]);
      assert (d, es[k]) in Names(fs);
  }

  lemma CreateEffect(fs: Fs, dir: u32, name: seq<byte>, directory: bool, now: u64)
    requires Shape(fs, 0) && Create(fs, dir, name, KindOf(directory), now).Ok?
    ensures var c := Create(fs, dir, name, KindOf(directory), now).value;
            Created(fs, c.fs, c.ino, dir, name, directory, now)
  {
    hide Shape, Entries, Names, ValidName, PutEntry, FreeSlot, HasEntry;
    CreateNames(fs, dir, name, KindOf(directory), now);
    NamedEntry(fs, dir, name);
  }

  /** Clearing a name touches its directory's bytes and time. */
  lemma UnlinkEffect(fs: Fs, dir: nat, ino: nat, now: u64)
    requires Unlink(fs, dir, ino, now).Ok?
    ensures var fs' := Unlink(fs, dir, ino, now).value.fs; Rewritten(fs, fs', dir, now) && SameBut(fs, fs', {dir})
  {
    hide Entries, ClearEntry, FindIno;
  }

  lemma RemoveEffect(fs: Fs, ino: u32, now: u64)
    requires Shape(fs, 0) && Remove(fs, ino, now).Ok?
    ensures Remove(fs, ino, now).value.ino == ino && Removed(fs, Remove(fs, ino, now).value.fs, ino, now)
  {
    hide Shape, Entries, Names, Unlink, AllFree;
    RemoveNames(fs, ino, now);
    ParentIsDir(fs, ino);
    UnlinkEffect(fs, fs[ino].parent, ino, now);
  }

  /** Moving a name touches the two directories, and the parent of what is moved. */
  lemma MoveEffect(fs: Fs, ino: u32, newDir: u32, newName: seq<byte>, now: u64)
    requires ino in fs && newDir in fs && ino != newDir && fs[ino].parent != ino && ValidName(newName)
    requires Move(fs, ino, newDir, newName, now).Ok?
    ensures var fs' := Move(fs, ino, newDir, newName, now).value.fs;
            && Move(fs, ino, newDir, newName, now).value.ino == ino
            && ino in fs' && fs'[ino] == fs[ino].(parent := newDir)
            && Rewritten(fs, fs', fs[ino].parent, now) && Rewritten(fs, fs', newDir, now)
            && SameBut(fs, fs', {ino as nat, fs[ino].parent as nat, newDir as nat})
  {
    hide Entries, Unlink, PutEntry, FreeSlot, ValidName;
    UnlinkEffect(fs, fs[ino].parent, ino, now);
    NameBound(newName);
  }

  lemma DisplaceEffect(fs: Fs, ino: nat, newDir: nat, k: nat, now: u64)
    requires ino in fs && newDir in fs && k < |Entries(fs[newDir].data)|
    requires Displace(fs, ino, newDir, k, now).Ok?
    ensures var fs', v := Displace(fs, ino, newDir, k, now).value.fs, Entries(fs[newDir].data)[k].ino as nat;
            v in fs && v !in fs' && SameBut(fs, fs', {v, newDir}) && (v != newDir ==> Rewritten(fs, fs', newDir, now))
  {
    hide Entries, Unlink, AllFree;
    UnlinkEffect(fs, newDir, Entries(fs[newDir].data)[k].ino, now);
  }

  /** The one entry under a name, found in its directory. */
  lemma FoundThere(fs: Fs, ino: nat, dir: nat, name: seq<byte>)
    requires Shape(fs, 0) && IsDir(fs, dir)
    ensures match FindName(Entries(fs[dir].data), name, 0)
            case None => !There(fs, ino, dir, name) && forall v: nat :: !InTheWay(fs, ino, dir, name, v)
            case Some(k) =>
              var e := Entries(fs[dir].data)[k];
              && (There(fs, ino, dir, name) <==> e.ino == ino)
              && (forall v: nat :: InTheWay(fs, ino, dir, name, v) <==> v == e.ino && v != ino)
              && e.ino in fs && e.ino != dir && fs[e.ino].parent == dir && fs[e.ino].kind == e.kind
  {
    hide Entries, Names, Shape;
    var es := Entries(fs[dir].data);
    match FindName(es, name, 0)
    case None =>
      Unnamed(fs, dir, name);
    case Some(k) =>
      SlotNamed(fs, dir, k);
      SlotFacts(fs, dir, k);
      NamesUnique(fs, dir, es[k]);
      assert (dir, es[k]) in Names(fs);
      NotItself(fs, dir, k);
  }

  lemma NotItself(fs: Fs, d: nat, k: nat)
    requires Shape(fs, 0) && IsDir(fs, d) && k < |Entries(fs[d].data)| && Entries(fs[d].data)[k].ino != 0
    ensures Entries(fs[d].data)[k].ino != d
  {
    hide EntriesOk, NamedOk, RootedOk, DirsOk, ParentsOk, Entries;
    var e := Entries(fs[d].data)[k];
    SlotFacts(fs, d, k);
    UsedAt(Entries(fs[d].data), k);
    ListedNotRoot(fs, d, e);
    NotOwnParent(fs, e.ino);
  }

  /** What is in the way of a rename has nothing in it. */
  lemma ParentStays(fs: Fs, ino: nat, newDir: nat, k: nat, now: u64)
    requires Shape(fs, 0) && ino in fs && ino != ROOT_INO && IsDir(fs, newDir)
    requires k < |Entries(fs[newDir].data)| && Entries(fs[newDir].data)[k].ino != 0
    requires Displace(fs, ino, newDir, k, now).Ok?
    ensures Entries(fs[newDir].data)[k].ino != fs[ino].parent
  {
    hide EntriesOk, NamedOk, RootedOk, DirsOk, ParentsOk, Entries, Unlink, Used;
    var v := Entries(fs[newDir].data)[k].ino;
    if v == fs[ino].parent {
      ParentIsDir(fs, ino);
      NothingListed(Entries(fs[v].data));
      assert HasName(fs, ino) by { ListedSomewhere(fs, ino); }
    }
  }

  lemma ListedSomewhere(fs: Fs, i: nat)
    requires NamedOk(fs, 0) && i in fs && i != ROOT_INO && i != 0
    ensures HasName(fs, i)
  {
  }

  lemma RenameEffect(fs: Fs, ino: u32, newDir: u32, newName: seq<byte>, now: u64)
    requires Shape(fs, 0) && Rename(fs, ino, newDir, newName, now).Ok?
    ensures Rename(fs, ino, newDir, newName, now).value.ino == ino
    ensures Renamed(fs, Rename(fs, ino, newDir, newName, now).value.fs, ino, newDir, newName, now)
  {
    hide Shape, Entries, Names, ValidName, Move, Displace, There, InTheWay, IsInside, Up;
    var es := Entries(fs[newDir].data);
    RenameNames(fs, ino, newDir, newName, now);
    RenameOutside(fs, ino, newDir, newName, now);
    assert Up(fs, newDir, 0) == newDir by { UpNone(fs, newDir); }
    ParentIsDir(fs, ino);
    FoundThere(fs, ino, newDir, newName);
    match FindName(es, newName, 0)
    case None =>
      MoveEffect(fs, ino, newDir, newName, now);
    case Some(k) =>
      if es[k].ino != ino {
        ParentStays(fs, ino, newDir, k, now);
        DisplaceEffect(fs, ino, newDir, k, now);
        var mid := Displace(fs, ino, newDir, k, now).value.fs;
        MoveEffect(mid, ino, newDir, newName, now);
      }
  }

  lemma UpNone(fs: Fs, i: nat)
    ensures Up(fs, i, 0) == i
  {
  }

  /** A call that succeeds has its effect. */
  lemma SpecEffect(fs: Fs, c: Call)
    requires Shape(fs, 0) && Spec(fs, c).Ok?
    ensures Effect(fs, c, Spec(fs, c).value.fs, Spec(fs, c).value.ino)
  {
    hide Shape, Create, WriteAt, Truncate, Remove, Rename, Created, Wrote, Truncated, Removed, Renamed;
    match c
    case CallCreate(dir, name, directory, now) => CreateEffect(fs, dir, name, directory, now);
    case CallWrite(ino, offset, data, now) => WriteEffect(fs, ino, offset, data, now);
    case CallTruncate(ino, length, now) => TruncateEffect(fs, ino, length, now);
    case CallReadOnly(ino, readOnly) =>
    case CallMode(ino, mode) =>
    case CallRemove(ino, now) => RemoveEffect(fs, ino, now);
    case CallRename(ino, newDir, newName, now) => RenameEffect(fs, ino, newDir, newName, now);
  }

  lemma BadNameIs(name: seq<byte>)
    ensures BadName(name) <==> !ValidName(name)
  {
  }

  lemma CreateRefusal(fs: Fs, dir: u32, name: seq<byte>, directory: bool, now: u64, e: Error)
    requires Shape(fs, 0)
    ensures Create(fs, dir, name, KindOf(directory), now) == Err(e) <==> CreateRefused(fs, dir, name, e)
  {
    hide Shape, Entries, Names, ValidName, BadName, PutEntry, FreeSlot, HasEntry;
    BadNameIs(name);
    if IsDir(fs, dir) {
      NamedEntry(fs, dir, name);
    } else {
      NoEntry(fs, dir, name);
    }
  }

  lemma NoEntry(fs: Fs, d: nat, name: seq<byte>)
    requires !IsDir(fs, d)
    ensures !HasEntry(fs, d, name)
  {
    NoDirectory(fs, d);
  }

  lemma WriteRefusal(fs: Fs, ino: u32, offset: nat, data: seq<byte>, now: u64, e: Error)
    ensures WriteAt(fs, ino, offset, data, now) == Err(e) <==> Refused(fs, CallWrite(ino, offset, data, now), e)
  {
    hide Overwrite;
  }

  lemma EmptyIs(fs: Fs, d: nat)
    requires IsDir(fs, d)
    ensures AllFree(Entries(fs[d].data)) <==> !exists p :: p in Names(fs) && p.0 == d
  {
    hide Entries, Names, Used;
    var es := Entries(fs[d].data);
    NothingListed(es);
    if e :| e in Used(es) {
      NamesHas(fs, d, e);
      assert (d, e) in Names(fs);
    }
    forall p | p in Names(fs) && p.0 == d ensures p.1 in Used(es) {
      NamesHas(fs, d, p.1);
      assert p == (d, p.1);
    }
  }

  lemma RemoveRefusal(fs: Fs, ino: u32, now: u64, e: Error)
    requires Shape(fs, 0)
    ensures Remove(fs, ino, now) == Err(e) <==> RemoveRefused(fs, ino, e)
  {
    hide Shape, Entries, Names, Unlink, AllFree;
    if ino in fs && ino != ROOT_INO {
      UnlinkKeeps(fs, ino, now);
      if IsDir(fs, ino) {
        EmptyIs(fs, ino);
      }
    }
  }

  /** The walk up from a directory, by what is on the way. */
  lemma {:induction false} InsideIs(fs: Fs, d: nat, ino: nat)
    requires Shape(fs, 0) && d in fs && ino != ROOT_INO
    ensures IsInside(fs, d, ino, 4096) ==
      if Within(fs, d, ino) then Ok(true) else if Within(fs, d, 1) then Ok(false) else Err(Corrupt)
  {
    hide EntriesOk, NamedOk, DirsOk, RootedOk, ParentsOk, IsInside;
    InsideCutOff(fs, d, ino, 4096);
    if IsInside(fs, d, ino, 4096).Err? {
      forall n: nat | n < 4096 ensures Up(fs, d, n) != ino && Up(fs, d, n) != 1 {
        assert !Stops(fs, d, ino, n);
      }
    } else {
      var n: nat :| n < 4096 && Stops(fs, d, ino, n);
      if IsInside(fs, d, ino, 4096).value {
        InsideTrue(fs, d, ino, 4096);
      } else {
        forall m: nat ensures Up(fs, d, m) != ino {
          InsideFalse(fs, d, ino, 4096, m);
        }
      }
    }
  }

  lemma {:induction false} InsideTrue(fs: Fs, d: nat, ino: nat, steps: nat)
    requires IsInside(fs, d, ino, steps) == Ok(true)
    ensures exists n: nat :: n < steps && Up(fs, d, n) == ino
    decreases steps
  {
    if d == ino {
      assert Up(fs, d, 0) == ino;
    } else {
      InsideTrue(fs, fs[d].parent, ino, steps - 1);
      var n: nat :| n < steps - 1 && Up(fs, fs[d].parent, n) == ino;
      assert Up(fs, d, n + 1) == ino;
    }
  }

  /** When what has the name may not go. */
  lemma DisplaceRefusal(fs: Fs, ino: nat, newDir: nat, k: nat, now: u64, e: Error)
    requires Shape(fs, 0) && ino in fs && IsDir(fs, newDir)
    requires k < |Entries(fs[newDir].data)| && Entries(fs[newDir].data)[k].ino != 0
    ensures var v := Entries(fs[newDir].data)[k].ino as nat;
            && v in fs
            && (Displace(fs, ino, newDir, k, now) == Err(e) <==>
                match e
                case IsDirectory => IsDir(fs, v) && IsFile(fs, ino)
                case NotDirectory => IsFile(fs, v) && IsDir(fs, ino)
                case InvalidArgument => (IsDir(fs, v) <==> IsDir(fs, ino)) && fs[v].readOnly
                case NotEmpty => IsDir(fs, v) && IsDir(fs, ino) && !fs[v].readOnly && exists p :: p in Names(fs) && p.0 == v
                case _ => false)
  {
    hide Shape, Entries, Names, Unlink, AllFree;
    var v := Entries(fs[newDir].data)[k].ino;
    SlotFacts(fs, newDir, k);
    UsedAt(Entries(fs[newDir].data), k);
    ListedNotTheRoot(fs, newDir, k);
    UnlinkKeeps(fs, v, now);
    TwoKinds(fs, ino);
    TwoKinds(fs, v);
    if IsDir(fs, v) {
      EmptyIs(fs, v);
    }
  }

  lemma ListedNotTheRoot(fs: Fs, d: nat, k: nat)
    requires Shape(fs, 0) && IsDir(fs, d) && k < |Entries(fs[d].data)| && Entries(fs[d].data)[k].ino != 0
    ensures Entries(fs[d].data)[k].ino != ROOT_INO
  {
    hide EntriesOk, NamedOk, RootedOk, DirsOk, ParentsOk, Entries;
    UsedAt(Entries(fs[d].data), k);
    ListedNotRoot(fs, d, Entries(fs[d].data)[k]);
  }

  lemma TwoKinds(fs: Fs, i: nat)
    requires Shape(fs, 0) && i in fs
    ensures fs[i].kind == KIND_FILE || fs[i].kind == KIND_DIRECTORY
  {
    hide EntriesOk, NamedOk, RootedOk, DirsOk, ParentsOk;
  }

  lemma RenameRefusal(fs: Fs, ino: u32, newDir: u32, newName: seq<byte>, now: u64, e: Error)
    requires Shape(fs, 0)
    ensures Rename(fs, ino, newDir, newName, now) == Err(e) <==> RenameRefused(fs, ino, newDir, newName, e)
  {
    hide Shape, Entries, Names, ValidName, BadName, Move, Displace, There, InTheWay, IsInside, Within, Up;
    BadNameIs(newName);
    if ValidName(newName) && ino != ROOT_INO && ino in fs && IsDir(fs, newDir) {
      InsideIs(fs, newDir, ino);
      if fs[ino].kind == KIND_DIRECTORY ==> IsInside(fs, newDir, ino, 4096) == Ok(false) {
        ReplaceRefusal(fs, ino, newDir, newName, now, e);
      }
    }
  }

  /** A rename that nothing above the new directory forbids. */
  lemma ReplaceRefusal(fs: Fs, ino: u32, newDir: u32, newName: seq<byte>, now: u64, e: Error)
    requires Shape(fs, 0) && ValidName(newName) && ino != ROOT_INO && ino in fs && IsDir(fs, newDir)
    requires fs[ino].kind == KIND_DIRECTORY ==> IsInside(fs, newDir, ino, 4096) == Ok(false)
    ensures Passes(fs, ino, newDir, newName)
    ensures Rename(fs, ino, newDir, newName, now) == Err(e) <==> RenameRefused(fs, ino, newDir, newName, e)
  {
    hide Shape, Entries, Names, ValidName, BadName, Move, Displace, There, InTheWay, IsInside, Within, Up, Outside;
    BadNameIs(newName);
    InsideIs(fs, newDir, ino);
    FoundThere(fs, ino, newDir, newName);
    NotInside(fs, newDir, ino);
    var es := Entries(fs[newDir].data);
    match FindName(es, newName, 0)
    case None =>
      NoSuchName(es, newName);
      MoveKeeps(fs, ino, newDir, newName, now);
    case Some(k) =>
      if es[k].ino != ino {
        DisplaceRefusal(fs, ino, newDir, k, now, e);
        if Displace(fs, ino, newDir, k, now).Ok? {
          DisplaceKeeps(fs, ino, newDir, k, now);
          MoveKeeps(Displace(fs, ino, newDir, k, now).value.fs, ino, newDir, newName, now);
        } else {
          DisplaceRefusal(fs, ino, newDir, k, now, Displace(fs, ino, newDir, k, now).error);
        }
      }
  }

  lemma NotInside(fs: Fs, d: nat, ino: nat)
    requires Shape(fs, 0) && IsDir(fs, d) && ino in fs && ino != ROOT_INO
    requires fs[ino].kind == KIND_DIRECTORY ==> IsInside(fs, d, ino, 4096) == Ok(false)
    ensures Outside(fs, d, ino)
  {
    hide EntriesOk, NamedOk, RootedOk, DirsOk, ParentsOk;
    if fs[ino].kind == KIND_DIRECTORY {
      forall n: nat ensures Up(fs, d, n) != ino {
        InsideFalse(fs, d, ino, 4096, n);
      }
    } else {
      FileOutside(fs, d, ino);
    }
  }

  /** A call is refused, with this error, exactly when that is so. */
  lemma SpecRefusal(fs: Fs, c: Call, e: Error)
    requires Shape(fs, 0)
    ensures Spec(fs, c) == Err(e) <==> Refused(fs, c, e)
  {
    hide Shape, Create, WriteAt, Truncate, Remove, Rename, CreateRefused, RemoveRefused, RenameRefused;
    match c
    case CallCreate(dir, name, directory, now) => CreateRefusal(fs, dir, name, directory, now, e);
    case CallWrite(ino, offset, data, now) => WriteRefusal(fs, ino, offset, data, now, e);
    case CallTruncate(ino, length, now) => TruncateRefusal(fs, ino, length, now, e);
    case CallReadOnly(ino, readOnly) =>
    case CallMode(ino, mode) =>
    case CallRemove(ino, now) => RemoveRefusal(fs, ino, now, e);
    case CallRename(ino, newDir, newName, now) => RenameRefusal(fs, ino, newDir, newName, now, e);
  }

  lemma TruncateRefusal(fs: Fs, ino: u32, length: nat, now: u64, e: Error)
    ensures Truncate(fs, ino, length, now) == Err(e) <==> EditRefused(fs, ino, e)
  {
    hide Resize;
  }
}
