/**
 How far below the root a directory is, and the renames an undamaged volume
 refuses as damage: the walk that looks for the moved directory above the new
 one gives up after 4096 inodes.
 */
module AerDepth {
  import opened LittleEndian
  import opened AerLayout
  import opened AerDirs
  import opened AerNames
  import opened AerCalls

  /** Steps to the root, given some number of steps that leads there. */
  ghost function StepsUp(fs: Fs, i: nat, n: nat): (r: nat)
    requires Up(fs, i, n) == ROOT_INO
    ensures r <= n && Up(fs, i, r) == ROOT_INO && forall m: nat :: m < r ==> Up(fs, i, m) != ROOT_INO
    decreases n
  {
    if i == ROOT_INO || n == 0 || i !in fs then 0
    else
      var p := fs[i].parent;
      var r := StepsUp(fs, p, n - 1);
      assert forall m: nat :: 0 < m < r + 1 ==> Up(fs, i, m) == Up(fs, p, m - 1);
      r + 1
  }

  ghost function Steps(fs: Fs, i: nat): (r: nat)
    requires Rooted(fs, i)
    ensures Up(fs, i, r) == ROOT_INO && forall m: nat :: m < r ==> Up(fs, i, m) != ROOT_INO
  {
    var n: nat :| Up(fs, i, n) == ROOT_INO;
    StepsUp(fs, i, n)
  }

  lemma StepsDown(fs: Fs, i: nat)
    requires Shape(fs, 0) && i in fs && i != ROOT_INO
    ensures fs[i].parent in fs && Rooted(fs, i) && Rooted(fs, fs[i].parent)
    ensures Steps(fs, i) == Steps(fs, fs[i].parent) + 1
  {
    hide DirsOk, EntriesOk, NamedOk;
    assert ParentOk(fs, i);
    var p := fs[i].parent;
    assert Rooted(fs, i) && Rooted(fs, p);
    var r := Steps(fs, p);
    assert Up(fs, i, r + 1) == Up(fs, p, r);
    assert Steps(fs, i) > 0;
    assert Up(fs, i, Steps(fs, i)) == Up(fs, p, Steps(fs, i) - 1);
  }

  /** The number of directories above an inode. */
  function Depth(fs: Fs, i: nat): nat
    requires Shape(fs, 0) && i in fs
    decreases Steps(fs, i)
  {
    if i == ROOT_INO then 0
    else
      StepsDown(fs, i);
      Depth(fs, fs[i].parent) + 1
  }

  /** Depth is the number of the first step up that reaches the root. */
  lemma {:induction false} DepthIs(fs: Fs, i: nat)
    requires Shape(fs, 0) && i in fs
    ensures Rooted(fs, i) && Depth(fs, i) == Steps(fs, i)
    decreases Steps(fs, i)
  {
    hide DirsOk, EntriesOk, NamedOk;
    if i != ROOT_INO {
      StepsDown(fs, i);
      DepthIs(fs, fs[i].parent);
    } else {
      assert Up(fs, i, 0) == ROOT_INO;
    }
  }

  /** The walk from a directory is cut off exactly when the directory is too deep and the inode not near above it. */
  lemma WalkCutOff(fs: Fs, d: nat, ino: nat, steps: nat)
    requires Shape(fs, 0) && d in fs
    ensures IsInside(fs, d, ino, steps).Err? ==> IsInside(fs, d, ino, steps) == Err(Corrupt)
    ensures IsInside(fs, d, ino, steps).Err? <==>
      Depth(fs, d) >= steps && forall n: nat :: n < steps ==> Up(fs, d, n) != ino
  {
    hide DirsOk, EntriesOk, NamedOk, ParentsOk, RootedOk, IsInside, Depth, BaseOk;
    DepthIs(fs, d);
    InsideCutOff(fs, d, ino, steps);
    var r := Steps(fs, d);
    if r < steps {
      assert Stops(fs, d, ino, r);
    } else if IsInside(fs, d, ino, steps).Ok? {
      var n: nat :| n < steps && Stops(fs, d, ino, n);
      assert Up(fs, d, n) == ino;
    } else {
      forall n: nat | n < steps ensures Up(fs, d, n) != ino {
        assert !Stops(fs, d, ino, n);
      }
    }
  }

  lemma UnlinkFinds(fs: Fs, d: nat, k: nat, now: u64)
    requires Shape(fs, 0) && IsDir(fs, d) && k < |Entries(fs[d].data)| && Entries(fs[d].data)[k].ino != 0
    ensures Unlink(fs, d, Entries(fs[d].data)[k].ino, now).Ok?
  {
    hide EntriesOk, NamedOk, RootedOk, DirsOk, ParentsOk, Entries, Unlink;
    SlotFacts(fs, d, k);
    UsedAt(Entries(fs[d].data), k);
    ListedNotRoot(fs, d, Entries(fs[d].data)[k]);
    UnlinkKeeps(fs, Entries(fs[d].data)[k].ino, now);
  }

  /** Past the walk, a rename finds no damage. */
  lemma RestNotCorrupt(fs: Fs, ino: u32, newDir: u32, newName: seq<byte>, now: u64)
    requires Shape(fs, 0) && ino in fs && ino != ROOT_INO && IsDir(fs, newDir) && ValidName(newName)
    requires fs[ino].kind == KIND_DIRECTORY ==> IsInside(fs, newDir, ino, 4096).Ok?
    ensures Rename(fs, ino, newDir, newName, now) != Err(Corrupt)
  {
    hide EntriesOk, NamedOk, RootedOk, DirsOk, ParentsOk, Entries, ValidName, Used, Move, Displace, Unlink, IsInside;
    if fs[ino].kind == KIND_DIRECTORY && IsInside(fs, newDir, ino, 4096).value {
      return;
    }
    if fs[ino].kind == KIND_DIRECTORY {
      forall n: nat ensures Up(fs, newDir, n) != ino {
        InsideFalse(fs, newDir, ino, 4096, n);
      }
    } else {
      FileOutside(fs, newDir, ino);
    }
    var es := Entries(fs[newDir].data);
    match FindName(es, newName, 0)
    case None =>
      NoSuchName(es, newName);
      MoveKeeps(fs, ino, newDir, newName, now);
    case Some(k) =>
      if es[k].ino != ino {
        DisplaceNotCorrupt(fs, ino, newDir, k, now);
        if Displace(fs, ino, newDir, k, now).Ok? {
          DisplaceKeeps(fs, ino, newDir, k, now);
          MoveKeeps(Displace(fs, ino, newDir, k, now).value.fs, ino, newDir, newName, now);
        }
      }
  }

  lemma DisplaceNotCorrupt(fs: Fs, ino: nat, newDir: nat, k: nat, now: u64)
    requires Shape(fs, 0) && ino in fs && IsDir(fs, newDir)
    requires k < |Entries(fs[newDir].data)| && Entries(fs[newDir].data)[k].ino != 0
    ensures Displace(fs, ino, newDir, k, now) != Err(Corrupt)
  {
    hide EntriesOk, NamedOk, RootedOk, DirsOk, ParentsOk, Entries, Unlink, AllFree;
    UnlinkFinds(fs, newDir, k, now);
  }

  /**
   A rename on an undamaged volume reports damage exactly when it moves a
   directory, valid in every other way, to one with 4096 or more above it, and
   the moved directory is not among the 4096 nearest.
   */
  lemma RenameCutOff(fs: Fs, ino: u32, newDir: u32, newName: seq<byte>, now: u64)
    requires Shape(fs, 0)
    ensures Rename(fs, ino, newDir, newName, now) == Err(Corrupt) <==>
      && ValidName(newName) && ino != ROOT_INO && IsDir(fs, ino) && IsDir(fs, newDir)
      && Depth(fs, newDir) >= 4096 && forall n: nat :: n < 4096 ==> Up(fs, newDir, n) != ino
  {
    hide EntriesOk, NamedOk, RootedOk, DirsOk, ParentsOk, Entries, ValidName, Move, Displace, IsInside, Depth, Up,
      FindName;
    if ValidName(newName) && ino != ROOT_INO && ino in fs && IsDir(fs, newDir) {
      WalkCutOff(fs, newDir, ino, 4096);
      if fs[ino].kind == KIND_DIRECTORY ==> IsInside(fs, newDir, ino, 4096).Ok? {
        RestNotCorrupt(fs, ino, newDir, newName, now);
      }
    }
  }

  // ------------------------------------------------- directories in a chain

  /** A fresh volume after creating directory `a` in the root, `a` in that, and so on, `n` inodes in all. */
  ghost function Nest(n: nat): Fs
    requires n <= MAX_INODES
  {
    if n <= 1 then map[ROOT_INO as nat := Meta(KIND_DIRECTORY, false, 493, ROOT_INO, 0, [])]
    else
      match Create(Nest(n - 1), n - 1, [97], KIND_DIRECTORY, 0)
      case Ok(c) => c.fs
      case Err(_) => Nest(n - 1)
  }

  /** Inodes 1 to `n`, each the parent of the next. */
  ghost predicate Chained(fs: Fs, n: nat) {
    && (forall i :: i in fs <==> 1 <= i <= n)
    && (forall i :: 1 <= i <= n ==> fs[i].kind == KIND_DIRECTORY && fs[i].parent == Max(i - 1, 1))
  }

  lemma Deeper(fs: Fs, n: nat)
    requires Shape(fs, 0) && 1 <= n < MAX_INODES && Chained(fs, n) && fs[n].data == []
    ensures var r := Create(fs, n, [97], KIND_DIRECTORY, 0);
            r.Ok? && Shape(r.value.fs, 0) && Chained(r.value.fs, n + 1) && r.value.fs[n + 1].data == []
  {
    hide EntriesOk, NamedOk, RootedOk, DirsOk, ParentsOk, Entries, PutEntry, FreeSlot, Names, FreeIno;
    EntriesEmpty();
    FreeInoIs(fs, n + 1);
    assert Create(fs, n, [97], KIND_DIRECTORY, 0).Ok?;
    CreateKeeps(fs, n, [97], KIND_DIRECTORY, 0);
    CreateNames(fs, n, [97], KIND_DIRECTORY, 0);
  }

  lemma {:induction false} NestIs(n: nat)
    requires 1 <= n <= MAX_INODES
    ensures Shape(Nest(n), 0) && Chained(Nest(n), n) && Nest(n)[n].data == []
  {
    hide Shape, Create;
    if n == 1 {
      RootShape(Nest(1), 493, 0);
    } else {
      NestIs(n - 1);
      Deeper(Nest(n - 1), n - 1);
    }
  }

  lemma {:induction false} ChainDepth(fs: Fs, n: nat, i: nat)
    requires Shape(fs, 0) && Chained(fs, n) && 1 <= i <= n
    ensures Depth(fs, i) == i - 1
  {
    hide EntriesOk, NamedOk, RootedOk, DirsOk, ParentsOk;
    if i > 1 { ChainDepth(fs, n, i - 1); }
  }

  lemma {:induction false} ChainUp(fs: Fs, n: nat, i: nat, k: nat)
    requires Chained(fs, n) && 1 <= i <= n
    ensures 1 <= Up(fs, i, k) <= i
    decreases k
  {
    if k > 0 { ChainUp(fs, n, Max(i - 1, 1), k - 1); }
  }

  /** Giving the last directory of a chain another name, where it is, fails as damage from the 4097th on. */
  lemma TooDeepToRename(n: u32, now: u64)
    requires 1 <= n < MAX_INODES
    ensures var fs := Nest(n + 1);
            && Shape(fs, 0) && Chained(fs, n + 1)
            && (Rename(fs, n + 1, n, [98], now) == Err(Corrupt) <==> n > 4096)
  {
    hide Shape, Rename, Depth, Nest, Up;
    var fs := Nest(n + 1);
    NestIs(n + 1);
    ChainDepth(fs, n + 1, n);
    forall k: nat ensures Up(fs, n, k) != n + 1 {
      ChainUp(fs, n + 1, n, k);
    }
    RenameCutOff(fs, n + 1, n, [98], now);
  }
}
