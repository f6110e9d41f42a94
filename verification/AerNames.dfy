/**
 The filesystem a user sees: inodes with their metadata and bytes, and the
 names directories give them. Specifies every call and proves what all of them
 keep: one name per inode, in the directory it says is its parent, and parents
 that lead to the root.
 */
module AerNames {
  import opened LittleEndian
  import opened AerLayout
  import opened AerDirs

  datatype Meta = Meta(kind: byte, readOnly: bool, mode: u16, parent: u32, mtime: u64, data: seq<byte>)

  type Fs = map<nat, Meta>

  predicate ValidName(name: seq<byte>) {
    name != [] && |name| <= NAME_MAX && name != [46] && name != [46, 46] && 47 !in name && 0 !in name
  }

  ghost predicate IsDir(fs: Fs, d: nat) {
    d in fs && fs[d].kind == KIND_DIRECTORY
  }

  /** The entries in use. */
  ghost function Used(es: seq<Entry>): set<Entry> {
    set e | e in es && e.ino != 0
  }

  ghost function Listing(fs: Fs, d: nat): set<Entry>
    requires d in fs
  {
    Used(Entries(fs[d].data))
  }

  /** No two slots in use share an inode or a name. */
  ghost predicate Distinct(es: seq<Entry>) {
    forall j, k :: 0 <= j < k < |es| && es[j].ino != 0 && es[k].ino != 0 ==>
      es[j].ino != es[k].ino && es[j].name != es[k].name
  }

  function Max(a: nat, b: nat): nat {
    if a < b then b else a
  }

  /** The inode `n` levels up. */
  ghost function Up(fs: Fs, i: nat, n: nat): nat
    decreases n
  {
    if n == 0 || i !in fs then i else Up(fs, fs[i].parent, n - 1)
  }

  ghost predicate Rooted(fs: Fs, i: nat) {
    exists n: nat :: Up(fs, i, n) == ROOT_INO
  }

  ghost predicate EntryOk(fs: Fs, d: nat, e: Entry, loose: nat) {
    && e.ino in fs && e.ino != ROOT_INO && e.ino != loose
    && fs[e.ino].parent == d && fs[e.ino].kind == e.kind
    && ValidName(e.name)
  }

  /**
   The shape every call keeps. `loose` is an inode that has no name at the
   moment, in the middle of a call; 0 when there is none.
   */
  ghost predicate Shape(fs: Fs, loose: nat) {
    && BaseOk(fs, loose)
    && DirsOk(fs)
    && EntriesOk(fs, loose)
    && ParentsOk(fs)
    && NamedOk(fs, loose)
    && RootedOk(fs)
  }

  ghost predicate BaseOk(fs: Fs, loose: nat) {
    && IsDir(fs, ROOT_INO) && fs[ROOT_INO].parent == ROOT_INO
    && loose != ROOT_INO && (loose != 0 ==> loose in fs)
    && (forall i :: i in fs ==> 1 <= i <= MAX_INODES && fs[i].kind in {KIND_FILE, KIND_DIRECTORY})
  }

  /** Directories are whole slots, without a repeated inode or name. */
  ghost predicate DirsOk(fs: Fs) {
    forall d {:trigger IsDir(fs, d)} :: IsDir(fs, d) ==> DirOk(fs[d].data)
  }

  ghost predicate DirOk(data: seq<byte>) {
    |data| % DIR_ENTRY == 0 && Distinct(Entries(data)) && |Entries(data)| <= MAX_INODES + 1
  }

  /** An entry names a live inode of its kind that says this directory is its parent. */
  ghost predicate EntriesOk(fs: Fs, loose: nat) {
    forall d, e {:trigger EntryOk(fs, d, e, loose)} ::
      IsDir(fs, d) && e in Listing(fs, d) ==> EntryOk(fs, d, e, loose)
  }

  ghost predicate ParentsOk(fs: Fs) {
    forall i {:trigger ParentOk(fs, i)} :: i in fs ==> ParentOk(fs, i)
  }

  ghost predicate ParentOk(fs: Fs, i: nat) {
    i in fs ==> IsDir(fs, fs[i].parent)
  }

  /** Every inode but the root is listed in its parent. */
  ghost predicate NamedOk(fs: Fs, loose: nat) {
    forall i {:trigger HasName(fs, i)} :: i in fs && i != ROOT_INO && i != loose ==> HasName(fs, i)
  }

  ghost predicate HasName(fs: Fs, i: nat) {
    i in fs && fs[i].parent in fs && exists e :: e in Listing(fs, fs[i].parent) && e.ino == i
  }

  ghost predicate RootedOk(fs: Fs) {
    forall i {:trigger Rooted(fs, i)} :: i in fs ==> Rooted(fs, i)
  }

  // ------------------------------------------------------ directory updates

  ghost function SetData(fs: Fs, d: nat, data: seq<byte>, now: u64): Fs
    requires d in fs
  {
    fs[d := fs[d].(data := data, mtime := now)]
  }

  ghost function Insert(fs: Fs, d: nat, e: Entry, now: u64): Fs
    requires d in fs && |e.name| <= NAME_MAX
  {
    SetData(fs, d, PutEntry(fs[d].data, FreeSlot(Entries(fs[d].data)), e), now)
  }

  ghost function Clear(fs: Fs, d: nat, k: nat, now: u64): Fs
    requires d in fs && k < |Entries(fs[d].data)|
  {
    SetData(fs, d, ClearEntry(fs[d].data, k), now)
  }

  lemma UsedPut(es: seq<Entry>, k: nat, e: Entry)
    requires k <= |es| && (k < |es| ==> es[k].ino == 0) && e.ino != 0
    ensures var es' := if k < |es| then es[k := e] else es + [e];
            Used(es') == Used(es) + {e}
  {
    var es' := if k < |es| then es[k := e] else es + [e];
    forall x | x in Used(es) ensures x in es' {
      var i :| 0 <= i < |es| && es[i] == x;
      assert es'[i] == x;
    }
    assert es'[k] == e;
  }

  lemma UsedClear(es: seq<Entry>, k: nat)
    requires k < |es| && Distinct(es) && es[k].ino != 0
    ensures var z := es[k := FREE_ENTRY];
            var es' := z[..UsedLength(z, |z|)];
            Used(es') == Used(es) - {es[k]} && Distinct(es')
  {
    var z := es[k := FREE_ENTRY];
    var m := UsedLength(z, |z|);
    var es' := z[..m];
    forall x | x in Used(es) && x != es[k] ensures x in es' {
      var i :| 0 <= i < |es| && es[i] == x;
      assert z[i] == x;
      assert i < m;
      assert es'[i] == x;
    }
    forall x | x in Used(es') ensures x in Used(es) && x != es[k] {
      var i :| 0 <= i < |es'| && es'[i] == x;
      assert i != k;
      assert es[i] == x;
    }
    forall i, j | 0 <= i < j < |es'| && es'[i].ino != 0 && es'[j].ino != 0
      ensures es'[i].ino != es'[j].ino && es'[i].name != es'[j].name
    {
      assert es'[i] == es[i] && es'[j] == es[j];
    }
  }

  lemma DistinctPut(es: seq<Entry>, k: nat, e: Entry)
    requires k <= |es| && (k < |es| ==> es[k].ino == 0) && e.ino != 0 && Distinct(es)
    requires forall x :: x in Used(es) ==> x.ino != e.ino && x.name != e.name
    ensures Distinct(if k < |es| then es[k := e] else es + [e])
  {
    var es' := if k < |es| then es[k := e] else es + [e];
    forall i, j | 0 <= i < j < |es'| && es'[i].ino != 0 && es'[j].ino != 0
      ensures es'[i].ino != es'[j].ino && es'[i].name != es'[j].name
    {
      if i == k {
        assert es[j] in Used(es);
      } else if j == k {
        assert es[i] in Used(es);
      }
    }
  }

  /** An entry added to a directory: its listing gains exactly that entry. */
  lemma ListingInsert(fs: Fs, d: nat, e: Entry, now: u64)
    requires d in fs && |fs[d].data| % DIR_ENTRY == 0 && Distinct(Entries(fs[d].data))
    requires |e.name| <= NAME_MAX && e.ino != 0
    requires forall x :: x in Listing(fs, d) ==> x.ino != e.ino && x.name != e.name
    ensures var fs' := Insert(fs, d, e, now);
            && |fs'[d].data| % DIR_ENTRY == 0 && Distinct(Entries(fs'[d].data))
            && Listing(fs', d) == Listing(fs, d) + {e}
            && |Entries(fs'[d].data)| <= Max(|Entries(fs[d].data)|, FreeSlot(Entries(fs[d].data)) + 1)
  {
    hide Entries, PutEntry, Used, Distinct;
    var es := Entries(fs[d].data);
    var k := FreeSlot(es);
    EntriesPut(fs[d].data, k, e);
    UsedPut(es, k, e);
    DistinctPut(es, k, e);
  }

  /** An entry cleared from a directory: its listing loses exactly that entry. */
  lemma ListingClear(fs: Fs, d: nat, k: nat, now: u64)
    requires d in fs && |fs[d].data| % DIR_ENTRY == 0 && Distinct(Entries(fs[d].data))
    requires k < |Entries(fs[d].data)| && Entries(fs[d].data)[k].ino != 0
    ensures var fs' := Clear(fs, d, k, now);
            && |fs'[d].data| % DIR_ENTRY == 0 && Distinct(Entries(fs'[d].data))
            && Listing(fs', d) == Listing(fs, d) - {Entries(fs[d].data)[k]}
            && |Entries(fs'[d].data)| <= |Entries(fs[d].data)|
  {
    hide Entries, ClearEntry, Used, Distinct;
    EntriesClear(fs[d].data, k);
    UsedClear(Entries(fs[d].data), k);
  }

  // ----------------------------------------------------------------- parents

  lemma {:induction false} UpFrame(fs: Fs, fs': Fs, i: nat, n: nat)
    requires fs.Keys == fs'.Keys && forall j :: j in fs ==> fs'[j].parent == fs[j].parent
    ensures Up(fs', i, n) == Up(fs, i, n)
    decreases n
  {
    if n > 0 && i in fs {
      UpFrame(fs, fs', fs[i].parent, n - 1);
    }
  }

  lemma RootedFrame(fs: Fs, fs': Fs, i: nat)
    requires fs.Keys == fs'.Keys && forall j :: j in fs ==> fs'[j].parent == fs[j].parent
    requires Rooted(fs, i)
    ensures Rooted(fs', i)
  {
    var n: nat :| Up(fs, i, n) == ROOT_INO;
    UpFrame(fs, fs', i, n);
  }

  lemma {:induction false} UpRoot(fs: Fs, n: nat)
    requires IsDir(fs, ROOT_INO) && fs[ROOT_INO].parent == ROOT_INO
    ensures Up(fs, ROOT_INO, n) == ROOT_INO
  {
    if n > 0 { UpRoot(fs, n - 1); }
  }

  /** Nobody's chain of parents goes through an inode without children. */
  lemma {:induction false} UpAvoids(fs: Fs, x: nat, i: nat, n: nat)
    requires i != x && forall j :: j in fs && j != x ==> fs[j].parent != x
    ensures Up(fs - {x}, i, n) == Up(fs, i, n)
    decreases n
  {
    if n > 0 && i in fs {
      UpAvoids(fs, x, fs[i].parent, n - 1);
    }
  }

  lemma {:induction false} UpAdded(fs: Fs, x: nat, m: Meta, i: nat, n: nat)
    requires x !in fs && i != x && forall j :: j in fs ==> fs[j].parent != x
    ensures Up(fs[x := m], i, n) == Up(fs, i, n)
    decreases n
  {
    if n > 0 && i in fs {
      UpAdded(fs, x, m, fs[i].parent, n - 1);
    }
  }

  /** `x` is not `d` and not above it. */
  ghost predicate Outside(fs: Fs, d: nat, x: nat) {
    forall n: nat :: Up(fs, d, n) != x
  }

  lemma {:induction false} UpOutside(fs: Fs, fs': Fs, x: nat, i: nat, n: nat)
    requires fs.Keys == fs'.Keys && forall j :: j in fs && j != x ==> fs'[j].parent == fs[j].parent
    requires Outside(fs, i, x)
    ensures Up(fs', i, n) == Up(fs, i, n)
    decreases n
  {
    assert Up(fs, i, 0) != x;
    if n > 0 && i in fs {
      forall m: nat ensures Up(fs, fs[i].parent, m) != x {
        assert Up(fs, i, m + 1) != x;
      }
      UpOutside(fs, fs', x, fs[i].parent, n - 1);
    }
  }

  /** Moving `x` under a directory it does not contain leaves every chain leading to the root. */
  lemma {:induction false} RootedMove(fs: Fs, fs': Fs, x: nat, d: nat, i: nat, n: nat)
    requires fs.Keys == fs'.Keys && forall j :: j in fs && j != x ==> fs'[j].parent == fs[j].parent
    requires x in fs && x != ROOT_INO && fs'[x].parent == d && Outside(fs, d, x) && Rooted(fs, d)
    requires Up(fs, i, n) == ROOT_INO && i in fs
    ensures Rooted(fs', i)
    decreases n
  {
    if i == x {
      var m: nat :| Up(fs, d, m) == ROOT_INO;
      UpOutside(fs, fs', x, d, m);
      assert Up(fs', x, m + 1) == ROOT_INO;
    } else if n == 0 || i == ROOT_INO {
      assert Up(fs', i, 0) == ROOT_INO;
    } else if fs[i].parent in fs {
      RootedMove(fs, fs', x, d, fs[i].parent, n - 1);
      var m: nat :| Up(fs', fs'[i].parent, m) == ROOT_INO;
      assert Up(fs', i, m + 1) == ROOT_INO;
    } else {
      assert Up(fs', i, 1) == fs[i].parent == ROOT_INO;
    }
  }

  // ------------------------------------------------------- what calls keep

  /** `fs'` differs from `fs` only in the bytes and time of `p`. */
  ghost predicate Relisted(fs: Fs, fs': Fs, p: nat) {
    && p in fs && p in fs' && fs' == fs[p := fs'[p]]
    && fs'[p].kind == fs[p].kind && fs'[p].parent == fs[p].parent
  }

  lemma RelistedKeeps(fs: Fs, fs': Fs, p: nat)
    requires Relisted(fs, fs', p) && ParentsOk(fs) && RootedOk(fs)
    ensures ParentsOk(fs') && RootedOk(fs')
  {
    hide Rooted;
    forall i | i in fs' ensures ParentOk(fs', i) {
      assert ParentOk(fs, i);
    }
    forall i | i in fs' ensures Rooted(fs', i) {
      assert Rooted(fs, i);
      RootedFrame(fs, fs', i);
    }
  }

  lemma RelistedDirs(fs: Fs, fs': Fs, p: nat)
    requires Relisted(fs, fs', p) && DirsOk(fs) && DirOk(fs'[p].data)
    ensures DirsOk(fs')
  {
    hide DirOk;
    forall d | IsDir(fs', d) ensures DirOk(fs'[d].data) {
      assert IsDir(fs, d);
    }
  }

  lemma UsedAt(es: seq<Entry>, k: nat)
    requires k < |es| && es[k].ino != 0
    ensures es[k] in Used(es)
  {
  }

  /** Within a directory an inode is listed once. */
  lemma DistinctInos(fs: Fs, d: nat, e: Entry, f: Entry)
    requires d in fs && DirOk(fs[d].data) && e in Listing(fs, d) && f in Listing(fs, d) && e != f
    ensures e.ino != f.ino && e.name != f.name
  {
    hide Entries;
    var es := Entries(fs[d].data);
    var i :| 0 <= i < |es| && es[i] == e;
    var j :| 0 <= j < |es| && es[j] == f;
    if i < j { assert es[i].ino != es[j].ino; } else { assert es[j].ino != es[i].ino; }
  }

  lemma ClearedEntries(fs: Fs, fs': Fs, p: nat, gone: Entry)
    requires Relisted(fs, fs', p) && IsDir(fs, p) && EntriesOk(fs, 0) && DirOk(fs[p].data)
    requires gone in Listing(fs, p) && Listing(fs', p) == Listing(fs, p) - {gone}
    ensures EntriesOk(fs', gone.ino)
  {
    hide ValidName, DirOk, Used, Entries;
    assert EntryOk(fs, p, gone, 0);
    forall d, e | IsDir(fs', d) && e in Listing(fs', d) ensures EntryOk(fs', d, e, gone.ino) {
      assert EntryOk(fs, d, e, 0);
      if d == p {
        DistinctInos(fs, p, e, gone);
      }
    }
  }

  lemma ClearedNames(fs: Fs, fs': Fs, p: nat, gone: Entry)
    requires Relisted(fs, fs', p) && NamedOk(fs, 0) && 0 !in fs
    requires gone in Listing(fs, p) && Listing(fs', p) == Listing(fs, p) - {gone}
    ensures NamedOk(fs', gone.ino)
  {
    hide Used, Entries;
    forall i | i in fs' && i != ROOT_INO && i != gone.ino ensures HasName(fs', i) {
      assert HasName(fs, i);
      var e :| e in Listing(fs, fs[i].parent) && e.ino == i;
      assert e in Listing(fs', fs'[i].parent);
    }
  }

  /** Taking an inode's name away leaves it loose and everything else in shape. */
  lemma ClearKeeps(fs: Fs, p: nat, k: nat, now: u64)
    requires Shape(fs, 0) && IsDir(fs, p)
    requires k < |Entries(fs[p].data)| && Entries(fs[p].data)[k].ino != 0
    ensures Shape(Clear(fs, p, k, now), Entries(fs[p].data)[k].ino)
    ensures Entries(fs[p].data)[k].ino in fs && fs[Entries(fs[p].data)[k].ino].parent == p
  {
    hide Distinct, Entries, ClearEntry, Used, ValidName, ParentsOk, RootedOk, NamedOk;
    var fs' := Clear(fs, p, k, now);
    var gone := Entries(fs[p].data)[k];
    assert DirOk(fs[p].data);
    UsedAt(Entries(fs[p].data), k);
    assert EntryOk(fs, p, gone, 0);
    ListingClear(fs, p, k, now);
    RelistedKeeps(fs, fs', p);
    RelistedDirs(fs, fs', p);
    ClearedEntries(fs, fs', p, gone);
    ClearedNames(fs, fs', p, gone);
  }

  lemma NoChildren(fs: Fs, x: nat, j: nat)
    requires Shape(fs, x) && x != 0 && j in fs && j != x
    requires IsDir(fs, x) ==> Listing(fs, x) == {}
    ensures fs[j].parent != x
  {
    hide Distinct, Entries, Used, ValidName, EntriesOk, RootedOk, DirsOk;
    if j != ROOT_INO {
      assert HasName(fs, j);
      assert ParentOk(fs, j);
    }
  }

  lemma DroppedRooted(fs: Fs, x: nat)
    requires RootedOk(fs) && forall j :: j in fs && j != x ==> fs[j].parent != x
    ensures RootedOk(fs - {x})
  {
    var fs' := fs - {x};
    forall i | i in fs' ensures Rooted(fs', i) {
      assert Rooted(fs, i);
      var n: nat :| Up(fs, i, n) == ROOT_INO;
      UpAvoids(fs, x, i, n);
    }
  }

  lemma DroppedEntries(fs: Fs, x: nat)
    requires EntriesOk(fs, x) && NamedOk(fs, x) && ParentsOk(fs) && DirsOk(fs) && 0 !in fs
    requires forall j :: j in fs && j != x ==> fs[j].parent != x
    ensures EntriesOk(fs - {x}, 0) && NamedOk(fs - {x}, 0) && ParentsOk(fs - {x}) && DirsOk(fs - {x})
  {
    hide Used, Entries, DirOk, ValidName;
    var fs' := fs - {x};
    forall d, e | IsDir(fs', d) && e in Listing(fs', d) ensures EntryOk(fs', d, e, 0) {
      assert EntryOk(fs, d, e, x);
    }
    forall i | i in fs' && i != ROOT_INO ensures HasName(fs', i) {
      assert HasName(fs, i);
    }
    forall i | i in fs' ensures ParentOk(fs', i) {
      assert ParentOk(fs, i);
    }
    forall d | IsDir(fs', d) ensures DirOk(fs'[d].data) {
      assert IsDir(fs, d);
    }
  }

  /** A loose inode with nothing under it may go. */
  lemma DropKeeps(fs: Fs, x: nat)
    requires Shape(fs, x) && x != 0
    requires IsDir(fs, x) ==> Listing(fs, x) == {}
    ensures Shape(fs - {x}, 0)
  {
    hide Listing, EntriesOk, NamedOk, RootedOk, ParentsOk, DirsOk;
    forall j | j in fs && j != x ensures fs[j].parent != x {
      NoChildren(fs, x, j);
    }
    DroppedRooted(fs, x);
    DroppedEntries(fs, x);
  }

  lemma EmptyDir()
    ensures DirOk([]) && Used(Entries([])) == {}
  {
  }

  lemma AddedRooted(fs: Fs, x: nat, m: Meta)
    requires RootedOk(fs) && x !in fs && m.parent in fs && forall j :: j in fs ==> fs[j].parent != x
    ensures RootedOk(fs[x := m])
  {
    var fs' := fs[x := m];
    forall i | i in fs' ensures Rooted(fs', i) {
      var top := if i == x then m.parent else i as int;
      assert Rooted(fs, top);
      var n: nat :| Up(fs, top, n) == ROOT_INO;
      UpAdded(fs, x, m, top, n);
      if i == x {
        assert Up(fs', x, n + 1) == ROOT_INO;
      }
    }
  }

  lemma AddedEntries(fs: Fs, x: nat, m: Meta)
    requires EntriesOk(fs, 0) && NamedOk(fs, 0) && ParentsOk(fs) && DirsOk(fs) && 0 !in fs
    requires x !in fs && m.data == [] && IsDir(fs, m.parent)
    ensures var fs' := fs[x := m];
            EntriesOk(fs', x) && NamedOk(fs', x) && ParentsOk(fs') && DirsOk(fs')
  {
    hide Used, Entries, DirOk, ValidName;
    EmptyDir();
    var fs' := fs[x := m];
    forall d, e | IsDir(fs', d) && e in Listing(fs', d) ensures EntryOk(fs', d, e, x) {
      assert EntryOk(fs, d, e, 0);
    }
    forall i | i in fs' && i != ROOT_INO && i != x ensures HasName(fs', i) {
      assert HasName(fs, i);
      var e :| e in Listing(fs, fs[i].parent) && e.ino == i;
      assert e in Listing(fs', fs'[i].parent);
    }
    forall i | i in fs' ensures ParentOk(fs', i) {
      assert i != x ==> ParentOk(fs, i);
    }
    forall d | IsDir(fs', d) ensures DirOk(fs'[d].data) {
      assert d != x ==> IsDir(fs, d);
    }
  }

  /** A new inode comes in loose. */
  lemma AddKeeps(fs: Fs, x: nat, m: Meta)
    requires Shape(fs, 0) && x !in fs && 2 <= x <= MAX_INODES
    requires m.kind in {KIND_FILE, KIND_DIRECTORY} && m.data == [] && IsDir(fs, m.parent)
    ensures Shape(fs[x := m], x)
  {
    hide EntriesOk, NamedOk, RootedOk, DirsOk;
    forall j | j in fs ensures fs[j].parent != x {
      assert ParentOk(fs, j);
    }
    AddedRooted(fs, x, m);
    AddedEntries(fs, x, m);
  }

  ghost function SetParent(fs: Fs, x: nat, d: u32): Fs
    requires x in fs
  {
    fs[x := fs[x].(parent := d)]
  }

  lemma NameBound(name: seq<byte>)
    requires ValidName(name)
    ensures 1 <= |name| <= NAME_MAX
  {
  }

  /** `fs'` is `fs` with the loose inode `x` listed in `d` as `e` and `d` as its parent. */
  ghost predicate Placed(fs: Fs, fs': Fs, x: nat, d: nat, e: Entry) {
    && x in fs && d in fs && x != d && fs'.Keys == fs.Keys
    && (forall i :: i in fs ==> fs'[i].kind == fs[i].kind && (i != x ==> fs'[i].parent == fs[i].parent))
    && (forall i :: i in fs && i != d ==> fs'[i].data == fs[i].data)
    && fs'[x].parent == d && e.ino == x && e.kind == fs[x].kind
    && Listing(fs', d) == Listing(fs, d) + {e}
  }

  lemma PlacedRooted(fs: Fs, fs': Fs, x: nat, d: nat, e: Entry)
    requires Placed(fs, fs', x, d, e) && RootedOk(fs) && Outside(fs, d, x) && x != ROOT_INO
    ensures RootedOk(fs')
  {
    hide Listing, Up, Outside;
    forall i | i in fs' ensures Rooted(fs', i) {
      assert Rooted(fs, i) && Rooted(fs, d);
      var n: nat :| Up(fs, i, n) == ROOT_INO;
      RootedMove(fs, fs', x, d, i, n);
    }
  }

  lemma PlacedEntries(fs: Fs, fs': Fs, x: nat, d: nat, e: Entry)
    requires Placed(fs, fs', x, d, e) && IsDir(fs, d) && ValidName(e.name) && x != ROOT_INO
    requires EntriesOk(fs, x) && NamedOk(fs, x) && ParentsOk(fs) && 0 !in fs
    ensures EntriesOk(fs', 0) && NamedOk(fs', 0) && ParentsOk(fs')
  {
    hide Used, Entries, ValidName;
    forall c, f | IsDir(fs', c) && f in Listing(fs', c) ensures EntryOk(fs', c, f, 0) {
      if c != d || f != e {
        assert EntryOk(fs, c, f, x);
      }
    }
    forall i | i in fs' && i != ROOT_INO ensures HasName(fs', i) {
      if i == x {
        assert e in Listing(fs', fs'[i].parent);
      } else {
        assert HasName(fs, i);
        var f :| f in Listing(fs, fs[i].parent) && f.ino == i;
        assert f in Listing(fs', fs'[i].parent);
      }
    }
    forall i | i in fs' ensures ParentOk(fs', i) {
      assert ParentOk(fs, i);
    }
  }

  lemma PlacedDirs(fs: Fs, fs': Fs, x: nat, d: nat, e: Entry)
    requires Placed(fs, fs', x, d, e) && DirsOk(fs) && DirOk(fs'[d].data)
    ensures DirsOk(fs')
  {
    hide DirOk, Listing;
    forall c | IsDir(fs', c) ensures DirOk(fs'[c].data) {
      assert IsDir(fs, c);
    }
  }

  /** A loose inode gets a name in a directory it does not contain. */
  lemma PlaceKeeps(fs: Fs, x: u32, d: u32, name: seq<byte>, now: u64)
    requires Shape(fs, x) && x != 0 && IsDir(fs, d) && ValidName(name) && Outside(fs, d, x)
    requires forall e :: e in Listing(fs, d) ==> e.name != name
    ensures |name| <= NAME_MAX
    ensures Shape(SetParent(Insert(fs, d, Entry(x, fs[x].kind, name), now), x, d), 0)
  {
    hide Distinct, Entries, PutEntry, Used, ValidName, NamedOk, RootedOk, ParentsOk;
    var added := Entry(x, fs[x].kind, name);
    NameBound(name);
    var fs' := SetParent(Insert(fs, d, added, now), x, d);
    assert Up(fs, d, 0) == d != x;
    assert DirOk(fs[d].data);
    forall e | e in Listing(fs, d) ensures e.ino != x {
      assert EntryOk(fs, d, e, x);
    }
    SlotBound(fs, x, d);
    ListingInsert(fs, d, added, now);
    assert Placed(fs, fs', x, d, added);
    PlacedRooted(fs, fs', x, d, added);
    PlacedEntries(fs, fs', x, d, added);
    PlacedDirs(fs, fs', x, d, added);
  }

  // ------------------------------------------------------- size of directories

  lemma {:induction false} BoundedSet(s: set<int>, m: nat)
    requires forall x :: x in s ==> 1 <= x <= m
    ensures |s| <= m
  {
    if m == 0 {
      assert forall x: int :: x !in s;
      assert s == {};
    } else {
      BoundedSet(s - {m}, m - 1);
    }
  }

  ghost function Inos(es: seq<Entry>, n: nat): set<int>
    requires n <= |es|
  {
    set i | 0 <= i < n :: es[i].ino as int
  }

  lemma {:induction false} DistinctCount(es: seq<Entry>, n: nat)
    requires n <= |es| && Distinct(es) && forall i :: 0 <= i < n ==> es[i].ino != 0
    ensures |Inos(es, n)| == n
  {
    if n > 0 {
      DistinctCount(es, n - 1);
      assert Inos(es, n) == Inos(es, n - 1) + {es[n - 1].ino as int};
      assert es[n - 1].ino !in Inos(es, n - 1);
    }
  }

  /** A directory never has more slots in use than there are inodes. */
  lemma SlotBound(fs: Fs, loose: nat, d: nat)
    requires Shape(fs, loose) && IsDir(fs, d)
    ensures FreeSlot(Entries(fs[d].data)) <= MAX_INODES
  {
    hide Entries, Used, ParentsOk, NamedOk, RootedOk, ValidName;
    var es := Entries(fs[d].data);
    var n := FreeSlot(es);
    assert DirOk(fs[d].data);
    forall i | 0 <= i < n ensures es[i].ino != 0 && 1 <= es[i].ino <= MAX_INODES {
      UsedAt(es, i);
      assert EntryOk(fs, d, es[i], loose);
    }
    DistinctCount(es, n);
    BoundedSet(Inos(es, n), MAX_INODES);
  }

  lemma DirData(fs: Fs, loose: nat, d: nat)
    requires Shape(fs, loose) && IsDir(fs, d)
    ensures |fs[d].data| % DIR_ENTRY == 0 && |Entries(fs[d].data)| <= MAX_INODES + 1 && 1 <= d <= MAX_INODES
  {
    hide Entries, ParentsOk, NamedOk, RootedOk, EntriesOk;
    assert DirOk(fs[d].data);
  }

  /** A volume that holds only its root directory. */
  lemma RootShape(fs: Fs, mode: u16, now: u64)
    requires fs == map[ROOT_INO as nat := Meta(KIND_DIRECTORY, false, mode, ROOT_INO, now, [])]
    ensures Shape(fs, 0)
  {
    EntriesEmpty();
    assert Up(fs, ROOT_INO, 0) == ROOT_INO;
  }
}
