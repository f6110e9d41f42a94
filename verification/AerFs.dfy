/** The filesystem object: allocation, transactions, trees, inodes, directories. */
module AerFsModel {
  import opened Arithmetic
  import opened Options
  import opened LittleEndian
  import opened AerLayout
  import opened AerBytes
  import opened AerTree
  import opened AerOwnership
  import opened FileBytes
  import opened AerForest
  import opened AerDevice
  import opened AerCheck
  import opened AerCrash
  import opened AerDirs
  import opened AerNames
  import opened AerCalls
  import opened AerEffects
  import opened AerView
  import opened AerSlots

  /** The `step`-th block an allocation tries, wrapping around past the superblocks. */
  function Probe(from: nat, step: nat, span: nat): (b: nat)
    requires span > 0
    ensures 2 <= b < 2 + span
  {
    2 + (from + step) % span
  }

  /** The first block not in the set, from `hint` on and around past the superblocks. */
  ghost predicate FirstFree(hint: nat, blocks: nat, busy: set<nat>, b: nat) {
    && blocks > 2 && b !in busy
    && var start := if hint > 2 then 2 + (hint - 2) % (blocks - 2) else 2;
       if b >= start then forall c :: start <= c < b ==> c in busy
       else (forall c :: start <= c < blocks ==> c in busy) && (forall c :: 2 <= c < b ==> c in busy)
  }

  lemma ProbeIs(from: nat, step: nat, span: nat)
    requires step < span
    ensures var at := from % span + step; Probe(from, step, span) == 2 + if at < span then at else at - span
  {
    var r, q := from % span, from / span;
    assert from == q * span + r;
    if r + step < span {
      DivExact(q, span, r + step);
    } else {
      assert from + step == (q + 1) * span + (r + step - span);
      DivExact(q + 1, span, r + step - span);
    }
  }

  /** What the probes before have passed over. */
  lemma FirstFreeIs(hint: nat, blocks: nat, busy: set<nat>, from: nat, span: nat, step: nat)
    requires step < span == blocks - 2 && from == if hint > 2 then hint - 2 else 0
    requires Probe(from, step, span) !in busy && forall s :: 0 <= s < step ==> Probe(from, s, span) in busy
    ensures FirstFree(hint, blocks, busy, Probe(from, step, span))
  {
    hide Probe;
    var b, r := Probe(from, step, span), from % span;
    var start := 2 + r;
    ProbeIs(from, step, span);
    forall c | start <= c < blocks && (b < start || c < b) ensures c in busy {
      ProbeIs(from, c - start, span);
      assert Probe(from, c - start, span) == c;
    }
    forall c | 2 <= c < b && b < start ensures c in busy {
      var s := c - 2 + span - r;
      ProbeIs(from, s, span);
      assert Probe(from, s, span) == c;
    }
    if hint <= 2 {
      FromZero(span);
    }
  }

  lemma FromZero(span: nat)
    requires span > 0
    ensures 0 % span == 0
  {
  }

  lemma RotationCovers(h: nat, span: nat, x: nat) returns (step: nat)
    requires x < span
    ensures step < span && Probe(h, step, span) == 2 + x
  {
    var r := h % span;
    step := if x >= r then x - r else x + span - r;
    var q := h / span;
    assert h == q * span + r;
    if x >= r {
      assert h + step == q * span + x;
      DivExact(q, span, x);
    } else {
      assert h + step == (q + 1) * span + x;
      DivExact(q + 1, span, x);
    }
  }

  function WithoutValue<T>(r: Result<T>): Result<()> {
    match r
    case Ok(_) => Ok(())
    case Err(e) => Err(e)
  }

  /** A superblock and the volume it stands for. */
  datatype Volume = Volume(sb: Super, files: map<nat, File>)

  ghost predicate WellFormed(v: Volume) {
    TABLE in v.files && Shape(View(v.files), 0)
  }

  /** One call of a run: done as specified, or refused with nothing changed, or in doubt. */
  ghost predicate Step(c: Call, r: Result<()>, v: Volume, v': Volume, doubt: bool) {
    && TABLE in v.files && TABLE in v'.files
    && var spec := Spec(View(v.files), c);
       && (r.Ok? || doubt ==>
             spec.Ok? && View(v'.files) == spec.value.fs && Effect(View(v.files), c, View(v'.files), spec.value.ino))
       && (r.Err? && !doubt ==> v' == v && (r.error in {Io, NoSpace} || Refused(View(v.files), c, r.error)))
       && (doubt ==> r == Err(Io))
  }

  /** A power cut in any state from `lo` to `hi` leaves one of two volumes. */
  ghost predicate Covered(crc: Crc, log: seq<Snapshot>, lo: nat, hi: nat, v: Volume, v': Volume) {
    && lo <= hi <= |log|
    && forall i :: lo <= i < hi ==> SurvivesEither(crc, log[i], v.sb, v.files, v'.sb, v'.files)
  }

  lemma CoveredLater(crc: Crc, log: seq<Snapshot>, lo: nat, hi: nat, v: Volume, v': Volume, log': seq<Snapshot>)
    requires Covered(crc, log, lo, hi, v, v') && log <= log'
    ensures Covered(crc, log', lo, hi, v, v')
  {
    hide SurvivesEither;
  }

  /** A run so far: what each call did, and what a power cut during it leaves. */
  ghost predicate Chronicle(crc: Crc, calls: seq<Call>, results: seq<Result<()>>, history: seq<Volume>, at: seq<nat>,
                            log: seq<Snapshot>, doubt: bool) {
    && |results| <= |calls| && |history| == |at| == |results| + 1 && at[|results|] == |log|
    && (forall j :: 0 <= j < |results| ==>
          Step(calls[j], results[j], history[j], history[j + 1], doubt && j == |results| - 1))
    && (forall j :: 0 <= j < |results| ==> Covered(crc, log, at[j], at[j + 1], history[j], history[j + 1]))
    && (forall j :: 0 <= j < |history| ==> WellFormed(history[j]))
  }

  lemma ChronicleMore(crc: Crc, calls: seq<Call>, results: seq<Result<()>>, history: seq<Volume>, at: seq<nat>,
                      log: seq<Snapshot>, r: Result<()>, v': Volume, log': seq<Snapshot>, doubt: bool)
    requires Chronicle(crc, calls, results, history, at, log, false) && |results| < |calls| && log <= log'
    requires var n := |results|;
             Step(calls[n], r, history[n], v', doubt) && Covered(crc, log', |log|, |log'|, history[n], v') && WellFormed(v')
    ensures Chronicle(crc, calls, results + [r], history + [v'], at + [|log'|], log', doubt)
  {
    hide Step, Covered, WellFormed;
    forall j | 0 <= j < |results| ensures Covered(crc, log', at[j], at[j + 1], history[j], history[j + 1]) {
      CoveredLater(crc, log, at[j], at[j + 1], history[j], history[j + 1], log');
    }
  }

  /** What a check of the volume finds. */
  datatype Report = Report(files: nat, directories: nat, dataBlocks: nat, treeBlocks: nat, badChecksums: nat,
                           badEntries: nat, doubleReferences: nat, mapMismatches: nat, orphans: nat)
  {
    predicate Damaged() {
      badChecksums + badEntries + doubleReferences + mapMismatches + orphans != 0
    }
  }

  /** The damage a tree can have. */
  function Harm(report: Report): nat {
    report.badChecksums + report.doubleReferences
  }

  function EmptyReport(): Report {
    Report(0, 0, 0, 0, 0, 0, 0, 0, 0)
  }

  function Counted(r: Report): nat {
    r.dataBlocks + r.treeBlocks
  }

  /** A check of trees touches no other part of a report. */
  ghost predicate SameButTrees(a: Report, b: Report) {
    b == a.(dataBlocks := b.dataBlocks, treeBlocks := b.treeBlocks, badChecksums := b.badChecksums,
            doubleReferences := b.doubleReferences)
  }

  /** Children met without harm: intact, apart from what was met before, and counted. */
  ghost predicate KidsMet(crc: Crc, disk: Image, blocks: nat, raw: Block, made: seq<Node>, level: nat,
                          seen: set<nat>, report: Report, seen': set<nat>, report': Report) {
    Harm(report') == Harm(report) ==>
      && KidsIntact(crc, disk, blocks, raw, made, level)
      && KidBlocks(made) !! seen && seen' == seen + KidBlocks(made)
      && Counted(report') - Counted(report) == |seen'| - |seen|
  }

  lemma KidsMetNone(crc: Crc, disk: Image, blocks: nat, raw: Block, level: nat, seen: set<nat>, report: Report)
    ensures KidsMet(crc, disk, blocks, raw, [], level, seen, report, seen, report)
  {
    hide KidsIntact, KidBlocks;
    KidsNone(crc, disk, blocks, raw, level);
  }

  lemma KidsMetFacts(crc: Crc, disk: Image, blocks: nat, raw: Block, made: seq<Node>, level: nat,
                     seen: set<nat>, report: Report, seen': set<nat>, report': Report)
    requires KidsMet(crc, disk, blocks, raw, made, level, seen, report, seen', report') && Harm(report') == Harm(report)
    ensures KidsIntact(crc, disk, blocks, raw, made, level)
    ensures KidBlocks(made) !! seen && seen' == seen + KidBlocks(made)
    ensures Counted(report') - Counted(report) == |seen'| - |seen|
  {
    hide KidsIntact, KidBlocks, Counted;
  }

  lemma KidsMetMore(crc: Crc, disk: Image, blocks: nat, raw: Block, made: seq<Node>, level: nat,
                    seen: set<nat>, report: Report, mid: set<nat>, middle: Report, kid: Node, seen': set<nat>, report': Report)
    requires KidsMet(crc, disk, blocks, raw, made, level, seen, report, mid, middle) && |made| < FANOUT
    requires Harm(report) <= Harm(middle) <= Harm(report')
    requires Harm(report') == Harm(middle) ==>
      && Intact(crc, disk, blocks, GetPtr(raw, |made|), kid, level) && Blocks(kid) !! mid && seen' == mid + Blocks(kid)
      && Counted(report') - Counted(middle) == |seen'| - |mid|
    ensures KidsMet(crc, disk, blocks, raw, made + [kid], level, seen, report, seen', report')
  {
    hide KidsIntact, KidBlocks, Counted, Intact, Blocks, GetPtr, Harm;
    if Harm(report') == Harm(report) {
      MetMore(seen, KidBlocks(made), mid, Blocks(kid), seen');
      KidsMore(crc, disk, blocks, raw, made, level, kid);
    }
  }

  lemma FirstReport(report: Report)
    requires SameButTrees(EmptyReport(), report)
    ensures Harm(EmptyReport()) == 0 && Counted(EmptyReport()) == 0
    ensures report.badEntries == report.mapMismatches == report.orphans == report.files == report.directories == 0
  {
  }

  class AerFs {
    const crc: Crc
    const dev: Device

    var committed: Super
    var working: Super
    /** Blocks of the committed volume, and the two superblocks. */
    var used: set<nat>
    /** Blocks taken in the running transaction. */
    var taken: set<nat>
    /** Committed blocks the running transaction has replaced. */
    var freed: set<nat>
    /** One buffer per tree level; 0 is the data level. */
    var scratch: seq<Block>
    var hint: u32

    /** The committed volume. */
    ghost var base: map<nat, File>
    /** The volume as the running transaction has it. */
    ghost var files: map<nat, File>
    /** The device's log when the current call began. */
    ghost var past: seq<Snapshot>
    /** A superblock sector is in flight though its write or flush failed. Not known to the source; it ends a run. */
    var inDoubt: bool
    /** An allocation since the call began found every block in use. */
    ghost var full: bool
    /** There is no committed volume yet: the device is being formatted. */
    ghost var blank: bool
    /** The superblock and the volume the last commit set out to make current. */
    ghost var tried: Super
    ghost var triedFiles: map<nat, File>

    /** An object that holds a device but no volume yet. */
    constructor (device: Device, checksum: Crc)
      ensures dev == device && crc == checksum && |scratch| == 4
    {
      dev := device;
      crc := checksum;
      committed := Super(0, 0, EMPTY_TREE, Zeros(16));
      working := Super(0, 0, EMPTY_TREE, Zeros(16));
      used, taken, freed := {}, {}, {};
      scratch := [ZERO_BLOCK, ZERO_BLOCK, ZERO_BLOCK, ZERO_BLOCK];
      hint, inDoubt := 2, false;
    }

    ghost function Live(): set<nat>
      reads `used, `taken, `freed
    {
      (used + taken) - freed - {0, 1}
    }

    ghost predicate SetsOk()
      reads `working, `scratch, `used, `taken, `freed
    {
      && working.blocks <= MAX_BLOCKS
      && |scratch| == 4
      && {0, 1} <= used
      && (forall b :: b in used ==> b < working.blocks)
      && (forall b :: b in taken ==> 2 <= b < working.blocks)
      && taken !! used
      && freed <= used - {0, 1}
    }

    /** Everything that holds throughout a transaction, even once it has failed. */
    ghost predicate Steady()
      reads `working, `committed, `scratch, `used, `taken, `freed, `past, `base, `blank, dev
    {
      && SetsOk()
      && dev.Valid()
      && 16 <= working.blocks == committed.blocks <= dev.blocks
      && |committed.volumeLabel| == 16 && working.volumeLabel == committed.volumeLabel
      && Secured(blank, crc, dev.view, dev.Now(), dev.log, past, used, committed, base)
    }

    lemma SteadyParts()
      requires Steady()
      ensures SetsOk() && |scratch| == 4 && dev.Valid() && working.blocks <= dev.blocks
    {
      hide Secured;
    }

    lemma LiveBounds(b: nat)
      requires SetsOk() && b in Live()
      ensures 2 <= b < working.blocks && b in used + taken
    {
    }

    /** Tree `n` is stored and its blocks are in use. */
    ghost predicate Holds(n: Node, level: nat)
      reads `used, `taken, `freed, dev
    {
      Sound(crc, n, level) && Stored(dev.view, n) && Blocks(n) <= Live()
    }

    // ------------------------------------------------------------ allocation

    method Alloc() returns (r: Result<u32>)
      requires SetsOk()
      modifies this`taken, this`full, this`hint
      ensures SetsOk()
      ensures r.Ok? ==> 2 <= r.value < working.blocks && r.value !in used && r.value !in old(taken)
      ensures r.Ok? ==> taken == old(taken) + {r.value as nat} && hint == r.value + 1
      ensures r.Ok? ==> FirstFree(old(hint), working.blocks, used + old(taken), r.value)
      ensures r.Err? ==> r.error == NoSpace && taken == old(taken) && full
      ensures r.Err? ==> forall b :: 2 <= b < working.blocks ==> b in used || b in taken
    {
      hide FirstFree, Probe;
      var total := working.blocks;
      if total <= 2 {
        full := true;
        return Err(NoSpace);
      }
      var span := total - 2;
      var from := if hint > 2 then hint - 2 else 0;
      for step := 0 to span
        invariant taken == old(taken) && hint == old(hint)
        invariant forall s :: 0 <= s < step ==> Probe(from, s, span) in used || Probe(from, s, span) in taken
      {
        var candidate := Probe(from, step, span);
        if candidate !in used && candidate !in taken {
          FirstFreeIs(hint, total, used + taken, from, span, step);
          taken := taken + {candidate};
          hint := candidate + 1;
          return Ok(candidate);
        }
      }
      forall b | 2 <= b < working.blocks ensures b in used || b in taken {
        var s := RotationCovers(from, span, b - 2);
      }
      full := true;
      return Err(NoSpace);
    }

    method Release(block: u32)
      requires SetsOk()
      requires block != 0 ==> block in Live()
      modifies this`taken, this`freed
      ensures SetsOk()
      ensures Live() == old(Live()) - {block as nat}
      ensures taken <= old(taken) && old(freed) <= freed
      ensures old(Steady()) ==> Steady()
    {
      if block == 0 {
        return;
      }
      if block in taken {
        taken := taken - {block};
      } else if block in used {
        freed := freed + {block};
      }
    }

    // ------------------------------------------------------------- block I/O

    method ReadChecked(ptr: Ptr, level: nat) returns (r: Result<()>)
      requires SetsOk() && dev.Valid() && working.blocks <= dev.blocks && level < 4
      modifies this`scratch
      ensures SetsOk() && |scratch| == 4
      ensures forall l :: 0 <= l < 4 && l != level ==> scratch[l] == old(scratch[l])
      ensures r.Ok? ==> 2 <= ptr.block < working.blocks && scratch[level] == dev.view[ptr.block]
      ensures r.Ok? ==> crc(dev.view[ptr.block]) == ptr.crc
      ensures r.Err? ==> r.error == Io || r.error == Corrupt
      ensures r == Err(Io) ==> !dev.reliable
      ensures r == Err(Corrupt) ==>
        !(2 <= ptr.block < working.blocks) || crc(dev.view[ptr.block]) != ptr.crc
      ensures old(Steady()) ==> Steady()
    {
      hide Secured;
      if ptr.block < 2 || ptr.block >= working.blocks {
        return Err(Corrupt);
      }
      var ok, data := dev.ReadBlock(ptr.block);
      scratch := scratch[level := data];
      if !ok {
        return Err(Io);
      }
      if crc(scratch[level]) != ptr.crc {
        return Err(Corrupt);
      }
      return Ok(());
    }

    /** Writes a scratch block to a newly allocated place. */
    method WriteNew(level: nat) returns (r: Result<Ptr>)
      requires Steady() && level < 4
      modifies this`taken, this`full, this`hint, dev
      ensures Steady()
      ensures r.Ok? ==> r.value.block !in old(used + taken) && 2 <= r.value.block < working.blocks
      ensures r.Ok? ==> taken == old(taken) + {r.value.block as nat}
      ensures r.Ok? ==> r.value.block < |dev.view| && dev.view[r.value.block] == scratch[level]
      ensures r.Ok? ==> r.value.crc == crc(scratch[level])
      ensures Kept(old(dev.view), dev.view, old(used + taken))
      ensures r.Err? ==> r.error == NoSpace || r.error == Io
      ensures r == Err(Io) ==> !dev.reliable
      ensures r == Err(NoSpace) ==> full
    {
      hide Secured, Guarded;
      var a := Alloc();
      if a.Err? {
        return Err(a.error);
      }
      ghost var view, now, log := dev.view, dev.Now(), dev.log;
      var ok := dev.WriteBlock(a.value, scratch[level]);
      SecuredWrite(blank, crc, view, now, log, past, used, committed, base, dev.view, BlockWrite(a.value, scratch[level]));
      if !ok {
        return Err(Io);
      }
      return Ok(Ptr(a.value, crc(scratch[level])));
    }

    // ----------------------------------------------------------------- trees

    ghost predicate Readable(n: Node, level: nat)
      reads this, dev
    {
      Sound(crc, n, level) && Stored(dev.view, n) && forall b :: b in Blocks(n) ==> 2 <= b < working.blocks
    }

    /**
     The pointer to data block `index`, with the leaf it leads to. Here and in the
     reads below, `good` says that the tree on the device is intact; a damaged one
     is reported as such or read as it is.
     */
    method LeafPointer(tree: Tree, index: nat, ghost good: bool, ghost n: Node)
      returns (r: Result<Ptr>, ghost leaf: Node)
      requires SetsOk() && dev.Valid() && working.blocks <= dev.blocks && tree.height <= MAX_HEIGHT
      requires good ==> Points(tree.root, n) && Readable(n, tree.height)
      modifies this`scratch
      ensures |scratch| == 4 && scratch[0] == old(scratch[0])
      ensures r.Err? ==> r.error == Io || (r.error == Corrupt && !good)
      ensures r == Err(Io) ==> !dev.reliable
      ensures good && r.Ok? ==> Points(r.value, leaf) && Readable(leaf, 0)
      ensures good && r.Ok? && index >= Cap(tree.height) ==> leaf == Hole
      ensures good && r.Ok? && index < Cap(tree.height) ==> At(leaf, 0, 0) == At(n, tree.height, index)
    {
      hide Steady, Sound, Stored, At, Blocks, Points, GetPtr;
      leaf := Hole;
      HoleFacts(crc, dev.view);
      if index >= Cap(tree.height) {
        return Ok(NULL), leaf;
      }
      var ptr := tree.root;
      var level: nat := tree.height;
      leaf := n;
      ModSmall(index, Cap(level));
      while level > 0
        invariant 0 <= level <= MAX_HEIGHT && |scratch| == 4 && scratch[0] == old(scratch[0])
        invariant good ==> Points(ptr, leaf) && Readable(leaf, level)
        invariant good ==> At(leaf, level, index % Cap(level)) == At(n, tree.height, index)
      {
        if good {
          NodeFacts(crc, dev.view, leaf, level, ptr);
        }
        if ptr.block == 0 {
          HoleAt(level, index % Cap(level));
          HoleAt(0, 0);
          leaf := Hole;
          return Ok(NULL), leaf;
        }
        var read := ReadChecked(ptr, level);
        if read.Err? {
          return Err(read.error), leaf;
        }
        var digit := index / Cap(level - 1) % FANOUT;
        ptr := GetPtr(scratch[level], digit);
        if good {
          Descend(crc, dev.view, leaf, level, index);
          leaf := leaf.kids[digit];
        }
        level := level - 1;
      }
      return Ok(ptr), leaf;
    }

    /** The part of a read that lies in one data block. */
    method ReadPiece(tree: Tree, position: nat, take: nat, ghost good: bool, ghost f: File)
      returns (r: Result<seq<byte>>)
      requires SetsOk() && dev.Valid() && working.blocks <= dev.blocks && tree.height <= MAX_HEIGHT
      requires good ==> f.tree == tree && Points(tree.root, f.node) && Readable(f.node, tree.height)
      requires position % BLOCK + take <= BLOCK && position + take <= tree.size
      modifies this`scratch
      ensures |scratch| == 4
      ensures r.Err? ==> r.error == Io || (r.error == Corrupt && !good)
      ensures r == Err(Io) ==> !dev.reliable
      ensures r.Ok? ==> |r.value| == take
      ensures good && r.Ok? ==> r.value == Content(f)[position..position + take]
    {
      hide Sound, Stored, At, Blocks, Content, ZeroPast, Points, Cap;
      var index := position / BLOCK;
      var within := position % BLOCK;
      var found;
      ghost var leaf;
      found, leaf := LeafPointer(tree, index, good, f.node);
      if found.Err? {
        return Err(found.error);
      }
      var ptr := found.value;
      HoleAt(0, 0);
      if good {
        PieceOfContent(f, index, within, take, At(leaf, 0, 0));
        LeafFacts(crc, dev.view, leaf, ptr);
      }
      if ptr.block == 0 {
        assert good ==> Zeros(take) == At(leaf, 0, 0)[within..within + take];
        return Ok(Zeros(take));
      }
      var read := ReadChecked(ptr, 0);
      if read.Err? {
        return Err(read.error);
      }
      return Ok(scratch[0][within..within + take]);
    }

    /** Reads up to `|out|` bytes into the front of the buffer `out`. */
    method TreeRead(tree: Tree, offset: nat, out: seq<byte>, ghost good: bool, ghost f: File)
      returns (r: Result<nat>, filled: seq<byte>)
      requires SetsOk() && dev.Valid() && working.blocks <= dev.blocks && tree.height <= MAX_HEIGHT
      requires good ==> f.tree == tree && Points(tree.root, f.node) && Readable(f.node, tree.height)
      modifies this`scratch
      ensures SetsOk() && |scratch| == 4 && |filled| == |out|
      ensures r.Err? ==> r.error == Io || (r.error == Corrupt && !good)
      ensures r == Err(Io) ==> !dev.reliable
      ensures r.Ok? ==> r.value <= |out|
      ensures good && r.Ok? ==> r.value == |Slice(Content(f), offset, |out|)|
      ensures good && r.Ok? ==> filled == Slice(Content(f), offset, |out|) + out[r.value..]
    {
      hide Content, FileOk, Sound, Stored, Blocks, Filled, Slice;
      SliceBeyond(Content(f), offset, |out|);
      filled := out;
      if offset >= tree.size {
        return Ok(0), filled;
      }
      var count := if |out| <= tree.size - offset then |out| else tree.size - offset;
      var done := 0;
      if good {
        FilledStart(Content(f), offset, out);
      }
      while done < count
        invariant 0 <= done <= count && |scratch| == 4 && |filled| == |out|
        invariant good ==> Filled(Content(f), offset, done, out, filled)
      {
        var within := (offset + done) % BLOCK;
        var take := if BLOCK - within <= count - done then BLOCK - within else count - done;
        var piece := ReadPiece(tree, offset + done, take, good, f);
        if piece.Err? {
          return Err(piece.error), filled;
        }
        if good {
          FillStep(Content(f), offset, done, take, out, filled, piece.value);
        }
        filled := filled[..done] + piece.value + filled[done + take..];
        done := done + take;
      }
      if good {
        FilledAll(Content(f), offset, count, out, filled);
      }
      return Ok(count), filled;
    }

    method FreeSubtree(ptr: Ptr, level: nat, ghost n: Node) returns (r: Result<()>)
      requires Steady() && level <= MAX_HEIGHT && Points(ptr, n) && Holds(n, level)
      modifies this`scratch, this`taken, this`full, this`freed
      ensures Steady()
      ensures forall l :: level < l < 4 ==> scratch[l] == old(scratch[l])
      ensures r.Err? ==> r.error == Io
      ensures r == Err(Io) ==> !dev.reliable
      ensures r.Ok? ==> Live() == old(Live()) - Blocks(n)
      decreases level
    {
      hide Steady, Secured, Guarded, Device.Valid, Sound, Stored, Blocks, KidBlocks, GetPtr, Points, SetsOk, Live;
      SteadyParts();
      NodeFacts(crc, dev.view, n, level, ptr);
      if ptr.block == 0 {
        return Ok(());
      }
      LiveBounds(ptr.block);
      if level > 0 {
        var read := ReadChecked(ptr, level);
        if read.Err? {
          return Err(read.error);
        }
        ghost var kids := n.kids;
        assert KidBlocks(kids[..0]) == {} by { NoKids(kids[..0]); }
        for child := 0 to FANOUT
          invariant Steady() && |scratch| == 4 && scratch[level] == n.raw
          invariant forall l :: level < l < 4 ==> scratch[l] == old(scratch[l])
          invariant Live() == old(Live()) - KidBlocks(kids[..child])
        {
          KidFacts(crc, dev.view, n, level, child);
          NodeFacts(crc, dev.view, kids[child], level - 1, GetPtr(n.raw, child));
          var pointer := GetPtr(scratch[level], child);
          if pointer.block != 0 {
            var done := FreeSubtree(pointer, level - 1, kids[child]);
            if done.Err? {
              return done;
            }
            SteadyParts();
          }
        }
        assert kids[..FANOUT] == kids;
        SteadyParts();
      }
      Release(ptr.block);
      return Ok(());
    }

    /** Puts a new root above a tree. */
    method AddRoot(tree: Tree, ghost n: Node) returns (r: Result<Ptr>, ghost m: Node)
      requires Steady() && tree.height < MAX_HEIGHT && Points(tree.root, n) && Holds(n, tree.height) && !n.Hole?
      modifies this`scratch, this`taken, this`full, this`hint, dev
      ensures Steady()
      ensures r.Err? ==> r.error in {NoSpace, Io}
      ensures r == Err(Io) ==> !dev.reliable
      ensures r == Err(NoSpace) ==> full
      ensures r.Ok? ==>
        && Points(r.value, m) && Sound(crc, m, tree.height + 1)
        && Exchanged(old(dev.view), old(Live()), n, dev.view, Live(), m)
        && SameBytes(n, tree.height, m, tree.height + 1)
    {
      hide Secured, Guarded, Device.Valid, Sound, Stored, Blocks, KidBlocks, GetPtr, PutPtr, SameBytes, Exchanged;
      m := n;
      var level := tree.height + 1;
      scratch := scratch[level := PutPtr(ZERO_BLOCK, 0, tree.root)];
      var root := WriteNew(level);
      if root.Err? {
        return Err(root.error), m;
      }
      m := Inner(root.value, scratch[level], Holes()[0 := n]);
      RootAdded(crc, old(dev.view), old(Live()), n, tree.height, tree.root, m, dev.view, Live());
      GrownSame(n, m, tree.height);
      return Ok(root.value), m;
    }

    /** Raises the tree until it has room for `blocks` data blocks. */
    method Grow(tree: Tree, blocks: nat, ghost n: Node) returns (r: Result<Tree>, ghost n': Node)
      requires Steady() && tree.height <= MAX_HEIGHT && Points(tree.root, n) && Holds(n, tree.height)
      modifies this`scratch, this`taken, this`full, this`hint, dev
      ensures Steady()
      ensures r.Err? ==> r.error in {TooBig, NoSpace, Io}
      ensures r == Err(Io) ==> !dev.reliable
      ensures r == Err(NoSpace) ==> full
      ensures r == Err(TooBig) ==> blocks > Cap(MAX_HEIGHT)
      ensures r.Ok? ==>
        && blocks <= Cap(r.value.height) && tree.height <= r.value.height <= MAX_HEIGHT
        && r.value.size == tree.size
        && Points(r.value.root, n') && Sound(crc, n', r.value.height)
        && Exchanged(old(dev.view), old(Live()), n, dev.view, Live(), n')
        && SameBytes(n, tree.height, n', r.value.height)
    {
      hide Secured, Guarded, Device.Valid, Sound, Stored, Blocks, SameBytes, Exchanged, Cap;
      var t := tree;
      n' := n;
      ExchangedSelf(dev.view, Live(), n);
      SameBytesSelf(n, tree.height);
      while Cap(t.height) < blocks
        invariant Steady() && t.size == tree.size && tree.height <= t.height <= MAX_HEIGHT
        invariant Points(t.root, n') && Sound(crc, n', t.height)
        invariant Exchanged(old(dev.view), old(Live()), n, dev.view, Live(), n')
        invariant SameBytes(n, tree.height, n', t.height)
        decreases MAX_HEIGHT - t.height
      {
        if t.height == MAX_HEIGHT {
          return Err(TooBig), n';
        }
        ExchangedFacts(old(dev.view), old(Live()), n, dev.view, Live(), n');
        NodeFacts(crc, dev.view, n', t.height, t.root);
        ghost var view, live, m := dev.view, Live(), n';
        if t.root.block != 0 {
          var root;
          root, m := AddRoot(t, n');
          if root.Err? {
            return Err(root.error), n';
          }
          ExchangedTrans(old(dev.view), old(Live()), n, view, live, n', dev.view, Live(), m);
          t := t.(root := root.value);
        } else {
          SoundHole(crc, t.height + 1);
          HoleSame(t.height, t.height + 1);
        }
        SameBytesTrans(n, tree.height, n', t.height, m, t.height + 1);
        n' := m;
        t := t.(height := t.height + 1);
      }
      return Ok(t), n';
    }

    /** Writes the edited data block in scratch and gives back the one it replaces. */
    method ReplaceLeaf(ptr: Ptr, ghost n: Node, ghost e: Edit, ghost first: nat)
      returns (r: Result<Ptr>, ghost n': Node)
      requires Steady() && Points(ptr, n) && Holds(n, 0)
      requires scratch[0] == EditBlock(e, first, At(n, 0, 0))
      modifies this`taken, this`full, this`freed, this`hint, dev
      ensures Steady()
      ensures r.Err? ==> r.error in {NoSpace, Io}
      ensures r == Err(Io) ==> !dev.reliable
      ensures r == Err(NoSpace) ==> full
      ensures r.Ok? ==>
        && r.value.block !in old(used + taken)
        && n'.Leaf? && Points(r.value, n') && Sound(crc, n', 0)
        && Exchanged(old(dev.view), old(Live()), n, dev.view, Live(), n')
        && Edited(e, n, n', 0, first)
    {
      hide Secured, Guarded, Device.Valid, Sound, Stored, Blocks, Exchanged, Edited, EditBlock, At;
      n' := n;
      NodeFacts(crc, dev.view, n, 0, ptr);
      var block := WriteNew(0);
      if block.Err? {
        return Err(block.error), n';
      }
      Release(ptr.block);
      n' := Leaf(block.value, scratch[0]);
      LeafDone(crc, old(dev.view), old(Live()), n, block.value, scratch[0], dev.view, Live());
      LeafEdited(e, n, block.value, first);
      return block, n';
    }

    /** Brings a data block into scratch, unless all of it is written anyway; a missing one is zeros. */
    method LoadLeaf(ptr: Ptr, covers: bool, ghost n: Node) returns (r: Result<()>)
      requires Steady() && Points(ptr, n) && Holds(n, 0)
      modifies this`scratch
      ensures Steady() && SetsOk()
      ensures forall l :: 0 < l < 4 ==> scratch[l] == old(scratch[l])
      ensures r.Err? ==> r.error == Io
      ensures r == Err(Io) ==> !dev.reliable
      ensures r.Ok? && !covers ==> scratch[0] == At(n, 0, 0)
    {
      hide Secured, Guarded, Device.Valid, Sound, Stored, Blocks;
      NodeFacts(crc, dev.view, n, 0, ptr);
      if !covers {
        if ptr.block != 0 {
          r := ReadChecked(ptr, 0);
          return;
        }
        scratch := scratch[0 := ZERO_BLOCK];
      }
      return Ok(());
    }

    /** Rewrites one data block with the part of `data` that falls into it. */
    method WriteLeaf(ptr: Ptr, first: nat, data: seq<byte>, dataStart: nat, ghost n: Node)
      returns (r: Result<Ptr>, ghost n': Node)
      requires Steady() && Points(ptr, n) && Holds(n, 0)
      requires dataStart < first * BLOCK + BLOCK && first * BLOCK < dataStart + |data|
      modifies this`scratch, this`taken, this`full, this`freed, this`hint, dev
      ensures Steady()
      ensures forall l :: 0 < l < 4 ==> scratch[l] == old(scratch[l])
      ensures r.Err? ==> r.error in {NoSpace, Io}
      ensures r == Err(Io) ==> !dev.reliable
      ensures r == Err(NoSpace) ==> full
      ensures r.Ok? ==>
        && Points(r.value, n') && Sound(crc, n', 0)
        && Exchanged(old(dev.view), old(Live()), n, dev.view, Live(), n')
        && Edited(Overlay(data, dataStart), n, n', 0, first)
    {
      hide Secured, Guarded, Device.Valid, Sound, Stored, Blocks, Exchanged, EditBlock, Edited, Splice, Holds, Points,
        At, Live;
      ghost var e := Overlay(data, dataStart);
      n' := n;
      var blockStart := first * BLOCK;
      var from := if dataStart >= blockStart then dataStart else blockStart;
      var to := if dataStart + |data| <= blockStart + BLOCK then dataStart + |data| else blockStart + BLOCK;
      var covers := from == blockStart && to == blockStart + BLOCK;
      var read := LoadLeaf(ptr, covers, n);
      if read.Err? {
        return Err(read.error), n';
      }
      if covers {
        OverlayCovers(e, first, scratch[0], At(n, 0, 0));
      }
      OverlayBlock(e, first, scratch[0], from, to);
      scratch := scratch[0 := Splice(scratch[0], from - blockStart, data[from - dataStart..to - dataStart])];
      r, n' := ReplaceLeaf(ptr, n, e, first);
    }

    /** Brings a pointer node into its scratch block; a missing one is all null pointers. */
    method LoadNode(ptr: Ptr, level: nat, ghost n: Node) returns (r: Result<()>)
      requires Steady() && 0 < level <= MAX_HEIGHT && Points(ptr, n) && Holds(n, level)
      modifies this`scratch
      ensures |scratch| == 4
      ensures Steady()
      ensures forall l :: 0 <= l < 4 && l != level ==> scratch[l] == old(scratch[l])
      ensures r.Err? ==> r.error == Io
      ensures r == Err(Io) ==> !dev.reliable
      ensures r.Ok? ==> scratch[level] == if n.Inner? then n.raw else ZERO_BLOCK
      ensures n.Inner? <==> ptr.block != 0
      ensures !n.Leaf?
    {
      hide Secured, Guarded, Device.Valid, Sound, Stored, Blocks, KidBlocks;
      NodeFacts(crc, dev.view, n, level, ptr);
      if ptr.block != 0 {
        r := ReadChecked(ptr, level);
      } else {
        scratch := scratch[level := ZERO_BLOCK];
        r := Ok(());
      }
    }

    /** Writes a node whose children are all done and gives back the one it replaces. */
    method FinishNode(ptr: Ptr, level: nat, ghost n: Node, ghost e: Edit, ghost d0: Image, ghost live0: set<nat>,
                      ghost kids: seq<Node>, ghost first: nat)
      returns (r: Result<Ptr>, ghost n': Node)
      requires Steady() && 0 < level <= MAX_HEIGHT && Points(ptr, n)
      requires Sound(crc, n, level) && Blocks(n) <= live0 && (n.Inner? <==> ptr.block != 0)
      requires Building(crc, e, d0, live0, Kids(n), dev.view, Live(), kids, scratch[level], level - 1, first, FANOUT)
      modifies this`taken, this`full, this`freed, this`hint, dev
      ensures Steady()
      ensures r.Err? ==> r.error in {NoSpace, Io}
      ensures r == Err(Io) ==> !dev.reliable
      ensures r == Err(NoSpace) ==> full
      ensures r.Ok? ==>
        && r.value.block !in old(used + taken) && r.value.block >= 2
        && n'.Inner? && n'.kids == kids && n'.raw == scratch[level]
        && Points(r.value, n') && Sound(crc, n', level)
        && Exchanged(d0, live0, n, dev.view, Live(), n')
        && Edited(e, n, n', level, first)
    {
      hide Secured, Guarded, Device.Valid, Sound, Stored, Blocks, Exchanged, Edited, Building, GetPtr;
      n' := n;
      ghost var view, live := dev.view, Live();
      if n.Inner? {
        BuildOwner(crc, e, d0, live0, n, view, live, kids, scratch[level], level, first, FANOUT);
      }
      var block := WriteNew(level);
      if block.Err? {
        return Err(block.error), n';
      }
      Release(ptr.block);
      n' := Inner(block.value, scratch[level], kids);
      BuildDone(crc, e, d0, live0, n, view, live, kids, scratch[level], level, first, block.value, dev.view, Live());
      return block, n';
    }

    /** Rewrites the part of a tree that blocks `lo..hi` of the file lie in, copying every node on the way. */
    method WriteNode(ptr: Ptr, level: nat, first: nat, lo: nat, hi: nat, data: seq<byte>, dataStart: nat, ghost n: Node)
      returns (r: Result<Ptr>, ghost n': Node)
      requires Steady() && level <= MAX_HEIGHT && Points(ptr, n) && Holds(n, level)
      requires Spans(Overlay(data, dataStart), lo, hi)
      requires lo < first + Cap(level) && first < hi
      modifies this`scratch, this`taken, this`full, this`freed, this`hint, dev
      ensures Steady()
      ensures forall l :: level < l < 4 ==> scratch[l] == old(scratch[l])
      ensures r.Err? ==> r.error in {NoSpace, Io}
      ensures r == Err(Io) ==> !dev.reliable
      ensures r == Err(NoSpace) ==> full
      ensures r.Ok? ==>
        && Points(r.value, n') && Sound(crc, n', level)
        && Exchanged(old(dev.view), old(Live()), n, dev.view, Live(), n')
        && Edited(Overlay(data, dataStart), n, n', level, first)
      decreases level
    {
      hide Steady, Secured, Guarded, Device.Valid, Sound, Stored, Blocks, Exchanged, Edited, Building, GetPtr, PutPtr,
        Kids, Spans, ChildFirst, Cap;
      SteadyParts();
      n' := n;
      if level == 0 {
        SpansLeaf(Overlay(data, dataStart), lo, hi, first);
        r, n' := WriteLeaf(ptr, first, data, dataStart, n);
        return;
      }
      ghost var e := Overlay(data, dataStart);
      var loaded := LoadNode(ptr, level, n);
      if loaded.Err? {
        return Err(loaded.error), n';
      }
      SteadyParts();
      ghost var d0, live0, kids0 := old(dev.view), old(Live()), Kids(n);
      ghost var kids := kids0;
      BuildStart(crc, e, d0, live0, n, scratch[level], level, first);
      var span := Cap(level - 1);
      for child := 0 to FANOUT
        invariant Steady() && |scratch| == 4
        invariant forall l :: level < l < 4 ==> scratch[l] == old(scratch[l])
        invariant Building(crc, e, d0, live0, kids0, dev.view, Live(), kids, scratch[level], level - 1, first, child)
      {
        var childFirst := ChildFirst(first, child, level - 1);
        ghost var view, live, raw := dev.view, Live(), scratch[level];
        BuildChild(crc, e, d0, live0, kids0, view, live, kids, raw, level - 1, first, child);
        if childFirst + span <= lo || childFirst >= hi {
          OverlaySkips(e, lo, hi, kids0[child], level - 1, childFirst);
          BuildSkip(crc, e, d0, live0, kids0, view, live, kids, raw, level - 1, first, child);
        } else {
          var before := GetPtr(scratch[level], child);
          var after;
          ghost var m;
          after, m := WriteNode(before, level - 1, childFirst, lo, hi, data, dataStart, kids[child]);
          if after.Err? {
            return Err(after.error), n';
          }
          SteadyParts();
          StorePtr(level, child, after.value);
          BuildStep(crc, e, d0, live0, kids0, view, live, kids, raw, level - 1, first, child,
                    dev.view, Live(), m, after.value, scratch[level]);
          kids := kids[child := m];
        }
      }
      r, n' := FinishNode(ptr, level, n, e, d0, live0, kids, first);
    }

    /** Tree `f` is intact and its blocks are in use. */
    ghost predicate HoldsFile(f: File)
      reads this, dev
    {
      FileOk(crc, f) && Stored(dev.view, f.node) && Blocks(f.node) <= Live()
    }

    method TreeWrite(tree: Tree, offset: nat, data: seq<byte>, ghost f: File)
      returns (r: Result<Tree>, ghost f': File)
      requires Steady() && f.tree == tree && HoldsFile(f)
      requires offset + |data| < 0x1_0000_0000_0000_0000
      modifies this`scratch, this`taken, this`full, this`freed, this`hint, dev
      ensures Steady()
      ensures r.Err? ==> r.error in {TooBig, NoSpace, Io}
      ensures r == Err(Io) ==> !dev.reliable
      ensures r == Err(NoSpace) ==> full
      ensures r == Err(TooBig) ==> data != [] && offset + |data| > Cap(MAX_HEIGHT) * BLOCK
      ensures r.Ok? && data != [] ==> offset + |data| <= Cap(MAX_HEIGHT) * BLOCK
      ensures r.Ok? ==>
        && f'.tree == r.value && FileOk(crc, f')
        && Exchanged(old(dev.view), old(Live()), f.node, dev.view, Live(), f'.node)
        && Content(f') == Overwrite(Content(f), offset, data)
    {
      hide Secured, Guarded, Device.Valid, Sound, Stored, Blocks, Exchanged, Edited, SameBytes, Content, Overwrite,
        ZeroPast;
      f' := f;
      if data == [] {
        ExchangedSelf(dev.view, Live(), f.node);
        OverwriteNothing(Content(f), offset, data);
        return Ok(tree), f';
      }
      var end := offset + |data|;
      var last := (end - 1) / BLOCK;
      var grown;
      ghost var n;
      grown, n := Grow(tree, last + 1, f.node);
      if grown.Err? {
        return Err(grown.error), f';
      }
      var t := grown.value;
      CapMonotone(t.height, MAX_HEIGHT);
      var lo := offset / BLOCK;
      ghost var view, live := dev.view, Live();
      ExchangedFacts(old(dev.view), old(Live()), f.node, view, live, n);
      var root;
      ghost var m;
      root, m := WriteNode(t.root, t.height, 0, lo, last + 1, data, offset, n);
      if root.Err? {
        return Err(root.error), f';
      }
      ExchangedTrans(old(dev.view), old(Live()), f.node, view, live, n, dev.view, Live(), m);
      t := t.(root := root.value, size := if end <= t.size then t.size else end);
      f' := File(t, m);
      WrittenContent(f, n, f', offset, data);
      return Ok(t), f';
    }

    /** Cuts one data block short. */
    method TruncateLeaf(ptr: Ptr, first: nat, keep: nat, newSize: nat, ghost n: Node)
      returns (r: Result<Ptr>, ghost n': Node)
      requires Steady() && Points(ptr, n) && Holds(n, 0) && !n.Hole?
      requires Keeps(keep, newSize) && first < keep
      modifies this`scratch, this`taken, this`full, this`freed, this`hint, dev
      ensures Steady()
      ensures forall l :: 0 < l < 4 ==> scratch[l] == old(scratch[l])
      ensures r.Err? ==> r.error in {NoSpace, Io}
      ensures r == Err(Io) ==> !dev.reliable
      ensures r == Err(NoSpace) ==> full
      ensures r.Ok? ==>
        && n'.Leaf? && Points(r.value, n') && Sound(crc, n', 0)
        && Exchanged(old(dev.view), old(Live()), n, dev.view, Live(), n')
        && Edited(Cut(newSize), n, n', 0, first)
        && (r.value == ptr ==> n' == n)
    {
      hide Secured, Guarded, Device.Valid, Sound, Stored, Blocks, Exchanged, Edited, EditBlock, Splice;
      n' := n;
      NodeFacts(crc, dev.view, n, 0, ptr);
      var blockStart := first * BLOCK;
      if newSize < blockStart + BLOCK {
        var read := ReadChecked(ptr, 0);
        if read.Err? {
          return Err(read.error), n';
        }
        var from := newSize - blockStart;
        CutBlock(Cut(newSize), first, scratch[0]);
        scratch := scratch[0 := Splice(scratch[0], from, Zeros(BLOCK - from))];
        r, n' := ReplaceLeaf(ptr, n, Cut(newSize), first);
        return;
      }
      LeafBeforeCut(newSize, n, first);
      ExchangedSelf(dev.view, Live(), n);
      return Ok(ptr), n';
    }

    /** Drops every block from `keep` on, and the bytes past `newSize` of the last one kept. */
    method TruncateNode(ptr: Ptr, level: nat, first: nat, keep: nat, newSize: nat, ghost n: Node)
      returns (r: Result<Ptr>, ghost n': Node)
      requires Steady() && level <= MAX_HEIGHT && Points(ptr, n) && Holds(n, level)
      requires Keeps(keep, newSize)
      modifies this`scratch, this`taken, this`full, this`freed, this`hint, dev
      ensures |scratch| == 4
      ensures Steady()
      ensures forall l :: level < l < 4 ==> scratch[l] == old(scratch[l])
      ensures r.Err? ==> r.error in {NoSpace, Io}
      ensures r == Err(Io) ==> !dev.reliable
      ensures r == Err(NoSpace) ==> full
      ensures r.Ok? ==>
        && Points(r.value, n') && Sound(crc, n', level)
        && Exchanged(old(dev.view), old(Live()), n, dev.view, Live(), n')
        && Edited(Cut(newSize), n, n', level, first)
        && Trimmed(n', level, first, keep)
        && (r.value == ptr ==> n' == n)
        && (r.value.block == 0 <==> n'.Hole?)
      decreases level, 1
    {
      hide Secured, Guarded, Device.Valid, Sound, Stored, Blocks, Exchanged, Edited, Trimmed, Cap, KidBlocks, Keeps;
      n' := n;
      NodeFacts(crc, dev.view, n, level, ptr);
      if ptr.block == 0 {
        ExchangedSelf(dev.view, Live(), n);
        CutHole(newSize, level, first);
        TrimmedHole(level, first, keep);
        return Ok(NULL), n';
      }
      if first >= keep {
        ghost var live := Live();
        var done := FreeSubtree(ptr, level, n);
        if done.Err? {
          return Err(done.error), n';
        }
        ExchangedFreed(dev.view, live, n, Live());
        CutAll(newSize, keep, n, level, first);
        SoundHole(crc, level);
        TrimmedHole(level, first, keep);
        n' := Hole;
        return Ok(NULL), n';
      }
      if level == 0 {
        r, n' := TruncateLeaf(ptr, first, keep, newSize, n);
        if r.Ok? {
          TrimmedLeaf(n', first, keep);
          ExchangedFacts(old(dev.view), old(Live()), n, dev.view, Live(), n');
          NodeFacts(crc, dev.view, n', 0, r.value);
        }
        return;
      }
      var span := Cap(level);
      var tailInside := newSize % BLOCK != 0 && keep - 1 < first + span;
      if first + span <= keep && !tailInside {
        ExchangedSelf(dev.view, Live(), n);
        CutNothing(newSize, keep, n, level, first);
        TrimmedBefore(crc, n, level, first, keep);
        return Ok(ptr), n';
      }
      r, n' := TruncateKids(ptr, level, first, keep, newSize, n);
    }

    /** Replaces one child pointer in a scratch block. */
    method StorePtr(level: nat, child: nat, ptr: Ptr)
      requires Steady() && level < 4 && child < FANOUT
      modifies this`scratch
      ensures Steady() && |old(scratch)| == 4
      ensures scratch == old(scratch)[level := PutPtr(old(scratch)[level], child, ptr)]
    {
      hide Secured, Guarded, Device.Valid, PutPtr;
      scratch := scratch[level := PutPtr(scratch[level], child, ptr)];
    }

    /** The part of a cut that goes through a node's children. */
    method TruncateKids(ptr: Ptr, level: nat, first: nat, keep: nat, newSize: nat, ghost n: Node)
      returns (r: Result<Ptr>, ghost n': Node)
      requires Steady() && 0 < level <= MAX_HEIGHT && n.Inner? && Points(ptr, n) && Holds(n, level)
      requires Keeps(keep, newSize) && first < keep
      modifies this`scratch, this`taken, this`full, this`freed, this`hint, dev
      ensures Steady()
      ensures forall l :: level < l < 4 ==> scratch[l] == old(scratch[l])
      ensures r.Err? ==> r.error in {NoSpace, Io}
      ensures r == Err(Io) ==> !dev.reliable
      ensures r == Err(NoSpace) ==> full
      ensures r.Ok? ==>
        && Points(r.value, n') && Sound(crc, n', level)
        && Exchanged(old(dev.view), old(Live()), n, dev.view, Live(), n')
        && Edited(Cut(newSize), n, n', level, first)
        && Trimmed(n', level, first, keep)
        && (r.value == ptr ==> n' == n)
        && (r.value.block == 0 <==> n'.Hole?)
      decreases level, 0
    {
      hide Steady, Secured, Guarded, Device.Valid, Sound, Stored, Blocks, Exchanged, Edited, Trimmed, Cap, KidBlocks,
        Keeps, Building, GetPtr, PutPtr, ChildFirst, SetsOk, Live;
      SteadyParts();
      n' := n;
      var loaded := LoadNode(ptr, level, n);
      if loaded.Err? {
        return Err(loaded.error), n';
      }
      SteadyParts();
      ghost var e, d0, live0 := Cut(newSize), old(dev.view), old(Live());
      ghost var kids := n.kids;
      SoundShape(crc, n, level);
      BuildStart(crc, e, d0, live0, n, scratch[level], level, first);
      var changed, remaining := false, false;
      for child := 0 to FANOUT
        invariant Steady() && |scratch| == 4
        invariant forall l :: level < l < 4 ==> scratch[l] == old(scratch[l])
        invariant Building(crc, e, d0, live0, n.kids, dev.view, Live(), kids, scratch[level], level - 1, first, child)
        invariant |kids| == FANOUT
        invariant forall c :: 0 <= c < child ==> Trimmed(kids[c], level - 1, ChildFirst(first, c, level - 1), keep)
        invariant !changed ==> kids == n.kids
        invariant !remaining ==> forall c :: 0 <= c < child ==> kids[c].Hole?
      {
        ghost var view, live, raw := dev.view, Live(), scratch[level];
        BuildChild(crc, e, d0, live0, n.kids, view, live, kids, raw, level - 1, first, child);
        var before := GetPtr(scratch[level], child);
        NodeFacts(crc, view, kids[child], level - 1, before);
        if before.block == 0 {
          CutHole(newSize, level - 1, ChildFirst(first, child, level - 1));
          TrimmedHole(level - 1, ChildFirst(first, child, level - 1), keep);
          BuildSkip(crc, e, d0, live0, n.kids, view, live, kids, raw, level - 1, first, child);
          continue;
        }
        var after;
        ghost var m;
        after, m := TruncateNode(before, level - 1, ChildFirst(first, child, level - 1), keep, newSize, kids[child]);
        if after.Err? {
          return Err(after.error), n';
        }
        SteadyParts();
        if after.value != before {
          StorePtr(level, child, after.value);
          changed := true;
        }
        remaining := remaining || after.value.block != 0;
        BuildStep(crc, e, d0, live0, n.kids, view, live, kids, raw, level - 1, first, child,
                  dev.view, Live(), m, after.value, scratch[level]);
        kids := kids[child := m];
      }
      BuildOwner(crc, e, d0, live0, n, dev.view, Live(), kids, scratch[level], level, first, FANOUT);
      SteadyParts();
      LiveBounds(ptr.block);
      if !remaining {
        ghost var live := Live();
        Release(ptr.block);
        BuildEmpty(crc, e, d0, live0, n, dev.view, live, kids, scratch[level], level, first, Live());
        SoundHole(crc, level);
        n' := Hole;
        TrimmedHole(level, first, keep);
        return Ok(NULL), n';
      }
      if changed {
        r, n' := FinishNode(ptr, level, n, e, d0, live0, kids, first);
        if r.Ok? {
          TrimmedInner(n', level, first, keep);
        }
        return;
      }
      BuildUnchanged(crc, e, d0, live0, n, dev.view, Live(), scratch[level], level, first);
      TrimmedInner(n, level, first, keep);
      return Ok(ptr), n';
    }

    /** Lowers a trimmed tree to the height its remaining blocks need. */
    method Lower(tree: Tree, keep: nat, ghost n: Node) returns (r: Result<Tree>, ghost n': Node)
      requires Steady() && tree.height <= MAX_HEIGHT && Points(tree.root, n) && Holds(n, tree.height)
      requires Trimmed(n, tree.height, 0, keep)
      modifies this`scratch, this`taken, this`freed
      ensures Steady()
      ensures r.Err? ==> r.error == Io
      ensures r == Err(Io) ==> !dev.reliable
      ensures r.Ok? ==>
        && r.value.size == tree.size && r.value.height <= MAX_HEIGHT
        && Points(r.value.root, n') && Sound(crc, n', r.value.height)
        && Exchanged(dev.view, old(Live()), n, dev.view, Live(), n')
        && SameBytes(n, tree.height, n', r.value.height)
    {
      hide Steady, Secured, Guarded, Device.Valid, Sound, Stored, Blocks, Exchanged, Trimmed, SameBytes, Cap, GetPtr,
        KidBlocks, Points, SetsOk, Live;
      var t := tree;
      n' := n;
      ExchangedSelf(dev.view, Live(), n);
      SameBytesSelf(n, tree.height);
      while t.height > 0 && keep <= Cap(t.height - 1)
        invariant Steady() && t.size == tree.size && t.height <= MAX_HEIGHT
        invariant Points(t.root, n') && Sound(crc, n', t.height) && Trimmed(n', t.height, 0, keep)
        invariant Exchanged(dev.view, old(Live()), n, dev.view, Live(), n')
        invariant SameBytes(n, tree.height, n', t.height)
        decreases t.height
      {
        ghost var live := Live();
        ExchangedFacts(dev.view, old(Live()), n, dev.view, live, n');
        NodeFacts(crc, dev.view, n', t.height, t.root);
        if t.root.block == 0 {
          HoleSame(t.height, 0);
          SameBytesTrans(n, tree.height, n', t.height, n', 0);
          SoundHole(crc, 0);
          t := t.(height := 0);
          break;
        }
        SteadyParts();
        LiveBounds(t.root.block);
        var read := ReadChecked(t.root, t.height);
        if read.Err? {
          return Err(read.error), n';
        }
        KidFacts(crc, dev.view, n', t.height, 0);
        TrimmedRoot(n', t.height, keep);
        var child := GetPtr(scratch[t.height], 0);
        Release(t.root.block);
        RootDropped(crc, dev.view, live, n', t.height, Live());
        ExchangedTrans(dev.view, old(Live()), n, dev.view, live, n', dev.view, Live(), n'.kids[0]);
        RootLess(n', t.height);
        SameBytesTrans(n, tree.height, n', t.height, n'.kids[0], t.height - 1);
        n' := n'.kids[0];
        t := t.(root := child, height := t.height - 1);
      }
      ExchangedFacts(dev.view, old(Live()), n, dev.view, Live(), n');
      NodeFacts(crc, dev.view, n', t.height, t.root);
      if t.root.block == 0 {
        HoleSame(t.height, 0);
        SameBytesTrans(n, tree.height, n', t.height, n', 0);
        SoundHole(crc, 0);
        t := t.(height := 0);
      }
      return Ok(t), n';
    }

    method TreeTruncate(tree: Tree, newSize: u64, ghost f: File) returns (r: Result<Tree>, ghost f': File)
      requires Steady() && f.tree == tree && HoldsFile(f)
      modifies this`scratch, this`taken, this`full, this`freed, this`hint, dev
      ensures Steady()
      ensures r.Err? ==> r.error in {NoSpace, Io}
      ensures r == Err(Io) ==> !dev.reliable
      ensures r == Err(NoSpace) ==> full
      ensures r.Ok? ==>
        && f'.tree == r.value && FileOk(crc, f')
        && Exchanged(old(dev.view), old(Live()), f.node, dev.view, Live(), f'.node)
        && Content(f') == Resize(Content(f), newSize)
    {
      hide Secured, Guarded, Device.Valid, Sound, Stored, Blocks, Exchanged, Edited, SameBytes, Content, Resize,
        ZeroPast, Trimmed, Keeps;
      f' := f;
      if newSize >= tree.size {
        f' := File(tree.(size := newSize), f.node);
        ExchangedSelf(dev.view, Live(), f.node);
        ExtendContent(f, f');
        return Ok(tree.(size := newSize)), f';
      }
      var keep := (newSize + (BLOCK - 1)) / BLOCK;
      KeepsCeiling(keep, newSize);
      var root;
      ghost var n;
      root, n := TruncateNode(tree.root, tree.height, 0, keep, newSize, f.node);
      if root.Err? {
        return Err(root.error), f';
      }
      ghost var view, live := dev.view, Live();
      ExchangedFacts(old(dev.view), old(Live()), f.node, view, live, n);
      var t;
      ghost var m;
      t, m := Lower(tree.(root := root.value, size := newSize), keep, n);
      if t.Err? {
        return Err(t.error), f';
      }
      ExchangedTrans(old(dev.view), old(Live()), f.node, view, live, n, dev.view, Live(), m);
      f' := File(t.value, m);
      TruncatedContent(f, n, f', newSize);
      return t, f';
    }

    // ---------------------------------------------------------------- inodes

    /** The running transaction's volume is stored and owns exactly the blocks in use. */
    ghost predicate Working()
      reads `working, `committed, `scratch, `used, `taken, `freed, `past, `base, `blank, `files, dev
    {
      && Steady()
      && Owned(crc, dev.view, Live(), files)
      && TABLE in files && files[TABLE].tree == working.inodes
    }

    /** The inode table can be read. */
    ghost predicate TableReadable()
      reads this, dev
    {
      && SetsOk() && dev.Valid() && working.blocks <= dev.blocks
      && TABLE in files && files[TABLE].tree == working.inodes
      && FileOk(crc, files[TABLE]) && Readable(files[TABLE].node, working.inodes.height)
      && TableOk(Content(files[TABLE]))
    }

    lemma WorkingReadable(k: nat)
      requires Working() && k in files
      ensures SetsOk() && dev.Valid() && working.blocks <= dev.blocks
      ensures HoldsFile(files[k]) && Readable(files[k].node, files[k].tree.height)
      ensures files[k].tree.height <= MAX_HEIGHT && Points(files[k].tree.root, files[k].node)
    {
      hide Sound, Stored, ZeroPast, Guarded, Blocks, Points;
    }

    /** The record of an inode, from a table that is intact if `good`; whatever else is in it. */
    method GetRecord(ino: nat, ghost good: bool, ghost t: File) returns (r: Result<Inode>)
      requires SetsOk() && dev.Valid() && working.blocks <= dev.blocks && working.inodes.height <= MAX_HEIGHT
      requires good ==>
        t.tree == working.inodes && Points(t.tree.root, t.node) && Readable(t.node, t.tree.height)
      modifies this`scratch
      ensures SetsOk() && |scratch| == 4
      ensures r.Ok? ==> 1 <= ino <= MAX_INODES && r.value.tree.height <= MAX_HEIGHT
      ensures good && r.Ok? ==> r.value == InodeAt(Content(t), ino)
      ensures r.Err? ==>
        || r.error == Io || (r.error == NotFound && !(1 <= ino <= MAX_INODES))
        || (r.error == Corrupt && (good ==> InodeAt(Content(t), ino).tree.height > MAX_HEIGHT))
      ensures r == Err(Io) ==> !dev.reliable
    {
      hide Sound, Stored, ZeroPast, Blocks, Points, Content, Slice, DecodeInode, Device.Valid;
      if ino == 0 || ino > MAX_INODES {
        return Err(NotFound);
      }
      var tree := working.inodes;
      var read, raw := TreeRead(tree, ino * INODE_SIZE, Zeros(INODE_SIZE), good, t);
      if read.Err? {
        return Err(read.error);
      }
      if good {
        RecordSlice(Content(t), ino);
      }
      if read.value < INODE_SIZE {
        return Ok(FREE_INODE);
      }
      assert good ==> raw == Slice(Content(t), ino * INODE_SIZE, INODE_SIZE);
      var inode := DecodeInode(raw);
      if inode.tree.height > MAX_HEIGHT {
        return Err(Corrupt);
      }
      return Ok(inode);
    }

    /** The record of an inode of the volume in memory. */
    method GetInode(ino: nat, ghost good: bool) returns (r: Result<Inode>)
      requires SetsOk() && dev.Valid() && working.blocks <= dev.blocks && working.inodes.height <= MAX_HEIGHT
      requires TABLE in files && (good ==> TableReadable())
      modifies this`scratch
      ensures |scratch| == 4
      ensures r.Ok? ==> r.value.tree.height <= MAX_HEIGHT
      ensures good && r.Ok? ==> 1 <= ino <= MAX_INODES && r.value == InodeAt(Content(files[TABLE]), ino)
      ensures r.Err? ==>
        || r.error == Io || (r.error == NotFound && !(1 <= ino <= MAX_INODES))
        || (r.error == Corrupt && !good)
      ensures r == Err(Io) ==> !dev.reliable
    {
      hide Sound, Stored, ZeroPast, Blocks, Points, Content, InodeAt, Device.Valid;
      r := GetRecord(ino, good, files[TABLE]);
    }

    /** As `GetInode`, for an inode that must exist. */
    method LiveInode(ino: nat) returns (r: Result<Inode>)
      requires Working() && Linked(files)
      modifies this`scratch
      ensures Working()
      ensures r.Ok? ==> ino in files && ino != TABLE && ino in View(files)
      ensures r.Ok? ==> r.value == InodeAt(Content(files[TABLE]), ino) && r.value.tree == files[ino].tree
      ensures r.Ok? ==> r.value.kind != KIND_FREE && r.value.tree.height <= MAX_HEIGHT
      ensures r.Ok? ==> View(files)[ino] == MetaOf(r.value, Content(files[ino]))
      ensures r.Err? ==> r.error == Io || (r.error == NotFound && ino !in View(files))
      ensures r == Err(Io) ==> !dev.reliable
    {
      hide Secured, Guarded, Owned, Content, InodeAt, View, FileOk, Device.Valid, Stored, Sound, Blocks;
      WorkingReadable(TABLE);
      var inode := GetInode(ino, true);
      if inode.Err? {
        if inode.error == NotFound {
          ViewKeys(files, ino);
        }
        return inode;
      }
      ViewAt(files, ino);
      if inode.value.kind == KIND_FREE {
        return Err(NotFound);
      }
      return inode;
    }

    method PutInode(ino: nat, inode: Inode) returns (r: Result<()>)
      requires Working() && TableOk(Content(files[TABLE])) && 1 <= ino <= MAX_INODES
      modifies this`scratch, this`taken, this`full, this`freed, this`hint, this`working, this`files, dev
      ensures Steady()
      ensures r.Err? ==> r.error in {NoSpace, Io}
      ensures r == Err(Io) ==> !dev.reliable
      ensures r == Err(NoSpace) ==> full
      ensures r.Ok? ==>
        && Working()
        && files == old(files)[TABLE := files[TABLE]]
        && Content(files[TABLE]) == Overwrite(old(Content(files[TABLE])), INODE_SIZE * ino, EncodeInode(inode))
    {
      hide Secured, Guarded, Owned, Content, InodeAt, View, FileOk, Device.Valid, Stored, Sound, Blocks, Exchanged,
        EncodeInode, Overwrite;
      WorkingReadable(TABLE);
      CapValues();
      var tree;
      ghost var t;
      tree, t := TreeWrite(working.inodes, ino * INODE_SIZE, EncodeInode(inode), files[TABLE]);
      if tree.Err? {
        return Err(tree.error);
      }
      OwnedExchange(crc, old(dev.view), old(Live()), files, TABLE, t, dev.view, Live());
      files := files[TABLE := t];
      working := working.(inodes := tree.value);
      return Ok(());
    }

    /** The running transaction's volume, whole. */
    ghost predicate Consistent()
      reads `working, `committed, `scratch, `used, `taken, `freed, `past, `base, `blank, `files, dev
    {
      Working() && Linked(files)
    }

    /** Stores the record of an inode whose tree has changed. */
    method PutLive(ino: nat, inode: Inode) returns (r: Result<()>)
      requires Working() && LinkedBut(files, ino) && 1 <= ino <= MAX_INODES && ino in files
      requires inode.kind != KIND_FREE && inode.tree == files[ino].tree && inode.tree.height <= MAX_HEIGHT
      modifies this`scratch, this`taken, this`full, this`freed, this`hint, this`working, this`files, dev
      ensures Steady()
      ensures r.Err? ==> r.error in {NoSpace, Io}
      ensures r == Err(Io) ==> !dev.reliable
      ensures r == Err(NoSpace) ==> full
      ensures r.Ok? ==>
        && Consistent()
        && files == old(files)[TABLE := files[TABLE]]
        && View(files) == old(View(files))[ino := MetaOf(inode, old(Content(files[ino])))]
    {
      hide Secured, Guarded, Owned, Content, InodeAt, View, TableOk, LiveIno, FileOk, Device.Valid, EncodeInode,
        Overwrite, Linked;
      ghost var before: map<nat, File> := files;
      r := PutInode(ino, inode);
      if r.Ok? {
        PutLinks(before, ino, inode, files[TABLE]);
        PutView(before, ino, inode, files[TABLE]);
      }
    }

    /** Stores the record of a new inode. */
    method PutNew(ino: nat, inode: Inode) returns (r: Result<()>)
      requires Consistent() && 1 <= ino <= MAX_INODES && ino !in files
      requires inode.kind != KIND_FREE && inode.tree == EMPTY_TREE
      modifies this`scratch, this`taken, this`full, this`freed, this`hint, this`working, this`files, dev
      ensures Steady()
      ensures r.Err? ==> r.error in {NoSpace, Io}
      ensures r == Err(Io) ==> !dev.reliable
      ensures r == Err(NoSpace) ==> full
      ensures r.Ok? ==> Consistent() && View(files) == old(View(files))[ino := MetaOf(inode, [])]
    {
      hide Secured, Guarded, Owned, Content, InodeAt, View, TableOk, LiveIno, FileOk, Device.Valid, EncodeInode,
        Overwrite;
      ghost var before: map<nat, File> := files;
      r := PutInode(ino, inode);
      if r.Ok? {
        ghost var t := files[TABLE];
        OwnedAdd(crc, dev.view, Live(), files, ino);
        files := files[ino := EMPTY_FILE];
        AddLinks(before, ino, inode, t, files);
      }
    }

    /** The lowest inode number not in use. */
    method FreeInodeNumber() returns (r: Result<u32>)
      requires Consistent()
      modifies this`scratch
      ensures Consistent()
      ensures r.Ok? ==> r.value == FreeIno(View(files), 2) <= MAX_INODES
      ensures r.Err? ==> r.error == Io || (r.error == NoSpace && FreeIno(View(files), 2) > MAX_INODES)
      ensures r == Err(Io) ==> !dev.reliable
    {
      hide Secured, Guarded, Owned, Content, InodeAt, View, FileOk, Device.Valid, Stored, Sound, Blocks, FreeIno,
        LiveIno, Live;
      var slots := working.inodes.size / INODE_SIZE;
      WorkingReadable(TABLE);
      ContentSize(files[TABLE]);
      for ino := 2 to (if slots <= MAX_INODES + 1 then if slots < 2 then 2 else slots else MAX_INODES + 1)
        invariant Consistent()
        invariant forall i :: 2 <= i < ino ==> i in View(files)
      {
        WorkingReadable(TABLE);
        var inode := GetInode(ino, true);
        if inode.Err? {
          return Err(inode.error);
        }
        ViewAt(files, ino);
        if inode.value.kind == KIND_FREE {
          FreeInoIs(View(files), ino);
          return Ok(ino);
        }
      }
      var next := if slots <= 2 then 2 else slots;
      PastTable(files, next);
      FreeInoIs(View(files), next);
      if next > MAX_INODES {
        return Err(NoSpace);
      }
      return Ok(next);
    }

    // ----------------------------------------------------------- directories

    /** The entry in slot `k` of directory `d`, whose tree is given. */
    method ReadEntry(tree: Tree, k: nat, ghost d: nat) returns (r: Result<Entry>)
      requires Working() && d in files && files[d].tree == tree
      requires |Content(files[d])| % DIR_ENTRY == 0 && k < |Entries(Content(files[d]))|
      modifies this`scratch
      ensures Working()
      ensures r.Err? ==> r.error == Io
      ensures r == Err(Io) ==> !dev.reliable
      ensures r.Ok? ==> r.value == Entries(Content(files[d]))[k]
    {
      hide Secured, Guarded, Owned, Content, FileOk, Device.Valid, Stored, Sound, Blocks, Entries, Slice, DecodeEntry;
      WorkingReadable(d);
      var read, entry := TreeRead(tree, DIR_ENTRY * k, Zeros(DIR_ENTRY), true, files[d]);
      if read.Err? {
        return Err(read.error);
      }
      EntrySlice(Content(files[d]), k);
      assert entry == Slice(Content(files[d]), DIR_ENTRY * k, DIR_ENTRY);
      return Ok(DecodeEntry(entry));
    }

    /** A directory whose slots can be read. */
    ghost predicate Listable(tree: Tree, d: nat)
      reads this, dev
    {
      Working() && d in files && files[d].tree == tree && |Content(files[d])| % DIR_ENTRY == 0
    }

    /** Finds an entry by name: inode, kind and slot. */
    method DirFind(tree: Tree, name: seq<byte>, ghost d: nat) returns (r: Result<Option<(u32, byte, nat)>>)
      requires Listable(tree, d)
      modifies this`scratch
      ensures Listable(tree, d)
      ensures r.Err? ==> r.error == Io
      ensures r == Err(Io) ==> !dev.reliable
      ensures r.Ok? ==>
        var es := Entries(Content(files[d]));
        match FindName(es, name, 0)
        case None => r.value == None
        case Some(k) => r.value == Some((es[k].ino, es[k].kind, k))
    {
      hide Secured, Guarded, Owned, Content, FileOk, Device.Valid, Stored, Sound, Blocks, Entries;
      var offset, k := 0, 0;
      EntryCount(Content(files[d]));
      ContentSize(files[d]);
      while offset < tree.size
        invariant Listable(tree, d) && offset == DIR_ENTRY * k && k <= |Entries(Content(files[d]))|
        invariant FindName(Entries(Content(files[d])), name, 0) == FindName(Entries(Content(files[d])), name, k)
        decreases tree.size - offset
      {
        var entry := ReadEntry(tree, k, d);
        if entry.Err? {
          return Err(entry.error);
        }
        if entry.value.ino != 0 && entry.value.name == name {
          return Ok(Some((entry.value.ino, entry.value.kind, k)));
        }
        offset, k := offset + DIR_ENTRY, k + 1;
      }
      return Ok(None);
    }

    /** Finds the slot of an inode; for 0, the first free slot. */
    method DirFindIno(tree: Tree, ino: u32, ghost d: nat) returns (r: Result<Option<nat>>)
      requires Listable(tree, d)
      modifies this`scratch
      ensures Listable(tree, d)
      ensures r.Err? ==> r.error == Io
      ensures r == Err(Io) ==> !dev.reliable
      ensures r.Ok? ==> r.value == FindIno(Entries(Content(files[d])), ino, 0)
    {
      hide Secured, Guarded, Owned, Content, FileOk, Device.Valid, Stored, Sound, Blocks, Entries;
      var offset, k := 0, 0;
      EntryCount(Content(files[d]));
      ContentSize(files[d]);
      while offset < tree.size
        invariant Listable(tree, d) && offset == DIR_ENTRY * k && k <= |Entries(Content(files[d]))|
        invariant FindIno(Entries(Content(files[d])), ino, 0) == FindIno(Entries(Content(files[d])), ino, k)
        decreases tree.size - offset
      {
        var entry := ReadEntry(tree, k, d);
        if entry.Err? {
          return Err(entry.error);
        }
        if entry.value.ino == ino {
          return Ok(Some(k));
        }
        offset, k := offset + DIR_ENTRY, k + 1;
      }
      return Ok(None);
    }

    method DirIsEmpty(tree: Tree, ghost d: nat) returns (r: Result<bool>)
      requires Listable(tree, d)
      modifies this`scratch
      ensures Listable(tree, d)
      ensures r.Err? ==> r.error == Io
      ensures r == Err(Io) ==> !dev.reliable
      ensures r.Ok? ==> (r.value <==> AllFree(Entries(Content(files[d]))))
    {
      hide Secured, Guarded, Owned, Content, FileOk, Device.Valid, Stored, Sound, Blocks, Entries;
      var offset, k := 0, 0;
      EntryCount(Content(files[d]));
      ContentSize(files[d]);
      while offset < tree.size
        invariant Listable(tree, d) && offset == DIR_ENTRY * k && k <= |Entries(Content(files[d]))|
        invariant forall i :: 0 <= i < k ==> Entries(Content(files[d]))[i].ino == 0
        decreases tree.size - offset
      {
        var entry := ReadEntry(tree, k, d);
        if entry.Err? {
          return Err(entry.error);
        }
        if entry.value.ino != 0 {
          return Ok(false);
        }
        offset, k := offset + DIR_ENTRY, k + 1;
      }
      return Ok(true);
    }

    /** Overwrites bytes of the file or directory `k`; its record still has to be stored. */
    method WriteFile(k: nat, tree: Tree, offset: nat, data: seq<byte>) returns (r: Result<Tree>)
      requires Working() && LinkedBut(files, k) && k in files && k != TABLE && files[k].tree == tree
      requires offset + |data| < 0x1_0000_0000_0000_0000
      modifies this`scratch, this`taken, this`full, this`freed, this`hint, this`files, dev
      ensures Steady()
      ensures r.Err? ==> r.error in {TooBig, NoSpace, Io}
      ensures r == Err(Io) ==> !dev.reliable
      ensures r == Err(NoSpace) ==> full
      ensures r == Err(TooBig) ==> data != [] && offset + |data| > Cap(MAX_HEIGHT) * BLOCK
      ensures r.Ok? && data != [] ==> offset + |data| <= Cap(MAX_HEIGHT) * BLOCK
      ensures r.Ok? ==>
        && Working() && LinkedBut(files, k) && k in files && files == old(files)[k := files[k]]
        && files[k].tree == r.value && r.value.height <= MAX_HEIGHT
        && Content(files[k]) == Overwrite(old(Content(files[k])), offset, data)
    {
      hide Secured, Guarded, Owned, Content, Device.Valid, Stored, Sound, Blocks, Exchanged, Overwrite, Points,
        ZeroPast, LinkedBut, Cap;
      WorkingReadable(k);
      ghost var f;
      r, f := TreeWrite(tree, offset, data, files[k]);
      if r.Ok? {
        OwnedExchange(crc, old(dev.view), old(Live()), files, k, f, dev.view, Live());
        TouchLinksBut(files, k, f);
        files := files[k := f];
      }
    }

    /** Cuts or extends the file or directory `k`; its record still has to be stored. */
    method TruncateFile(k: nat, tree: Tree, size: u64) returns (r: Result<Tree>)
      requires Working() && LinkedBut(files, k) && k in files && k != TABLE && files[k].tree == tree
      modifies this`scratch, this`taken, this`full, this`freed, this`hint, this`files, dev
      ensures Steady()
      ensures r.Err? ==> r.error in {NoSpace, Io}
      ensures r == Err(Io) ==> !dev.reliable
      ensures r == Err(NoSpace) ==> full
      ensures r.Ok? ==>
        && Working() && LinkedBut(files, k) && k in files && files == old(files)[k := files[k]]
        && files[k].tree == r.value && r.value.height <= MAX_HEIGHT
        && Content(files[k]) == Resize(old(Content(files[k])), size)
    {
      hide Secured, Guarded, Owned, Content, Device.Valid, Stored, Sound, Blocks, Exchanged, Resize, Points, ZeroPast,
        LinkedBut, Cap;
      WorkingReadable(k);
      ghost var f;
      r, f := TreeTruncate(tree, size, files[k]);
      if r.Ok? {
        OwnedExchange(crc, old(dev.view), old(Live()), files, k, f, dev.view, Live());
        TouchLinksBut(files, k, f);
        files := files[k := f];
      }
    }

    /** Adds an entry to a directory, in a free slot when there is one. */
    method DirInsert(dirIno: u32, name: seq<byte>, ino: u32, kind: byte, now: u64, ghost loose: nat)
      returns (r: Result<()>)
      requires Consistent() && Shape(View(files), loose) && IsDir(View(files), dirIno) && |name| <= NAME_MAX
      modifies this`scratch, this`taken, this`full, this`freed, this`hint, this`working, this`files, dev
      ensures Steady()
      ensures r.Err? ==> r.error in {NoSpace, Io}
      ensures r == Err(Io) ==> !dev.reliable
      ensures r == Err(NoSpace) ==> full
      ensures r.Ok? ==>
        Consistent() && View(files) == Insert(old(View(files)), dirIno, Entry(ino, kind, name), now)
    {
      hide Secured, Guarded, Owned, Content, InodeAt, View, FileOk, Device.Valid, Stored, Sound, Blocks, Entries,
        Overwrite, Linked, LinkedBut, FindIno, EncodeEntry, Shape, Cap, SetsOk;
      ghost var fs, before := View(files), files;
      DirData(fs, loose, dirIno);
      SlotBound(fs, loose, dirIno);
      var live := LiveInode(dirIno);
      if live.Err? {
        return Err(live.error);
      }
      var dir := live.value;
      ghost var data := Content(files[dirIno]);
      var found := DirFindIno(dir.tree, 0, dirIno);
      if found.Err? {
        return Err(found.error);
      }
      EntryCount(data);
      ContentSize(files[dirIno]);
      var slot := if found.value.Some? then DIR_ENTRY * found.value.value else dir.tree.size;
      assert slot == DIR_ENTRY * FreeSlot(Entries(data));
      LinkedIsLinkedBut(files, dirIno);
      CapValues();
      var tree := WriteFile(dirIno, dir.tree, slot, EncodeEntry(Entry(ino, kind, name)));
      if tree.Err? {
        return Err(tree.error);
      }
      dir := dir.(tree := tree.value, mtime := now);
      TouchView(before, dirIno, files[dirIno], MetaOf(dir, Content(files[dirIno])));
      r := PutLive(dirIno, dir);
    }

    /** How many slots of a directory remain when free ones at its end are given back. */
    method UsedSlots(tree: Tree, ghost d: nat) returns (r: Result<nat>)
      requires Listable(tree, d)
      modifies this`scratch
      ensures Listable(tree, d)
      ensures r.Err? ==> r.error == Io
      ensures r == Err(Io) ==> !dev.reliable
      ensures r.Ok? ==>
        r.value == DIR_ENTRY * UsedLength(Entries(Content(files[d])), |Entries(Content(files[d]))|) <= tree.size
    {
      hide Secured, Guarded, Owned, Content, FileOk, Device.Valid, Stored, Sound, Blocks, Entries;
      EntryCount(Content(files[d]));
      ContentSize(files[d]);
      var size: nat := tree.size;
      ghost var n := |Entries(Content(files[d]))|;
      while size >= DIR_ENTRY
        invariant Listable(tree, d) && size == DIR_ENTRY * n && n <= |Entries(Content(files[d]))|
        invariant UsedLength(Entries(Content(files[d])), |Entries(Content(files[d]))|)
               == UsedLength(Entries(Content(files[d])), n)
        decreases size
      {
        var entry := ReadEntry(tree, size / DIR_ENTRY - 1, d);
        if entry.Err? {
          return Err(entry.error);
        }
        if entry.value.ino != 0 {
          break;
        }
        size := size - DIR_ENTRY;
        n := n - 1;
      }
      return Ok(size);
    }

    /** Clears slot `k` of a directory and gives back free slots at its end. */
    method DirClear(dirIno: u32, k: nat, now: u64, ghost loose: nat) returns (r: Result<()>)
      requires Consistent() && Shape(View(files), loose) && IsDir(View(files), dirIno)
      requires k < |Entries(View(files)[dirIno].data)|
      modifies this`scratch, this`taken, this`full, this`freed, this`hint, this`working, this`files, dev
      ensures Steady()
      ensures r.Err? ==> r.error in {NoSpace, Io}
      ensures r == Err(Io) ==> !dev.reliable
      ensures r == Err(NoSpace) ==> full
      ensures r.Ok? ==> Consistent() && View(files) == Clear(old(View(files)), dirIno, k, now)
      ensures r.Ok? ==> forall j :: j in old(files) && j != dirIno && j != TABLE ==> j in files && files[j] == old(files)[j]
    {
      hide Steady, Secured, Guarded, Owned, Content, InodeAt, View, FileOk, Device.Valid, Stored, Sound, Blocks,
        Entries, Overwrite, Linked, LinkedBut, Resize, Cap, SetsOk, UsedLength, DecodeEntry, Shape;
      ghost var fs, before := View(files), files;
      DirData(fs, loose, dirIno);
      var live := LiveInode(dirIno);
      if live.Err? {
        return Err(live.error);
      }
      var dir := live.value;
      ghost var data := Content(files[dirIno]);
      EntryCount(data);
      ContentSize(files[dirIno]);
      EntriesOverwrite(data, k, Zeros(DIR_ENTRY));
      LinkedIsLinkedBut(files, dirIno);
      CapValues();
      var written := WriteFile(dirIno, dir.tree, DIR_ENTRY * k, Zeros(DIR_ENTRY));
      if written.Err? {
        return Err(written.error);
      }
      var tree := written.value;
      var size := UsedSlots(tree, dirIno);
      if size.Err? {
        return Err(size.error);
      }
      ghost var cleared := Content(files[dirIno]);
      ContentSize(files[dirIno]);
      if size.value != tree.size {
        var cut := TruncateFile(dirIno, tree, size.value);
        if cut.Err? {
          return Err(cut.error);
        }
        tree := cut.value;
      } else {
        ResizeSame(cleared);
      }
      assert Content(files[dirIno]) == ClearEntry(data, k);
      dir := dir.(tree := tree, mtime := now);
      assert files == before[dirIno := files[dirIno]];
      TouchView(before, dirIno, files[dirIno], MetaOf(dir, Content(files[dirIno])));
      r := PutLive(dirIno, dir);
    }

    /** Frees an inode's tree and its record. */
    method DropInode(ino: u32, inode: Inode) returns (r: Result<()>)
      requires Consistent() && ino in files && 1 <= ino <= MAX_INODES && files[ino].tree == inode.tree
      modifies this`scratch, this`taken, this`full, this`freed, this`hint, this`working, this`files, dev
      ensures Steady()
      ensures r.Err? ==> r.error in {NoSpace, Io}
      ensures r == Err(Io) ==> !dev.reliable
      ensures r == Err(NoSpace) ==> full
      ensures r.Ok? ==> Consistent() && View(files) == old(View(files)) - {ino as nat}
    {
      hide Secured, Guarded, Owned, Content, InodeAt, View, Device.Valid, Stored, Sound, Blocks, Overwrite, Linked,
        ZeroPast, Points, EncodeInode;
      ghost var before: map<nat, File> := files;
      WorkingReadable(ino);
      var done := FreeSubtree(inode.tree.root, inode.tree.height, files[ino].node);
      if done.Err? {
        return done;
      }
      OwnedDrop(crc, dev.view, old(Live()), files, ino, Live());
      files := files - {ino as nat};
      LinkedTable(before);
      r := PutInode(ino, FREE_INODE);
      if r.Ok? {
        FreeLinks(before, ino, files[TABLE], files);
      }
    }

    // ---------------------------------------------------------- transactions

    /** Between transactions: nothing taken, nothing freed, the committed volume in force. */
    ghost predicate Settled()
      reads this, dev
    {
      && Consistent()
      && taken == {} && freed == {} && !blank
      && working == committed && files == base
    }

    /** The superblock in force is in the slot of its generation's parity, and an older one or none in the other. */
    lemma SettledOnDisk()
      requires Settled()
      ensures dev.Valid() && |dev.Now().durable| >= 2
      ensures var slot := dev.Now().durable[committed.generation % 2][..SECTOR];
              SuperSealed(crc, slot) && SuperBytes(slot, committed)
      ensures var other := DecodeSuper(crc, dev.Now().durable[1 - committed.generation % 2][..SECTOR]);
              other.Some? && 16 <= other.value.blocks <= dev.blocks && other.value.blocks <= MAX_BLOCKS ==>
                other.value.generation < committed.generation
    {
      hide Device.Valid, SetsOk, Whole, Safe, DecodeSuper, Owned, Linked, SuperSealed, SuperBytes;
      dev.Sized();
      SuperDecoded(crc, dev.Now().durable[committed.generation % 2][..SECTOR]);
    }

    lemma ConsistentWhole(next: Super)
      requires Consistent() && next == working.(generation := next.generation)
      ensures Whole(crc, dev.view, Live(), next, files)
      ensures next.inodes.height <= MAX_HEIGHT && next.blocks <= MAX_BLOCKS
    {
      hide Secured, Guarded, Sound, Stored, ZeroPast, Points, Blocks, Device.Valid, Linked;
    }

    method Rollback()
      modifies this`working, this`taken, this`freed, this`files
      ensures working == committed && taken == {} && freed == {} && files == base
      ensures old(Steady()) && !blank ==> Settled()
    {
      hide Guarded, Device.Valid, Owned, Linked;
      working, taken, freed := committed, {}, {};
      files := base;
      if old(Steady()) && !blank {
        GuardedWhole(crc, dev.view, dev.Now(), dev.log, past, used, committed, base);
        LinkedTable(base);
        assert Live() == used - {0, 1};
      }
    }

    /** Writes the superblock sector of a flushed transaction and flushes it. */
    method WriteSuper(next: Super) returns (ok: bool)
      requires dev.Valid() && dev.Now() == Snapshot(dev.view, [])
      requires Whole(crc, dev.view, Live(), next, files)
      requires next.generation == committed.generation + 1
      requires |next.volumeLabel| == 16 && next.inodes.height <= MAX_HEIGHT
      requires 16 <= next.blocks <= dev.blocks && next.blocks <= MAX_BLOCKS
      requires blank ==> Blanked(dev.view) && next.generation == 1
      requires !blank ==> Anchored(crc, dev.view, dev.Now(), used, committed, base)
      requires !blank ==> Recovers(crc, dev.log, past, committed, base, next, files)
      modifies dev
      ensures dev.Valid() && |dev.log| > 0
      ensures !blank ==> Recovers(crc, dev.log, past, committed, base, next, files)
      ensures ok ==> Guarded(crc, dev.view, dev.Now(), dev.log, dev.log, Live() + {0, 1}, next, files)
      ensures !blank ==> Whole(crc, dev.view, used - {0, 1}, committed, base)
      ensures !ok ==>
        || (dev.Now() == old(dev.Now()) && dev.view == old(dev.view) && dev.log == old(dev.log))
        || InFlight(crc, dev.pending, next)
      ensures !ok && dev.pending == [] && old(Steady()) ==> Steady()
      ensures !ok && dev.pending != [] && !blank ==> EitherWay(crc, dev.Now(), committed, base, next, files)
      ensures dev.reliable ==> ok
    {
      hide Secured, Guarded, Recovers, SurvivesEither, Anchored, EncodeSuper, Whole, EitherWay;
      ghost var view, log := dev.view, dev.log;
      ok := dev.WriteSector(next.generation % 2, EncodeSuper(crc, next));
      if !blank {
        OlderKept(crc, view, dev.view, used, committed, base, next.generation % 2);
      }
      if !ok && dev.pending == [] {
        return;
      }
      if !blank {
        CommitInFlight(crc, view, committed, base, used, next, files, Live(), dev.Now());
        CommitInDoubt(crc, view, committed, base, used, next, files, Live(), dev.Now());
        RecoversStep(crc, log, past, committed, base, next, files, dev.Now());
      }
      if !ok {
        return;
      }
      log := dev.log;
      ok := dev.Flush();
      if ok && blank {
        FirstCommit(crc, view, next, files, Live(), dev.view, Live() + {0, 1}, log);
      } else if ok {
        CommitGuards(crc, view, committed, base, used, next, files, Live(), dev.view, Live() + {0, 1}, log);
        RecoversStep(crc, log, past, committed, base, next, files, dev.Now());
      }
    }

    /** A landed transaction becomes the committed volume in memory too. */
    method Adopt(next: Super)
      requires SetsOk() && dev.Valid() && |dev.log| > 0 && 16 <= working.blocks <= dev.blocks && |working.volumeLabel| == 16
      requires next == working.(generation := next.generation)
      requires Guarded(crc, dev.view, dev.Now(), dev.log, dev.log, Live() + {0, 1}, next, files)
      modifies this`used, this`taken, this`freed, this`committed, this`working, this`base, this`past,
        this`blank
      ensures Settled() && committed == next && past == dev.log
    {
      hide Guarded, Owned, Linked, Device.Valid;
      ghost var live := Live();
      GuardedWhole(crc, dev.view, dev.Now(), dev.log, dev.log, live + {0, 1}, next, files);
      LinkedTable(files);
      used := (used + taken) - freed;
      assert used == live + {0, 1};
      taken, freed := {}, {};
      assert Live() == live;
      assert live + {0, 1} - {0, 1} == live;
      committed, working := next, next;
      base, past, blank := files, dev.log, false;
      SettledFrom();
    }

    lemma SettledFrom()
      requires SetsOk() && dev.Valid() && 16 <= working.blocks <= dev.blocks && |working.volumeLabel| == 16
      requires taken == {} && freed == {} && !blank && working == committed && files == base
      requires Guarded(crc, dev.view, dev.Now(), dev.log, past, used, committed, base)
      requires Owned(crc, dev.view, Live(), files) && Linked(files)
      requires TABLE in files && files[TABLE].tree == working.inodes
      ensures Settled()
    {
      hide Guarded, Owned, Linked, Device.Valid, SetsOk;
    }

    /** Flushes the new blocks of a transaction. */
    method FlushBlocks(ghost next: Super) returns (ok: bool)
      requires Consistent() && next == working.(generation := next.generation)
      requires next.generation == committed.generation + 1
      modifies dev
      ensures Steady() && SetsOk() && dev.Valid() && |dev.log| > 0
      ensures |next.volumeLabel| == 16 && 16 <= next.blocks <= dev.blocks && next.blocks <= MAX_BLOCKS
      ensures Whole(crc, dev.view, Live(), next, files) && next.inodes.height <= MAX_HEIGHT
      ensures blank ==> Blanked(dev.view)
      ensures !blank ==> Recovers(crc, dev.log, past, committed, base, next, files)
      ensures ok ==> dev.Now() == Snapshot(dev.view, [])
      ensures ok && !blank ==> Anchored(crc, dev.view, dev.Now(), used, committed, base)
      ensures !ok && !blank ==> !InFlight(crc, dev.pending, next)
      ensures dev.reliable ==> ok
    {
      hide InFlight, Guarded, Owned, Linked, Recovers, Anchored, Device.Valid, SetsOk, Whole, Blanked;
      ConsistentWhole(next);
      dev.Logged();
      ok := dev.Flush();
      if !blank {
        if ok {
          GuardedFlush(crc, dev.view, old(dev.Now()), old(dev.log), past, used, committed, base);
          GuardedAnchored(crc, dev.view, dev.Now(), dev.log, past, used, committed, base);
        } else {
          GuardedSlots(crc, dev.view, dev.Now(), dev.log, past, used, committed, base, next);
        }
        GuardedRecovers(crc, dev.view, dev.Now(), dev.log, past, used, committed, base, next, files);
      }
    }

    /**
     The device's part of a commit. When it fails, `doubt` says that the
     superblock's sector is left in flight.
     */
    method Publish(next: Super) returns (ok: bool, doubt: bool)
      requires Consistent() && next == working.(generation := next.generation)
      requires next.generation == committed.generation + 1
      requires blank ==> next.generation == 1
      modifies dev
      ensures SetsOk() && dev.Valid() && |dev.log| > 0 && 16 <= working.blocks <= dev.blocks && |working.volumeLabel| == 16
      ensures ok ==> !doubt && Guarded(crc, dev.view, dev.Now(), dev.log, dev.log, Live() + {0, 1}, next, files)
      ensures !blank ==> Recovers(crc, dev.log, past, committed, base, next, files)
      ensures ok && !blank ==> Whole(crc, dev.view, used - {0, 1}, committed, base)
      ensures !ok && !doubt ==> Steady()
      ensures !ok && !blank ==> (doubt <==> InFlight(crc, dev.pending, next))
      ensures doubt && !blank ==> EitherWay(crc, dev.Now(), committed, base, next, files)
      ensures dev.reliable ==> ok
    {
      hide EitherWay, EncodeSuper, Guarded, Recovers, Anchored, Device.Valid, SetsOk, Whole, Steady, Consistent, Live,
        Blanked;
      doubt := false;
      ok := FlushBlocks(next);
      if !ok {
        return;
      }
      ok := WriteSuper(next);
      doubt := !ok && dev.pending != [];
    }

    /**
     Ends the transaction: the new blocks are flushed, then one superblock
     sector makes them the volume. A power cut in between leaves one or the other.
     */
    method Commit() returns (r: Result<()>)
      requires Consistent() && !inDoubt && committed.generation + 1 < 0x1_0000_0000_0000_0000
      requires blank ==> committed.generation == 0
      modifies this, dev
      ensures tried == old(working).(generation := old(committed).generation + 1) && triedFiles == old(files)
      ensures !old(blank) ==> Recovers(crc, dev.log, old(past), old(committed), old(base), tried, triedFiles)
      ensures !old(blank) && !inDoubt ==> Settled()
      ensures r.Ok? ==> Settled() && !inDoubt && committed == tried && files == triedFiles && past == dev.log
      ensures r.Ok? && !old(blank) ==> Whole(crc, dev.view, old(used) - {0, 1}, old(committed), old(base))
      ensures r.Err? ==> r.error == Io
      ensures r == Err(Io) ==> !dev.reliable
      ensures r.Err? && !inDoubt ==> committed == old(committed) && files == old(base) && past == old(past)
      ensures inDoubt ==> r.Err?
      ensures !old(blank) && r.Err? ==>
        (inDoubt <==> InFlight(crc, dev.pending, tried))
      ensures inDoubt && !old(blank) ==> EitherWay(crc, dev.Now(), old(committed), old(base), tried, triedFiles)
    {
      hide EitherWay, EncodeSuper, Guarded, Recovers, Anchored, Device.Valid, SetsOk, Settled, Whole, Steady,
        Consistent, Live, Blanked;
      var next := working.(generation := committed.generation + 1);
      tried, triedFiles := next, files;
      var ok, doubt := Publish(next);
      if !ok {
        inDoubt := doubt;
        Rollback();
        return Err(Io);
      }
      Adopt(next);
      return Ok(());
    }

    // -------------------------------------------------------- bodies of calls

    /** What a call's body leaves behind: the change the call specifies, or an error and a volume to roll back. */
    ghost predicate Took<T>(spec: Result<Change>, r: Result<T>)
      reads this, dev
    {
      && Steady()
      && (r.Ok? ==> spec.Ok? && Consistent() && View(files) == spec.value.fs)
      && (r.Err? ==> Excused(r.error) || spec == Err(r.error))
    }

    /** A failure that is not the caller's: the device failed, or every block is in use. */
    ghost predicate Excused(error: Error)
      reads `full
    {
      (error == Io && !dev.reliable) || (error == NoSpace && full)
    }

    method CreateIn(dir: u32, name: seq<byte>, kind: byte, now: u64) returns (r: Result<Stat>)
      requires Consistent() && Shape(View(files), 0) && ValidName(name) && kind in {KIND_FILE, KIND_DIRECTORY}
      modifies this`scratch, this`taken, this`full, this`freed, this`hint, this`working, this`files, dev
      ensures Took(Create(old(View(files)), dir, name, kind, now), r)
      ensures r.Ok? ==> r.value.ino in View(files) && r.value == StatOf(r.value.ino, View(files)[r.value.ino])
      ensures r.Ok? ==> r.value.ino == Create(old(View(files)), dir, name, kind, now).value.ino
    {
      hide Steady, Secured, Guarded, Owned, Content, InodeAt, View, FileOk, Device.Valid, Stored, Sound, Blocks,
        Entries, Linked, Shape, FindName, SetsOk, FreeIno, ValidName, PutEntry;
      ghost var fs := View(files);
      var live := LiveInode(dir);
      if live.Err? {
        return Err(live.error);
      }
      var directory := live.value;
      if directory.kind != KIND_DIRECTORY {
        return Err(NotDirectory);
      }
      DirData(fs, 0, dir);
      var found := DirFind(directory.tree, name, dir);
      if found.Err? {
        return Err(found.error);
      }
      if found.value.Some? {
        return Err(Exists);
      }
      var number := FreeInodeNumber();
      if number.Err? {
        return Err(number.error);
      }
      var ino := number.value;
      var mode := if kind == KIND_DIRECTORY then 493 else 420;
      var inode := Inode(kind, false, mode, dir, now, EMPTY_TREE);
      ViewAt(files, ino);
      AddKeeps(fs, ino, MetaOf(inode, []));
      NameBound(name);
      var put := PutNew(ino, inode);
      if put.Err? {
        return Err(put.error);
      }
      put := DirInsert(dir, name, ino, kind, now, ino);
      if put.Err? {
        return Err(put.error);
      }
      return Ok(Stat(ino, dir, kind == KIND_DIRECTORY, mode, 0, now, false));
    }

    method WriteIn(ino: u32, offset: nat, data: seq<byte>, now: u64) returns (r: Result<Stat>)
      requires Consistent() && Shape(View(files), 0)
      requires offset + |data| < 0x1_0000_0000_0000_0000
      modifies this`scratch, this`taken, this`full, this`freed, this`hint, this`working, this`files, dev
      ensures Took(WriteAt(old(View(files)), ino, offset, data, now), r)
      ensures r.Ok? ==> ino in View(files) && r.value == StatOf(ino, View(files)[ino])
    {
      hide Secured, Guarded, Owned, Content, InodeAt, View, FileOk, Device.Valid, Stored, Sound, Blocks, Linked,
        LinkedBut, Shape, SetsOk, Overwrite, Cap;
      ghost var before := files;
      var live := LiveInode(ino);
      if live.Err? {
        return Err(live.error);
      }
      var inode := live.value;
      if inode.kind == KIND_DIRECTORY {
        return Err(IsDirectory);
      }
      if inode.readOnly {
        return Err(InvalidArgument);
      }
      CapValues();
      ViewLive(files, ino);
      LinkedIsLinkedBut(files, ino);
      var tree := WriteFile(ino, inode.tree, offset, data);
      if tree.Err? {
        return Err(tree.error);
      }
      inode := inode.(tree := tree.value, mtime := now);
      TouchView(before, ino, files[ino], MetaOf(inode, Content(files[ino])));
      ContentSize(files[ino]);
      var put := PutLive(ino, inode);
      if put.Err? {
        return Err(put.error);
      }
      return Ok(StatOfInode(ino, inode));
    }

    method TruncateIn(ino: u32, length: u64, now: u64) returns (r: Result<Stat>)
      requires Consistent() && Shape(View(files), 0)
      modifies this`scratch, this`taken, this`full, this`freed, this`hint, this`working, this`files, dev
      ensures Took(Truncate(old(View(files)), ino, length, now), r)
      ensures r.Ok? ==> ino in View(files) && r.value == StatOf(ino, View(files)[ino])
    {
      hide Secured, Guarded, Owned, Content, InodeAt, View, FileOk, Device.Valid, Stored, Sound, Blocks, Linked,
        LinkedBut, Shape, SetsOk, Resize;
      ghost var before := files;
      var live := LiveInode(ino);
      if live.Err? {
        return Err(live.error);
      }
      var inode := live.value;
      if inode.kind == KIND_DIRECTORY {
        return Err(IsDirectory);
      }
      if inode.readOnly {
        return Err(InvalidArgument);
      }
      ViewLive(files, ino);
      LinkedIsLinkedBut(files, ino);
      var tree := TruncateFile(ino, inode.tree, length);
      if tree.Err? {
        return Err(tree.error);
      }
      inode := inode.(tree := tree.value, mtime := now);
      TouchView(before, ino, files[ino], MetaOf(inode, Content(files[ino])));
      ContentSize(files[ino]);
      var put := PutLive(ino, inode);
      if put.Err? {
        return Err(put.error);
      }
      return Ok(StatOfInode(ino, inode));
    }

    /** Replaces an inode's attributes; its tree stays. */
    method SetAttributes(ino: u32, inode: Inode) returns (r: Result<Stat>)
      requires Consistent() && ino in View(files) && ino in files
      requires inode.tree == files[ino].tree && inode.kind != KIND_FREE && inode.tree.height <= MAX_HEIGHT
      modifies this`scratch, this`taken, this`full, this`freed, this`hint, this`working, this`files, dev
      ensures Steady()
      ensures r.Err? ==> r.error in {NoSpace, Io}
      ensures r == Err(Io) ==> !dev.reliable
      ensures r == Err(NoSpace) ==> full
      ensures r.Ok? ==>
        && Consistent()
        && View(files) == old(View(files))[ino := MetaOf(inode, old(View(files)[ino].data))]
        && r.value == StatOf(ino, View(files)[ino])
    {
      hide Secured, Guarded, Owned, Content, InodeAt, FileOk, Device.Valid, Stored, Sound, Blocks, Linked, LinkedBut,
        View;
      ViewLive(files, ino);
      ViewAt(files, ino);
      LinkedIsLinkedBut(files, ino);
      ContentSize(files[ino]);
      var put := PutLive(ino, inode);
      if put.Err? {
        return Err(put.error);
      }
      return Ok(StatOfInode(ino, inode));
    }

    method SetReadOnlyIn(ino: u32, readOnly: bool) returns (r: Result<Stat>)
      requires Consistent() && Shape(View(files), 0)
      modifies this`scratch, this`taken, this`full, this`freed, this`hint, this`working, this`files, dev
      ensures Took(SetReadOnly(old(View(files)), ino, readOnly), r)
      ensures r.Ok? ==> ino in View(files) && r.value == StatOf(ino, View(files)[ino])
    {
      hide Secured, Guarded, Owned, Content, InodeAt, FileOk, Device.Valid, Stored, Sound, Blocks, Linked, View, Shape;
      var live := LiveInode(ino);
      if live.Err? {
        return Err(live.error);
      }
      r := SetAttributes(ino, live.value.(readOnly := readOnly));
    }

    method SetModeIn(ino: u32, mode: u16) returns (r: Result<Stat>)
      requires Consistent() && Shape(View(files), 0)
      modifies this`scratch, this`taken, this`full, this`freed, this`hint, this`working, this`files, dev
      ensures Took(SetMode(old(View(files)), ino, mode), r)
      ensures r.Ok? ==> ino in View(files) && r.value == StatOf(ino, View(files)[ino])
    {
      hide Secured, Guarded, Owned, Content, InodeAt, FileOk, Device.Valid, Stored, Sound, Blocks, Linked, View, Shape;
      var live := LiveInode(ino);
      if live.Err? {
        return Err(live.error);
      }
      r := SetAttributes(ino, live.value.(mode := mode % 4096));
    }

    /** Clears the entry of `ino` from a directory. */
    method UnlinkIn(dir: u32, ino: u32, now: u64) returns (r: Result<()>)
      requires Consistent() && Shape(View(files), 0) && IsDir(View(files), dir)
      modifies this`scratch, this`taken, this`full, this`freed, this`hint, this`working, this`files, dev
      ensures Took(Unlink(old(View(files)), dir, ino, now), r)
      ensures r.Ok? ==> forall j :: j in old(files) && j != dir && j != TABLE ==> j in files && files[j] == old(files)[j]
    {
      hide Secured, Guarded, Owned, Content, InodeAt, View, FileOk, Device.Valid, Stored, Sound, Blocks, Entries,
        Linked, Shape, SetsOk, ClearEntry;
      DirData(View(files), 0, dir);
      var parent := LiveInode(dir);
      if parent.Err? {
        return Err(parent.error);
      }
      var slot := DirFindIno(parent.value.tree, ino, dir);
      if slot.Err? {
        return Err(slot.error);
      }
      if slot.value.None? {
        return Err(Corrupt);
      }
      r := DirClear(dir, slot.value.value, now, 0);
    }

    /** Takes an inode's name out of its directory, and then the inode. */
    method UnlinkAndDrop(dir: u32, ino: u32, inode: Inode, now: u64) returns (r: Result<()>)
      requires Consistent() && Shape(View(files), 0) && IsDir(View(files), dir) && dir != ino
      requires ino in files && 1 <= ino <= MAX_INODES && files[ino].tree == inode.tree
      modifies this`scratch, this`taken, this`full, this`freed, this`hint, this`working, this`files, dev
      ensures Took(match Unlink(old(View(files)), dir, ino, now)
                   case Err(e) => Err(e)
                   case Ok(c) => Ok(Change(c.fs - {ino as nat}, ino)), r)
    {
      hide Secured, Guarded, Owned, Content, InodeAt, View, FileOk, Device.Valid, Stored, Sound, Blocks, Entries,
        Linked, Shape, SetsOk, Unlink;
      r := UnlinkIn(dir, ino, now);
      if r.Err? {
        return;
      }
      r := DropInode(ino, inode);
    }

    method RemoveIn(ino: u32, now: u64) returns (r: Result<()>)
      requires Consistent() && Shape(View(files), 0) && ino != ROOT_INO
      modifies this`scratch, this`taken, this`full, this`freed, this`hint, this`working, this`files, dev
      ensures Took(Remove(old(View(files)), ino, now), r)
    {
      hide Secured, Guarded, Owned, Content, InodeAt, View, FileOk, Device.Valid, Stored, Sound, Blocks, Entries,
        Linked, Shape, SetsOk, AllFree, Unlink;
      ghost var fs := View(files);
      var live := LiveInode(ino);
      if live.Err? {
        return Err(live.error);
      }
      var inode := live.value;
      if inode.readOnly {
        return Err(InvalidArgument);
      }
      if inode.kind == KIND_DIRECTORY {
        DirData(fs, 0, ino);
        var empty := DirIsEmpty(inode.tree, ino);
        if empty.Err? {
          return Err(empty.error);
        }
        if !empty.value {
          return Err(NotEmpty);
        }
      }
      ParentIsDir(fs, ino);
      ViewLive(files, ino);
      r := UnlinkAndDrop(inode.parent, ino, inode, now);
    }

    method IsInsideOf(candidate: u32, ancestor: u32) returns (r: Result<bool>)
      requires Consistent()
      modifies this`scratch
      ensures Consistent()
      ensures r == IsInside(View(files), candidate, ancestor, 4096) || (r == Err(Io) && !dev.reliable)
    {
      hide Secured, Guarded, Owned, Content, InodeAt, View, FileOk, Device.Valid, Stored, Sound, Blocks, Linked;
      var c := candidate;
      for step := 0 to 4096
        invariant Consistent()
        invariant IsInside(View(files), candidate, ancestor, 4096) == IsInside(View(files), c, ancestor, 4096 - step)
      {
        if c == ancestor {
          return Ok(true);
        }
        if c == ROOT_INO {
          return Ok(false);
        }
        var live := LiveInode(c);
        if live.Err? {
          return Err(live.error);
        }
        c := live.value.parent;
      }
      return Err(Corrupt);
    }

    /** Removes the inode that already has the new name of a rename. */
    method DisplaceIn(ino: u32, kind: byte, newDir: u32, k: nat, existing: Entry, now: u64) returns (r: Result<()>)
      requires Consistent() && Shape(View(files), 0) && IsDir(View(files), newDir)
      requires ino in View(files) && View(files)[ino].kind == kind
      requires k < |Entries(View(files)[newDir].data)| && existing == Entries(View(files)[newDir].data)[k]
      requires existing.ino != 0
      modifies this`scratch, this`taken, this`full, this`freed, this`hint, this`working, this`files, dev
      ensures Took(Displace(old(View(files)), ino, newDir, k, now), r)
    {
      hide Secured, Guarded, Owned, Content, InodeAt, View, FileOk, Device.Valid, Stored, Sound, Blocks, Entries,
        Linked, Shape, SetsOk, AllFree, Unlink, FindIno, ClearEntry;
      ghost var fs := View(files);
      DisplaceShape(fs, ino, newDir, k, now);
      if existing.kind != kind {
        return Err(if existing.kind == KIND_DIRECTORY then IsDirectory else NotDirectory);
      }
      var live := LiveInode(existing.ino);
      if live.Err? {
        return Err(live.error);
      }
      var victim := live.value;
      if victim.readOnly {
        return Err(InvalidArgument);
      }
      if victim.kind == KIND_DIRECTORY {
        DirData(fs, 0, existing.ino);
        var empty := DirIsEmpty(victim.tree, existing.ino);
        if empty.Err? {
          return Err(empty.error);
        }
        if !empty.value {
          return Err(NotEmpty);
        }
      }
      ViewLive(files, existing.ino);
      r := UnlinkAndDrop(newDir, existing.ino, victim, now);
    }

    /** Moves a name to a free place. */
    method MoveIn(ino: u32, inode: Inode, newDir: u32, newName: seq<byte>, now: u64) returns (r: Result<Stat>)
      requires Consistent() && Shape(View(files), 0) && IsDir(View(files), newDir) && ValidName(newName)
      requires ino in View(files) && ino != ROOT_INO
      requires View(files)[ino].parent == inode.parent && View(files)[ino].kind == inode.kind
      modifies this`scratch, this`taken, this`full, this`freed, this`hint, this`working, this`files, dev
      ensures Took(Move(old(View(files)), ino, newDir, newName, now), r)
      ensures r.Ok? ==> ino in View(files) && r.value == StatOf(ino, View(files)[ino])
    {
      hide Secured, Guarded, Owned, Content, InodeAt, View, FileOk, Device.Valid, Stored, Sound, Blocks, Entries,
        Linked, Shape, SetsOk, FindIno, ClearEntry, PutEntry, ValidName;
      ghost var fs := View(files);
      ParentIsDir(fs, ino);
      UnlinkKeeps(fs, ino, now);
      var done := UnlinkIn(inode.parent, ino, now);
      if done.Err? {
        return Err(done.error);
      }
      NameBound(newName);
      done := DirInsert(newDir, newName, ino, inode.kind, now, ino);
      if done.Err? {
        return Err(done.error);
      }
      var live := LiveInode(ino);
      if live.Err? {
        return Err(live.error);
      }
      r := SetAttributes(ino, live.value.(parent := newDir));
    }

    method RenameIn(ino: u32, newDir: u32, newName: seq<byte>, now: u64) returns (r: Result<Stat>)
      requires Consistent() && Shape(View(files), 0) && ValidName(newName) && ino != ROOT_INO
      modifies this`scratch, this`taken, this`full, this`freed, this`hint, this`working, this`files, dev
      ensures Took(Rename(old(View(files)), ino, newDir, newName, now), r)
      ensures r.Ok? ==> ino in View(files) && r.value == StatOf(ino, View(files)[ino])
    {
      hide Secured, Guarded, Owned, Content, InodeAt, View, FileOk, Device.Valid, Stored, Sound, Blocks, Entries,
        Linked, Shape, SetsOk, Move, IsInside, ValidName, Unlink;
      ghost var fs := View(files);
      var live := LiveInode(ino);
      if live.Err? {
        return Err(live.error);
      }
      var inode := live.value;
      var target := LiveInode(newDir);
      if target.Err? {
        return Err(target.error);
      }
      if target.value.kind != KIND_DIRECTORY {
        return Err(NotDirectory);
      }
      if inode.kind == KIND_DIRECTORY {
        var inside := IsInsideOf(newDir, ino);
        if inside.Err? {
          return Err(inside.error);
        }
        if inside.value {
          return Err(InvalidArgument);
        }
      }
      DirData(fs, 0, newDir);
      ContentSize(files[ino]);
      var found := DirFind(target.value.tree, newName, newDir);
      if found.Err? {
        return Err(found.error);
      }
      if found.value.Some? {
        var (existing, kind, k) := found.value.value;
        if existing == ino {
          return Ok(StatOfInode(ino, inode));
        }
        DisplaceShape(fs, ino, newDir, k, now);
        var done := DisplaceIn(ino, inode.kind, newDir, k, Entry(existing, kind, newName), now);
        if done.Err? {
          return Err(done.error);
        }
        DisplacedRest(fs, ino, newDir, k, now);
      }
      r := MoveIn(ino, inode, newDir, newName, now);
    }

    // ---------------------------------------------------------- public calls

    /** The state between calls. */
    ghost predicate Mounted()
      reads this, dev
    {
      Settled() && Shape(View(files), 0) && !inDoubt
    }

    /**
     A finished call against its specification. `before` is the device's log at
     the start, when volume `vol` of superblock `sb` was the current one. Every
     state since survives a power cut as `vol` or as what the call meant to leave.
     The call has taken effect, or it failed and changed nothing. Only when a
     superblock sector is left in flight is it open which, and then a power cut
     may leave either.
     */
    ghost predicate Applied<T>(spec: Result<Change>, r: Result<T>, sb: Super, vol: map<nat, File>, before: seq<Snapshot>)
      reads this, dev
    {
      && Recovers(crc, dev.log, before, sb, vol, tried, triedFiles)
      && (!inDoubt ==> Mounted())
      && (r.Ok? ==>
            && spec.Ok? && !inDoubt && View(files) == spec.value.fs
            && committed == tried && files == triedFiles && past == dev.log
            && committed.generation == sb.generation + 1)
      && (r.Err? ==> Excused(r.error) || spec == Err(r.error))
      && (r.Err? && !inDoubt ==> committed == sb && files == vol && past == before)
      && (inDoubt ==>
            && r == Err(Io) && spec.Ok? && TABLE in triedFiles && View(triedFiles) == spec.value.fs
            && EitherWay(crc, dev.Now(), sb, vol, tried, triedFiles))
    }

    /** Notes where in the device's log a call begins. */
    ghost method Begin()
      requires Steady() && !blank
      modifies this`past, this`full
      ensures Steady() && past == dev.log
    {
      hide Guarded;
      GuardedNow(crc, dev.view, dev.Now(), dev.log, past, used, committed, base);
      past, full := dev.log, false;
    }

    /** Commits what a body has done, or undoes it. */
    method End<T>(body: Result<T>, ghost spec: Result<Change>) returns (r: Result<T>)
      requires Took(spec, body) && !inDoubt && !blank && committed.generation + 1 < 0x1_0000_0000_0000_0000
      requires TABLE in base && Shape(View(base), 0)
      requires spec.Ok? ==> Shape(spec.value.fs, 0)
      modifies this, dev
      ensures r.Ok? ==> r == body && files == old(files)
      ensures Applied(spec, r, old(committed), old(base), old(past))
    {
      hide EitherWay, Recovers, View, Shape, Whole, Settled, Steady, Consistent;
      r := body;
      if body.Ok? {
        ConsistentTable();
        var done := Commit();
        if done.Ok? {
          return;
        }
        r := Err(done.error);
        if !inDoubt {
          SettledSteady();
        }
      } else {
        Untried();
      }
      Rollback();
    }

    lemma ConsistentTable()
      requires Consistent()
      ensures TABLE in files
    {
      hide Steady, Owned, Linked;
    }

    lemma SettledSteady()
      requires Settled()
      ensures Steady() && !blank && files == base
    {
      hide Steady, Owned, Linked;
    }

    /** A transaction that is not committed writes no block of the volume in force. */
    lemma Untried()
      requires Steady() && !blank
      ensures Recovers(crc, dev.log, past, committed, base, tried, triedFiles)
    {
      hide Guarded, Recovers, Device.Valid, SetsOk;
      GuardedRecovers(crc, dev.view, dev.Now(), dev.log, past, used, committed, base, tried, triedFiles);
    }

    /** An error is the device's, or one the call is to be refused with. */
    ghost predicate Answered<T>(fs: Fs, c: Call, r: Result<T>)
      reads `full
    {
      && (r.Ok? ==> forall e :: !Refused(fs, c, e))
      && (r.Err? ==> Excused(r.error) || Refused(fs, c, r.error))
    }

    /** What a finished call has done, or been refused for. */
    lemma CallMeans<T>(c: Call, r: Result<T>, fs: Fs, sb: Super, vol: map<nat, File>, before: seq<Snapshot>)
      requires Shape(fs, 0) && Applied(Spec(fs, c), r, sb, vol, before)
      ensures Answered(fs, c, r)
      ensures r.Ok? ==> Spec(fs, c).Ok? && TABLE in files && Effect(fs, c, View(files), Spec(fs, c).value.ino)
    {
      hide Recovers, View, Shape, Spec, Effect, Refused, EitherWay, Consistent, Steady;
      if r.Ok? {
        SpecEffect(fs, c);
        ConsistentTable();
        forall e ensures !Refused(fs, c, e) {
          SpecRefusal(fs, c, e);
        }
      } else {
        SpecRefusal(fs, c, r.error);
      }
    }

    method CreateEntry(dir: u32, name: seq<byte>, kind: byte, now: u64) returns (r: Result<Stat>)
      requires Mounted() && committed.generation + 1 < 0x1_0000_0000_0000_0000
      requires kind in {KIND_FILE, KIND_DIRECTORY}
      modifies this, dev
      ensures Applied(Create(old(View(files)), dir, name, kind, now), r, old(committed), old(files), old(dev.log))
      ensures r.Ok? ==> r.value.ino in View(files) && r.value == StatOf(r.value.ino, View(files)[r.value.ino])
      ensures r.Ok? ==> r.value.ino == Create(old(View(files)), dir, name, kind, now).value.ino
      ensures r.Ok? ==> Created(old(View(files)), View(files), r.value.ino, dir, name, kind == KIND_DIRECTORY, now)
      ensures Answered(old(View(files)), CallCreate(dir, name, kind == KIND_DIRECTORY, now), r)
    {
      hide Guarded, Owned, Linked, Recovers, View, Shape, Device.Valid, SetsOk, Entries, ValidName, FindName, FreeIno,
        IsInside, AllFree, Displace, Move, Unlink, Applied, Created, Removed, Renamed, CreateRefused, RemoveRefused,
        RenameRefused;
      Begin();
      ghost var fs := View(files);
      ghost var spec := Create(fs, dir, name, kind, now);
      GuardedRecovers(crc, dev.view, dev.Now(), dev.log, past, used, committed, base, tried, triedFiles);
      ghost var c := CallCreate(dir, name, kind == KIND_DIRECTORY, now);
      if !ValidName(name) {
        r := Err(InvalidName);
        Unstarted(spec, r);
        CallMeans(c, r, fs, old(committed), old(files), old(dev.log));
        return;
      }
      if spec.Ok? {
        CreateKeeps(fs, dir, name, kind, now);
      }
      var body := CreateIn(dir, name, kind, now);
      r := End(body, spec);
      CallMeans(c, r, fs, old(committed), old(files), old(dev.log));
    }

    /** A call refused before it begins. */
    lemma Unstarted<T>(spec: Result<Change>, r: Result<T>)
      requires Mounted() && r.Err? && spec == Err(r.error) && past == dev.log
      requires Recovers(crc, dev.log, past, committed, base, tried, triedFiles)
      ensures Applied(spec, r, committed, files, dev.log)
    {
      hide Recovers, View, Shape, Consistent, EitherWay;
    }

    method WriteFileAt(ino: u32, offset: nat, data: seq<byte>, now: u64) returns (r: Result<Stat>)
      requires Mounted() && committed.generation + 1 < 0x1_0000_0000_0000_0000
      requires offset + |data| < 0x1_0000_0000_0000_0000
      modifies this, dev
      ensures Applied(WriteAt(old(View(files)), ino, offset, data, now), r, old(committed), old(files), old(dev.log))
      ensures r.Ok? ==> ino in View(files) && r.value == StatOf(ino, View(files)[ino])
      ensures r.Ok? ==> Wrote(old(View(files)), View(files), ino, offset, data, now)
      ensures Answered(old(View(files)), CallWrite(ino, offset, data, now), r)
    {
      hide Guarded, Owned, Linked, Recovers, View, Shape, Device.Valid, SetsOk, WriteAt, Applied, Wrote, EditRefused;
      Begin();
      ghost var fs := View(files);
      ghost var spec := WriteAt(fs, ino, offset, data, now);
      if spec.Ok? {
        WriteKeeps(fs, ino, offset, data, now);
      }
      var body := WriteIn(ino, offset, data, now);
      r := End(body, spec);
      CallMeans(CallWrite(ino, offset, data, now), r, fs, old(committed), old(files), old(dev.log));
    }

    method TruncateTo(ino: u32, length: u64, now: u64) returns (r: Result<Stat>)
      requires Mounted() && committed.generation + 1 < 0x1_0000_0000_0000_0000
      modifies this, dev
      ensures Applied(Truncate(old(View(files)), ino, length, now), r, old(committed), old(files), old(dev.log))
      ensures r.Ok? ==> ino in View(files) && r.value == StatOf(ino, View(files)[ino])
      ensures r.Ok? ==> Truncated(old(View(files)), View(files), ino, length, now)
      ensures Answered(old(View(files)), CallTruncate(ino, length, now), r)
    {
      hide Guarded, Owned, Linked, Recovers, View, Shape, Device.Valid, SetsOk, Truncate, Applied, Truncated,
        EditRefused;
      Begin();
      ghost var fs := View(files);
      ghost var spec := Truncate(fs, ino, length, now);
      if spec.Ok? {
        TruncateKeeps(fs, ino, length, now);
      }
      var body := TruncateIn(ino, length, now);
      r := End(body, spec);
      CallMeans(CallTruncate(ino, length, now), r, fs, old(committed), old(files), old(dev.log));
    }

    method ChangeReadOnly(ino: u32, readOnly: bool) returns (r: Result<Stat>)
      requires Mounted() && committed.generation + 1 < 0x1_0000_0000_0000_0000
      modifies this, dev
      ensures Applied(SetReadOnly(old(View(files)), ino, readOnly), r, old(committed), old(files), old(dev.log))
      ensures r.Ok? ==> ino in View(files) && r.value == StatOf(ino, View(files)[ino])
      ensures r.Ok? ==>
        ino in old(View(files)) && Marked(old(View(files)), View(files), ino, readOnly, old(View(files))[ino].mode)
      ensures Answered(old(View(files)), CallReadOnly(ino, readOnly), r)
    {
      hide Guarded, Owned, Linked, Recovers, View, Shape, Device.Valid, SetsOk, Applied, Marked;
      Begin();
      ghost var fs := View(files);
      ghost var spec := SetReadOnly(fs, ino, readOnly);
      if spec.Ok? {
        AttributesKeep(fs, ino, readOnly, 0);
      }
      var body := SetReadOnlyIn(ino, readOnly);
      r := End(body, spec);
      CallMeans(CallReadOnly(ino, readOnly), r, fs, old(committed), old(files), old(dev.log));
    }

    method ChangeMode(ino: u32, mode: u16) returns (r: Result<Stat>)
      requires Mounted() && committed.generation + 1 < 0x1_0000_0000_0000_0000
      modifies this, dev
      ensures Applied(SetMode(old(View(files)), ino, mode), r, old(committed), old(files), old(dev.log))
      ensures r.Ok? ==> ino in View(files) && r.value == StatOf(ino, View(files)[ino])
      ensures r.Ok? ==>
        ino in old(View(files)) && Marked(old(View(files)), View(files), ino, old(View(files))[ino].readOnly, mode % 4096)
      ensures Answered(old(View(files)), CallMode(ino, mode), r)
    {
      hide Guarded, Owned, Linked, Recovers, View, Shape, Device.Valid, SetsOk, Applied, Marked;
      Begin();
      ghost var fs := View(files);
      ghost var spec := SetMode(fs, ino, mode);
      if spec.Ok? {
        AttributesKeep(fs, ino, false, mode);
      }
      var body := SetModeIn(ino, mode);
      r := End(body, spec);
      CallMeans(CallMode(ino, mode), r, fs, old(committed), old(files), old(dev.log));
    }

    method RemoveEntry(ino: u32, now: u64) returns (r: Result<()>)
      requires Mounted() && committed.generation + 1 < 0x1_0000_0000_0000_0000
      modifies this, dev
      ensures Applied(Remove(old(View(files)), ino, now), r, old(committed), old(files), old(dev.log))
      ensures r.Ok? ==> Removed(old(View(files)), View(files), ino, now)
      ensures Answered(old(View(files)), CallRemove(ino, now), r)
    {
      hide Guarded, Owned, Linked, Recovers, View, Shape, Device.Valid, SetsOk, Entries, ValidName, FindName, FreeIno,
        IsInside, AllFree, Displace, Move, Unlink, Applied, Created, Removed, Renamed, CreateRefused, RemoveRefused,
        RenameRefused;
      Begin();
      ghost var fs := View(files);
      ghost var spec := Remove(fs, ino, now);
      GuardedRecovers(crc, dev.view, dev.Now(), dev.log, past, used, committed, base, tried, triedFiles);
      ghost var c := CallRemove(ino, now);
      if ino == ROOT_INO {
        r := Err(InvalidArgument);
        Unstarted(spec, r);
        CallMeans(c, r, fs, old(committed), old(files), old(dev.log));
        return;
      }
      if spec.Ok? {
        RemoveKeeps(fs, ino, now);
      }
      var body := RemoveIn(ino, now);
      r := End(body, spec);
      CallMeans(c, r, fs, old(committed), old(files), old(dev.log));
    }

    method RenameEntry(ino: u32, newDir: u32, newName: seq<byte>, now: u64) returns (r: Result<Stat>)
      requires Mounted() && committed.generation + 1 < 0x1_0000_0000_0000_0000
      modifies this, dev
      ensures Applied(Rename(old(View(files)), ino, newDir, newName, now), r, old(committed), old(files), old(dev.log))
      ensures r.Ok? ==> ino in View(files) && r.value == StatOf(ino, View(files)[ino])
      ensures r.Ok? ==> Renamed(old(View(files)), View(files), ino, newDir, newName, now)
      ensures Answered(old(View(files)), CallRename(ino, newDir, newName, now), r)
    {
      hide Guarded, Owned, Linked, Recovers, View, Shape, Device.Valid, SetsOk, Entries, ValidName, FindName, FreeIno,
        IsInside, AllFree, Displace, Move, Unlink, Applied, Created, Removed, Renamed, CreateRefused, RemoveRefused,
        RenameRefused;
      Begin();
      ghost var fs := View(files);
      ghost var spec := Rename(fs, ino, newDir, newName, now);
      GuardedRecovers(crc, dev.view, dev.Now(), dev.log, past, used, committed, base, tried, triedFiles);
      ghost var c := CallRename(ino, newDir, newName, now);
      if !ValidName(newName) || ino == ROOT_INO {
        r := Err(if !ValidName(newName) then InvalidName else InvalidArgument);
        Unstarted(spec, r);
        CallMeans(c, r, fs, old(committed), old(files), old(dev.log));
        return;
      }
      if spec.Ok? {
        RenameKeeps(fs, ino, newDir, newName, now);
      }
      var body := RenameIn(ino, newDir, newName, now);
      r := End(body, spec);
      CallMeans(c, r, fs, old(committed), old(files), old(dev.log));
    }

    // ----------------------------------------------------------------- mount

    /** Marks the blocks of a tree as used, each of which must be marked only once. */
    method MarkNode(ptr: Ptr, level: nat, verifyData: bool, ghost good: bool, ghost n: Node) returns (r: Result<()>)
      requires SetsOk() && taken == {} && freed == {} && dev.Valid() && working.blocks <= dev.blocks
      requires level <= MAX_HEIGHT && (good ==> Points(ptr, n) && Readable(n, level) && Blocks(n) !! used)
      modifies this`scratch, this`used
      ensures SetsOk()
      ensures forall l :: level < l < 4 ==> scratch[l] == old(scratch[l])
      ensures r.Err? ==> r.error == Io || (r.error == Corrupt && !good)
      ensures r == Err(Io) ==> !dev.reliable
      ensures good && r.Ok? ==> used == old(used) + Blocks(n)
      decreases level
    {
      hide Steady, Device.Valid, Sound, Stored, Blocks, KidBlocks, GetPtr, Points;
      if good {
        NodeFacts(crc, dev.view, n, level, ptr);
      }
      if ptr.block == 0 {
        return Ok(());
      }
      if ptr.block < 2 || ptr.block >= working.blocks || ptr.block in used {
        return Err(Corrupt);
      }
      used := used + {ptr.block as nat};
      if level > 0 {
        r := ReadChecked(ptr, level);
        if r.Err? {
          return;
        }
        ghost var kids := if good then n.kids else Holes();
        assert KidBlocks(kids[..0]) == {} by { NoKids(kids[..0]); }
        for child := 0 to FANOUT
          invariant SetsOk() && (good ==> scratch[level] == n.raw)
          invariant forall l :: level < l < 4 ==> scratch[l] == old(scratch[l])
          invariant good ==> used == old(used) + {ptr.block as nat} + KidBlocks(kids[..child])
        {
          if good {
            KidFacts(crc, dev.view, n, level, child);
          }
          var pointer := GetPtr(scratch[level], child);
          r := MarkNode(pointer, level - 1, verifyData, good, kids[child]);
          if r.Err? {
            return;
          }
        }
        assert kids[..FANOUT] == kids;
      } else if verifyData {
        r := ReadChecked(ptr, 0);
        if r.Err? {
          return;
        }
      }
      return Ok(());
    }

    /** Marks every block of the volume. */
    method Scan(ghost good: bool) returns (r: Result<()>)
      requires SetsOk() && taken == {} && freed == {} && used == {0, 1} && dev.Valid()
      requires working.blocks <= dev.blocks && working.inodes.height <= MAX_HEIGHT && TABLE in files
      requires good ==> exists live :: Whole(crc, dev.view, live, working, files)
      modifies this`scratch, this`used
      ensures SetsOk()
      ensures r.Err? ==> r.error == Io || (r.error == Corrupt && !good)
      ensures r == Err(Io) ==> !dev.reliable
      ensures good && r.Ok? ==> Whole(crc, dev.view, used - {0, 1}, working, files)
    {
      hide Device.Valid, Sound, Stored, Blocks, Points, Reached, Content, ZeroPast, InodeAt, LiveIno, Whole;
      ghost var live: set<nat> := {};
      ghost var table' := files[TABLE];
      if good {
        live :| Whole(crc, dev.view, live, working, files);
        WholeParts(crc, dev.view, live, working, files, TABLE);
        ReachedNone(files);
        ReachedStep(files, TABLE);
      }
      var table := working.inodes;
      r := MarkNode(table.root, table.height, false, good, files[TABLE].node);
      if r.Err? {
        return;
      }
      var slots := table.size / INODE_SIZE;
      var limit := if slots <= MAX_INODES + 1 then slots else MAX_INODES + 1;
      ghost var end := if limit < 1 then 1 else limit;
      for ino := 1 to if limit < 1 then 1 else limit
        invariant SetsOk() && (good ==> used == {0, 1} + Reached(files, ino))
      {
        if good {
          WholeParts(crc, dev.view, live, working, files, TABLE);
          ReachedStep(files, ino);
        }
        var inode := GetInode(ino, good);
        if inode.Err? {
          return Err(inode.error);
        }
        if inode.value.kind != KIND_FREE {
          ghost var node := Hole;
          if good {
            WholeRecord(crc, dev.view, live, working, files, ino);
            WholeParts(crc, dev.view, live, working, files, ino);
            node := files[ino].node;
          }
          r := MarkNode(inode.value.tree.root, inode.value.tree.height, false, good, node);
          if r.Err? {
            return;
          }
        } else if good {
          WholeRecord(crc, dev.view, live, working, files, ino);
        }
      }
      if good {
        WholeReached(crc, dev.view, live, working, files, end);
        assert used - {0, 1} == live;
      }
      return Ok(());
    }

    /** Forgets everything but the superblock given. */
    method Reset(sb: Super, ghost vol: map<nat, File>, ghost isBlank: bool)
      modifies this
      ensures committed == working == sb && used == {0, 1} && taken == {} && freed == {}
      ensures files == base == vol && !inDoubt && blank == isBlank && scratch == old(scratch)
    {
      committed, working := sb, sb;
      used, taken, freed, hint := {0, 1}, {}, {}, 2;
      files, base, inDoubt, blank := vol, vol, false, isBlank;
    }

    /** Reads both superblock slots, of which those in `readable` can be read, and picks the newer superblock. */
    method ChooseSuper() returns (best: Option<Super>, ghost readable: set<nat>)
      requires dev.Valid() && dev.blocks >= 2
      ensures best.Some? ==>
        && 16 <= best.value.blocks <= dev.blocks && best.value.blocks <= MAX_BLOCKS
        && |best.value.volumeLabel| == 16 && best.value.inodes.height <= MAX_HEIGHT
      ensures best == PickAmong(crc, dev.view, readable)
      ensures readable <= {0, 1} && (dev.reliable ==> readable == {0, 1})
    {
      hide DecodeSuper;
      best, readable := None, {};
      for slot := 0 to 2
        invariant best.Some? ==>
          && 16 <= best.value.blocks <= dev.blocks && best.value.blocks <= MAX_BLOCKS
          && |best.value.volumeLabel| == 16 && best.value.inodes.height <= MAX_HEIGHT
        invariant |dev.view| == dev.blocks && forall k :: k in readable ==> 0 <= k < slot
        invariant dev.reliable ==> forall k: nat :: k < slot ==> k in readable
        invariant slot == 0 ==> best == None
        invariant slot == 1 ==> best == SlotCandidate(crc, dev.view, readable, 0)
        invariant slot == 2 ==> best == PickAmong(crc, dev.view, readable)
      {
        var ok, sector := dev.ReadSector(slot);
        if ok {
          readable := readable + {slot};
          SuperFits(crc, sector);
          var candidate := DecodeSuper(crc, sector);
          if candidate.Some? && candidate.value.blocks <= dev.blocks && candidate.value.blocks <= MAX_BLOCKS
             && candidate.value.blocks >= 16
             && (best.None? || candidate.value.generation > best.value.generation)
          {
            best := candidate;
          }
        }
      }
    }

    /**
     Mounts the device, which holds the volume `vol` of superblock `sb`. If the
     slot of `sb` can be read, that is the volume mounted and its blocks are
     exactly those in use. If it cannot, the superblock in the other slot is
     taken; when the older volume `prev` it names is still whole, that one is
     in force, and its blocks exactly those in use.
     */
    method Load(ghost sb: Super, ghost vol: map<nat, File>, ghost prev: map<nat, File>)
      returns (r: Result<()>, ghost readable: set<nat>)
      requires dev.Valid() && dev.pending == [] && dev.blocks >= 2 && |scratch| == 4
      requires TABLE in vol && Mounts(crc, dev.view, sb, vol) && Shape(View(vol), 0) && TABLE in prev
      modifies this
      ensures readable <= {0, 1} && (dev.reliable ==> readable == {0, 1} && r.Ok?)
      ensures r == Err(BadSuperblock) <==> PickAmong(crc, dev.view, readable).None?
      ensures r != Err(BadSuperblock) ==> Some(committed) == PickAmong(crc, dev.view, readable)
      ensures r != Err(BadSuperblock) ==> (committed == sb <==> sb.generation % 2 in readable)
      ensures sb.generation % 2 in readable ==>
        if r.Ok? then Mounted() && files == vol && past == dev.log else r.error == Io
      ensures sb.generation % 2 !in readable && r != Err(BadSuperblock) && InForce(committed, prev) ==>
        if r.Ok? then files == prev && Whole(crc, dev.view, used - {0, 1}, committed, prev) else r.error == Io
    {
      hide Device.Valid, Whole, Guarded, Shape, View, SlotsOk, PickAmong, Settled;
      var best;
      best, readable := ChooseSuper();
      CurrentTaken(crc, dev.view, sb, readable);
      if best.None? {
        return Err(BadSuperblock), readable;
      }
      ghost var current := sb.generation % 2 in readable;
      Reset(best.value, if current then vol else prev, false);
      r := Scan(current || InForce(best.value, prev));
      if current && r.Ok? {
        Settle();
      }
    }

    /** The device holds the volume `vol` of superblock `sb`, which need not be the current one. */
    ghost predicate InForce(sb: Super, vol: map<nat, File>)
      reads dev
    {
      exists live :: Whole(crc, dev.view, live, sb, vol)
    }

    /** A volume just read back is guarded from here on. */
    ghost method Settle()
      requires SetsOk() && dev.Valid() && dev.pending == []
      requires 16 <= working.blocks <= dev.blocks && |working.volumeLabel| == 16
      requires working == committed && files == base && taken == {} && freed == {} && !blank
      requires SlotsOk(crc, dev.view, committed) && Whole(crc, dev.view, used - {0, 1}, committed, base)
      modifies this`past
      ensures Settled() && past == dev.log
    {
      hide Device.Valid, Guarded, Owned, Linked, SlotsOk, Whole;
      NoneUnflushed();
      past := dev.log;
      LoadGuards(crc, dev.view, used, committed, base, dev.log);
      SettledNow();
    }

    lemma NoneUnflushed()
      requires dev.Valid() && dev.pending == []
      ensures dev.durable == dev.view && dev.Now() == Snapshot(dev.view, []) && |dev.log| > 0
      ensures dev.log[|dev.log| - 1] == dev.Now() && |dev.view| == dev.blocks
    {
      forall b | 0 <= b < |dev.view| ensures dev.view[b] == dev.durable[b] {
        assert Untouched(dev.pending, b);
      }
    }

    lemma SettledNow()
      requires SetsOk() && dev.Valid() && 16 <= working.blocks == committed.blocks <= dev.blocks
      requires |committed.volumeLabel| == 16 && working == committed && files == base && taken == {} && freed == {} && !blank
      requires Guarded(crc, dev.view, dev.Now(), dev.log, past, used, committed, base)
      ensures Settled()
    {
      hide Device.Valid, Guarded, Owned, Linked;
      GuardedWhole(crc, dev.view, dev.Now(), dev.log, past, used, committed, base);
      LinkedTable(base);
      assert Live() == used - {0, 1};
    }

    // ---------------------------------------------------------------- format

    method WipeSlots() returns (ok: bool)
      requires dev.Valid() && dev.blocks >= 2
      modifies dev
      ensures dev.Valid() && (ok ==> Blanked(dev.view)) && (dev.reliable ==> ok)
    {
      ok := dev.WriteSector(0, Zeros(SECTOR));
      if ok {
        ok := dev.WriteSector(1, Zeros(SECTOR));
        assert ok ==> dev.view[0][..SECTOR] == Zeros(SECTOR) && dev.view[1][..SECTOR] == Zeros(SECTOR);
      }
    }

    lemma BlankVolume()
      requires dev.Valid() && 16 <= dev.blocks <= MAX_BLOCKS && |scratch| == 4 && Blanked(dev.view)
      requires working == committed && working.blocks == dev.blocks && working.inodes == EMPTY_TREE
      requires |working.volumeLabel| == 16 && used == {0, 1} && taken == {} && freed == {}
      requires blank && files == map[TABLE := EMPTY_FILE]
      ensures Consistent() && View(files) == map[]
    {
      hide Owned, Linked, Device.Valid, View;
      EmptyVolume(crc, dev.view, files);
      EmptyView(files);
      assert Live() == {};
    }

    /** Formats the device and leaves an empty volume mounted. */
    method FormatHere(volumeLabel: seq<byte>, now: u64) returns (r: Result<()>)
      requires dev.Valid() && |scratch| == 4
      modifies this, dev
      ensures r == Err(InvalidArgument) <==> !(16 <= dev.blocks <= MAX_BLOCKS)
      ensures r.Err? ==> r.error in {InvalidArgument, NoSpace, Io}
      ensures r == Err(Io) ==> !dev.reliable
      ensures r == Err(NoSpace) ==> full
      ensures r.Ok? ==>
        && Mounted() && committed.generation == 1 && committed.blocks == dev.blocks
        && committed.volumeLabel == Slice(volumeLabel + Zeros(16), 0, 16)
        && View(files) == map[ROOT_INO as nat := Meta(KIND_DIRECTORY, false, 493, ROOT_INO, now, [])]
    {
      hide Secured, Guarded, Owned, Linked, View, Shape, Anchored, Recovers, Settled, Device.Valid, SetsOk, Blanked,
        Consistent;
      var blocks := dev.blocks;
      if blocks < 16 || blocks > MAX_BLOCKS {
        return Err(InvalidArgument);
      }
      var ok := WipeSlots();
      if !ok {
        return Err(Io);
      }
      var name := volumeLabel + Zeros(16);
      Reset(Super(0, blocks, EMPTY_TREE, name[..16]), map[TABLE := EMPTY_FILE], true);
      BlankVolume();
      var root := Inode(KIND_DIRECTORY, false, 493, ROOT_INO, now, EMPTY_TREE);
      r := PutNew(ROOT_INO, root);
      if r.Ok? {
        r := Commit();
      }
      if r.Ok? {
        RootShape(map[ROOT_INO as nat := Meta(KIND_DIRECTORY, false, 493, ROOT_INO, now, [])], 493, now);
      } else {
        Rollback();
      }
    }

    // --------------------------------------------------------------- queries

    method Find(dir: u32, name: seq<byte>) returns (r: Result<Stat>)
      requires Mounted()
      modifies this`scratch
      ensures Mounted()
      ensures r.Ok? ==>
        exists e :: e in Names(View(files)) && e.0 == dir && e.1.name == name && e.1.ino in View(files)
                    && r.value == StatOf(e.1.ino, View(files)[e.1.ino])
      ensures r.Err? ==>
        || r.error == Io
        || (r.error == NotDirectory && dir in View(files) && !IsDir(View(files), dir))
        || (r.error == NotFound && forall e :: e in Names(View(files)) ==> e.0 != dir || e.1.name != name)
      ensures r == Err(Io) ==> !dev.reliable
    {
      hide Secured, Guarded, Owned, Content, InodeAt, View, FileOk, Device.Valid, Stored, Sound, Blocks, Entries,
        Linked, Shape, SetsOk, Used, Names;
      ghost var fs := View(files);
      var directory := LiveInode(dir);
      if directory.Err? {
        NoDirectory(fs, dir);
        return Err(directory.error);
      }
      if directory.value.kind != KIND_DIRECTORY {
        return Err(NotDirectory);
      }
      DirData(fs, 0, dir);
      var found := DirFind(directory.value.tree, name, dir);
      if found.Err? {
        return Err(found.error);
      }
      if found.value.None? {
        Unnamed(fs, dir, name);
        return Err(NotFound);
      }
      var (ino, _, k) := found.value.value;
      SlotNamed(fs, dir, k);
      var live := LiveInode(ino);
      if live.Err? {
        return Err(live.error);
      }
      ContentSize(files[ino]);
      return Ok(StatOfInode(ino, live.value));
    }

    method ReadAt(ino: u32, offset: nat, out: seq<byte>) returns (r: Result<nat>, filled: seq<byte>)
      requires Mounted()
      modifies this`scratch
      ensures Mounted()
      ensures r.Ok? ==>
        && ino in View(files) && !IsDir(View(files), ino)
        && r.value == |Slice(View(files)[ino].data, offset, |out|)| <= |out|
        && filled == Slice(View(files)[ino].data, offset, |out|) + out[r.value..]
        && Reads(View(files)[ino].data, offset, out, r.value, filled)
      ensures r.Err? ==>
        || r.error == Io
        || (r.error == NotFound && ino !in View(files))
        || (r.error == IsDirectory && IsDir(View(files), ino))
      ensures r == Err(Io) ==> !dev.reliable
    {
      hide Secured, Guarded, Owned, Content, InodeAt, View, Device.Valid, Stored, Sound, Blocks, Linked, Shape, Slice,
        ZeroPast, Points, Reads;
      filled := out;
      var live := LiveInode(ino);
      if live.Err? {
        return Err(live.error), out;
      }
      if live.value.kind == KIND_DIRECTORY {
        return Err(IsDirectory), out;
      }
      WorkingReadable(ino);
      r, filled := TreeRead(live.value.tree, offset, out, true, files[ino]);
      SliceReads(Content(files[ino]), offset, out);
    }

    // ------------------------------------------------------------------ runs

    method Perform(c: Call) returns (r: Result<()>)
      requires Mounted() && committed.generation + 1 < 0x1_0000_0000_0000_0000
      requires c.CallWrite? ==> c.offset + |c.data| < 0x1_0000_0000_0000_0000
      modifies this, dev
      ensures Applied(Spec(old(View(files)), c), r, old(committed), old(files), old(dev.log))
    {
      hide Mounted, Recovers, View, Create, WriteAt, Truncate, SetReadOnly, SetMode, Remove, Rename;
      match c
      case CallCreate(dir, name, directory, now) =>
        var s := CreateEntry(dir, name, KindOf(directory), now);
        r := WithoutValue(s);
      case CallWrite(ino, offset, data, now) =>
        var s := WriteFileAt(ino, offset, data, now);
        r := WithoutValue(s);
      case CallTruncate(ino, length, now) =>
        var s := TruncateTo(ino, length, now);
        r := WithoutValue(s);
      case CallReadOnly(ino, readOnly) =>
        var s := ChangeReadOnly(ino, readOnly);
        r := WithoutValue(s);
      case CallMode(ino, mode) =>
        var s := ChangeMode(ino, mode);
        r := WithoutValue(s);
      case CallRemove(ino, now) =>
        r := RemoveEntry(ino, now);
      case CallRename(ino, newDir, newName, now) =>
        var s := RenameEntry(ino, newDir, newName, now);
        r := WithoutValue(s);
    }

    /**
     Any run of calls. `history` is the volume before each call and after the
     last; `at` is where in the device's log each begins. Whatever a call's
     states leave after a power cut is the volume before it or after it. A run
     goes on past calls that fail, unless one leaves a superblock sector in
     flight: then a power cut may leave the volume before it or after it.
     */
    method Run(calls: seq<Call>) returns (results: seq<Result<()>>, ghost history: seq<Volume>, ghost at: seq<nat>)
      requires Mounted() && committed.generation + |calls| < 0x1_0000_0000_0000_0000
      requires forall c :: c in calls && c.CallWrite? ==> c.offset + |c.data| < 0x1_0000_0000_0000_0000
      modifies this, dev
      ensures Chronicle(crc, calls, results, history, at, dev.log, inDoubt)
      ensures history[0] == Volume(old(committed), old(files)) && at[0] == |old(dev.log)|
      ensures !inDoubt ==> Mounted() && history[|results|] == Volume(committed, files)
      ensures |results| == |calls| || inDoubt
      ensures inDoubt ==> results != [] && InDoubtBetween(history[|results| - 1], history[|results|])
      ensures dev.reliable ==> |results| == |calls| && !inDoubt && Err(Io) !in results
    {
      hide Mounted, View, Spec, Step, Covered, Applied, InDoubtBetween;
      results, history, at := [], [Volume(committed, files)], [|dev.log|];
      MountedFacts();
      while |results| < |calls| && !inDoubt
        invariant Chronicle(crc, calls, results, history, at, dev.log, inDoubt)
        invariant history[0] == Volume(old(committed), old(files)) && at[0] == |old(dev.log)|
        invariant !inDoubt ==> Mounted() && history[|results|] == Volume(committed, files)
        invariant !inDoubt ==> committed.generation <= old(committed.generation) + |results|
        invariant inDoubt ==> results != [] && InDoubtBetween(history[|results| - 1], history[|results|])
        invariant dev.reliable ==> !inDoubt && Err(Io) !in results
        decreases |calls| - |results|
      {
        var n := |results|;
        MountedFacts();
        ghost var fs, log, v := View(files), dev.log, history[n];
        var r := Perform(calls[n]);
        ghost var v' := AppliedStep(calls[n], r, v, fs, log);
        ChronicleMore(crc, calls, results, history, at, log, r, v', dev.log, inDoubt);
        results, history, at := results + [r], history + [v'], at + [|dev.log|];
      }
    }

    /** A power cut now may leave either volume. */
    ghost predicate InDoubtBetween(v: Volume, v': Volume)
      reads dev
    {
      EitherWay(crc, dev.Now(), v.sb, v.files, v'.sb, v'.files)
    }

    lemma MountedFacts()
      requires Mounted()
      ensures WellFormed(Volume(committed, files)) && !inDoubt
    {
    }

    /** What a finished call adds to a run. */
    lemma AppliedStep(c: Call, r: Result<()>, v: Volume, fs: Fs, log: seq<Snapshot>) returns (v': Volume)
      requires WellFormed(v) && View(v.files) == fs
      requires Applied(Spec(fs, c), r, v.sb, v.files, log)
      ensures Step(c, r, v, v', inDoubt) && WellFormed(v') && log <= dev.log
      ensures Covered(crc, dev.log, |log|, |dev.log|, v, v')
      ensures !inDoubt ==> v' == Volume(committed, files) && Mounted()
      ensures !inDoubt ==> committed.generation <= v.sb.generation + 1
      ensures inDoubt ==> r == Err(Io) && InDoubtBetween(v, v')
      ensures r == Err(Io) ==> !dev.reliable
    {
      hide EitherWay, Guarded, SurvivesEither, View, Spec, Device.Valid, Owned, Linked, Shape, SetsOk, Effect, Refused;
      SpecNotIo(fs, c);
      if Spec(fs, c).Ok? {
        CallKeeps(fs, c);
        SpecEffect(fs, c);
      } else {
        SpecRefusal(fs, c, Spec(fs, c).error);
      }
      if inDoubt {
        v' := Volume(tried, triedFiles);
      } else {
        v' := Volume(committed, files);
        if r.Err? {
          GuardedRecovers(crc, dev.view, dev.Now(), dev.log, past, used, committed, base, committed, base);
        }
      }
    }

    // ------------------------------------------------------------------ fsck

    /** What a check needs to run, on a volume in any state. */
    ghost predicate Sane()
      reads `working, `scratch, `used, `taken, `freed, dev
    {
      SetsOk() && |scratch| == 4 && dev.Valid() && working.blocks <= dev.blocks && working.inodes.height <= MAX_HEIGHT
    }

    /**
     Checks one tree: checksums, and that no block is met twice. An intact tree
     adds no damage to the report, and a tree that adds none is intact.
     */
    method CheckNode(ptr: Ptr, level: nat, seen: set<nat>, report: Report, ghost good: bool, ghost n: Node)
      returns (seen': set<nat>, report': Report, ghost clean: bool, ghost found: Node)
      requires Sane() && level <= MAX_HEIGHT
      requires good ==> Intact(crc, dev.view, working.blocks, ptr, n, level) && Blocks(n) !! seen
      modifies this`scratch
      ensures Sane()
      ensures forall l :: level < l < 4 ==> scratch[l] == old(scratch[l])
      ensures SameButTrees(report, report') && Harm(report') >= Harm(report)
      ensures Harm(report') == Harm(report) ==>
        && Intact(crc, dev.view, working.blocks, ptr, found, level)
        && Blocks(found) !! seen && seen' == seen + Blocks(found)
        && Counted(report') - Counted(report) == |seen'| - |seen|
      ensures good && clean ==> Harm(report') == Harm(report)
      ensures dev.reliable && good ==> clean
      decreases level, 1
    {
      hide Steady, SetsOk, Device.Valid, Blocks, KidBlocks, Intact, KidsIntact;
      dev.Sized();
      seen', report', clean, found := seen, report, true, Hole;
      if good {
        IntactFacts(crc, dev.view, working.blocks, ptr, n, level);
      }
      if ptr.block == 0 {
        HoleIntact(crc, dev.view, working.blocks, ptr, level);
        return;
      }
      if ptr.block < 2 || ptr.block >= working.blocks {
        report' := report'.(badChecksums := report'.badChecksums + 1);
        return;
      }
      if ptr.block in seen {
        report' := report'.(doubleReferences := report'.doubleReferences + 1);
        return;
      }
      seen' := seen' + {ptr.block as nat};
      var read := ReadChecked(ptr, level);
      if read.Err? {
        report' := report'.(badChecksums := report'.badChecksums + 1);
        clean := false;
        return;
      }
      if level == 0 {
        report' := report'.(dataBlocks := report'.dataBlocks + 1);
        found := Leaf(ptr, dev.view[ptr.block]);
        LeafIntact(crc, dev.view, working.blocks, ptr);
        return;
      }
      report' := report'.(treeBlocks := report'.treeBlocks + 1);
      seen', report', clean, found := CheckKids(ptr, level, seen', report', good, n);
    }

    /** The part of a check that goes through a node's children. */
    method CheckKids(ptr: Ptr, level: nat, seen: set<nat>, report: Report, ghost good: bool, ghost n: Node)
      returns (seen': set<nat>, report': Report, ghost clean: bool, ghost found: Node)
      requires Sane() && 0 < level <= MAX_HEIGHT
      requires ptr.block as nat in seen && 2 <= ptr.block < working.blocks
      requires scratch[level] == dev.view[ptr.block] && crc(dev.view[ptr.block]) == ptr.crc
      requires good ==> Intact(crc, dev.view, working.blocks, ptr, n, level) && (Blocks(n) - {ptr.block as nat}) !! seen
      modifies this`scratch
      ensures Sane()
      ensures forall l :: level < l < 4 ==> scratch[l] == old(scratch[l])
      ensures SameButTrees(report, report') && Harm(report') >= Harm(report)
      ensures Harm(report') == Harm(report) ==>
        && Intact(crc, dev.view, working.blocks, ptr, found, level) && ptr.block as nat in Blocks(found)
        && (Blocks(found) - {ptr.block as nat}) !! seen && seen' == seen + Blocks(found)
        && Counted(report') - Counted(report) == |seen'| - |seen|
      ensures good && clean ==> Harm(report') == Harm(report)
      ensures dev.reliable && good ==> clean
      decreases level, 0
    {
      hide Steady, SetsOk, Device.Valid, Blocks, KidBlocks, GetPtr, Intact, KidsIntact, KidsMet, Counted;
      dev.Sized();
      seen', report', clean := seen, report, true;
      ghost var raw, made: seq<Node> := scratch[level], [];
      KidsMetNone(crc, dev.view, working.blocks, raw, level - 1, seen, report);
      if good {
        IntactFacts(crc, dev.view, working.blocks, ptr, n, level);
      }
      for child := 0 to FANOUT
        invariant Sane() && scratch[level] == raw
        invariant forall l :: level < l < 4 ==> scratch[l] == old(scratch[l])
        invariant |made| == child && SameButTrees(report, report') && Harm(report') >= Harm(report)
        invariant KidsMet(crc, dev.view, working.blocks, raw, made, level - 1, seen, report, seen', report')
        invariant good && clean ==> Harm(report') == Harm(report) && made == n.kids[..child]
        invariant dev.reliable && good ==> clean
      {
        ghost var known, mid, middle := good && clean, seen', report';
        if known {
          KidAhead(crc, dev.view, working.blocks, ptr, n, level, child, seen);
          KidsMetFacts(crc, dev.view, working.blocks, raw, made, level - 1, seen, report, seen', report');
        }
        var pointer := GetPtr(scratch[level], child);
        ghost var ok, kid := true, Hole;
        seen', report', ok, kid := CheckNode(pointer, level - 1, seen', report', known, if known then n.kids[child] else Hole);
        KidsMetMore(crc, dev.view, working.blocks, raw, made, level - 1, seen, report, mid, middle, kid, seen', report');
        if known && ok {
          IntactUnique(crc, dev.view, working.blocks, pointer, kid, n.kids[child], level - 1);
          assert n.kids[..child + 1] == n.kids[..child] + [n.kids[child]];
        }
        made := made + [kid];
        clean := clean && ok;
      }
      found := Inner(ptr, raw, made);
      if Harm(report') == Harm(report) {
        KidsMetFacts(crc, dev.view, working.blocks, raw, made, level - 1, seen, report, seen', report');
        InnerIntact(crc, dev.view, working.blocks, ptr, made, level);
      }
    }

    /** While no tree has been found harmed: the trees of the table and of the inodes below `n`, each counted. */
    ghost predicate Tallied(n: nat, seen: set<nat>, report: Report, found: map<nat, File>)
      reads `working, dev
    {
      Harm(report) == 0 ==>
        && Surveyed(crc, dev.view, working, found, n) && seen == Superblocks() + OwnedBy(found)
        && Counted(report) == |seen| - 2 && report.files + report.directories == |found| - 1
    }

    /** The table of a volume, if it is known. */
    ghost function TableOf(known: bool, vol: map<nat, File>): File
      requires known ==> TABLE in vol
    {
      if known then vol[TABLE] else EMPTY_FILE
    }

    /** Checks the tree of one inode, if it is in use. */
    method CheckInode(ino: nat, seen: set<nat>, report: Report, ghost found: map<nat, File>,
                      ghost good: bool, ghost vol: map<nat, File>)
      returns (seen': set<nat>, report': Report, ghost found': map<nat, File>, ghost clean: bool)
      requires Sane() && 1 <= ino < Slots(working) && Tallied(ino, seen, report, found)
      requires good ==> Surveyed(crc, dev.view, working, vol, Slots(working)) && Harm(report) == 0
      modifies this`scratch
      ensures Sane() && Tallied(ino + 1, seen', report', found')
      ensures SameButTrees(report.(files := report'.files, directories := report'.directories), report')
      ensures Harm(report') >= Harm(report)
      ensures good && clean ==> Harm(report') == 0
      ensures dev.reliable && good ==> clean
    {
      hide SetsOk, Device.Valid, Surveyed, Content, InodeAt, Intact, Blocks, OwnedBy, Slots, Points, Readable,
        Superblocks;
      seen', report', found', clean := seen, report, found, true;
      ghost var known := Harm(report) == 0;
      if known {
        SurveyedTable(found, ino);
      }
      if good {
        InodeAhead(crc, dev.view, working, vol, Slots(working), found, ino, seen);
      }
      var inode := GetRecord(ino, known, TableOf(known, found));
      if inode.Err? {
        report' := report'.(badChecksums := report'.badChecksums + 1);
        clean := false;
        return;
      }
      if inode.value.kind == KIND_FREE {
        if known {
          SurveySkip(crc, dev.view, working, found, ino);
        }
        return;
      }
      if inode.value.kind == KIND_DIRECTORY {
        report' := report'.(directories := report'.directories + 1);
      } else {
        report' := report'.(files := report'.files + 1);
      }
      ghost var node := Hole;
      var tree := inode.value.tree;
      seen', report', clean, node := CheckNode(tree.root, tree.height, seen', report', good,
                                               if good then vol[ino].node else Hole);
      if Harm(report') == 0 {
        SurveyAdd(crc, dev.view, working, found, ino, File(tree, node));
        found' := found[ino := File(tree, node)];
      }
    }

    lemma SurveyedTable(vol: map<nat, File>, n: nat)
      requires Surveyed(crc, dev.view, working, vol, n)
      ensures TABLE in vol && vol[TABLE].tree == working.inodes
      ensures Points(working.inodes.root, vol[TABLE].node) && Readable(vol[TABLE].node, working.inodes.height)
    {
      hide Sound, Stored, Points, Blocks, Content, InodeAt;
    }

    /** First pass of a check: every tree, and how many files and directories there are. */
    method CheckTrees(ghost good: bool, ghost vol: map<nat, File>)
      returns (seen: set<nat>, report: Report, ghost found: map<nat, File>, ghost clean: bool)
      requires Sane() && (good ==> Surveyed(crc, dev.view, working, vol, Slots(working)))
      modifies this`scratch
      ensures Sane() && Tallied(Slots(working), seen, report, found)
      ensures report.badEntries == report.mapMismatches == report.orphans == 0
      ensures good && clean ==> Harm(report) == 0
      ensures dev.reliable && good ==> clean
    {
      hide SetsOk, Device.Valid, Surveyed, Intact, Blocks, OwnedBy, Slots, Tallied, TableOnly, Superblocks, Counted,
        EmptyReport, Harm;
      var table := working.inodes;
      ghost var node := Hole;
      if good {
        SurveyedFirst(vol, Slots(working));
      }
      var first := Superblocks();
      TwoSuperblocks();
      seen, report, clean, node := CheckNode(table.root, table.height, first, EmptyReport(), good,
                                             if good then vol[TABLE].node else Hole);
      found := TableOnly(working, node);
      FirstReport(report);
      TwoSuperblocks();
      TalliedFirst(seen, report, node);
      for ino := 1 to Slots(working)
        invariant Sane() && Tallied(ino, seen, report, found)
        invariant report.badEntries == report.mapMismatches == report.orphans == 0
        invariant good && clean ==> Harm(report) == 0
        invariant dev.reliable && good ==> clean
      {
        ghost var ok;
        seen, report, found, ok := CheckInode(ino, seen, report, found, good && clean, vol);
        clean := clean && ok;
      }
    }

    lemma TalliedFirst(seen: set<nat>, report: Report, n: Node)
      requires working.inodes.height <= MAX_HEIGHT && report.files == report.directories == 0
      requires Harm(report) == 0 ==>
        && Intact(crc, dev.view, working.blocks, working.inodes.root, n, working.inodes.height)
        && seen == Superblocks() + Blocks(n) && Counted(report) == |seen| - 2
      ensures Tallied(1, seen, report, TableOnly(working, n))
    {
      hide Surveyed, Intact, Blocks, OwnedBy, TableOnly, Superblocks, Counted;
      if Harm(report) == 0 {
        SurveyStart(crc, dev.view, working, n);
      }
    }

    lemma SurveyedFirst(vol: map<nat, File>, n: nat)
      requires Surveyed(crc, dev.view, working, vol, n)
      ensures TABLE in vol && Intact(crc, dev.view, working.blocks, working.inodes.root, vol[TABLE].node, working.inodes.height)
      ensures Blocks(vol[TABLE].node) !! Superblocks()
    {
      hide Intact, Content, InodeAt, Blocks;
      IntactBounds(crc, dev.view, working.blocks, vol[TABLE]);
    }

    /** The tree of a directory of a surveyed volume, and what its slots are to agree with. */
    lemma SurveyedDir(vol: map<nat, File>, d: nat)
      requires Surveyed(crc, dev.view, working, vol, Slots(working)) && d in vol
      ensures Points(vol[d].tree.root, vol[d].node) && Readable(vol[d].node, vol[d].tree.height)
      ensures vol[d].tree.height <= MAX_HEIGHT
    {
      hide Sound, Stored, Points, Blocks, Content, InodeAt, Slots;
    }

    /** Looks one entry's inode up: it is as the entry says, or another damaged entry. */
    method CheckEntry(d: nat, e: Entry, reachable: set<nat>, report: Report, ghost ok: bool, ghost vol: map<nat, File>)
      returns (reachable': set<nat>, report': Report, ghost clean: bool)
      requires Sane() && (ok ==> Surveyed(crc, dev.view, working, vol, Slots(working)))
      modifies this`scratch
      ensures Sane()
      ensures report' == report || report' == report.(badEntries := report.badEntries + 1)
      ensures reachable' == reachable || (e.ino != 0 && reachable' == reachable + {e.ino as nat})
      ensures ok && report' == report ==> EntryAgrees(vol, d, e) && (e.ino != 0 ==> e.ino as nat in reachable')
      ensures ok && clean && EntryAgrees(vol, d, e) ==> report' == report
      ensures dev.reliable ==> clean
    {
      hide SetsOk, Device.Valid, Surveyed, Content, InodeAt, Slots, Points, Readable;
      reachable', report', clean := reachable, report, true;
      if e.ino == 0 {
        return;
      }
      if ok {
        SurveyedTable(vol, Slots(working));
        if e.ino <= MAX_INODES {
          RecordHeights(crc, dev.view, working, vol, e.ino);
        }
      }
      var found := GetRecord(e.ino, ok, TableOf(ok, vol));
      if found.Ok? && found.value.kind == e.kind && found.value.parent == d {
        reachable' := reachable' + {e.ino as nat};
      } else {
        report' := report'.(badEntries := report'.badEntries + 1);
        clean := found != Err(Io);
      }
    }

    /** Checks the entries of directory `ino` and notes the inodes they name. */
    method CheckEntries(ino: nat, tree: Tree, reachable: set<nat>, report: Report, ghost ok: bool, ghost vol: map<nat, File>)
      returns (reachable': set<nat>, report': Report, ghost clean: bool)
      requires Sane() && tree.height <= MAX_HEIGHT
      requires ok ==> Surveyed(crc, dev.view, working, vol, Slots(working)) && ino in vol && vol[ino].tree == tree
      modifies this`scratch
      ensures Sane()
      ensures report' == report.(badEntries := report'.badEntries) && report'.badEntries >= report.badEntries
      ensures reachable <= reachable'
      ensures ok ==> Brings(vol, ino, reachable, reachable')
      ensures ok && report' == report ==> DirAgrees(vol, ino) && Covers(vol, ino, reachable')
      ensures ok && clean && DirAgrees(vol, ino) ==> report' == report
      ensures dev.reliable && ok ==> clean
    {
      hide SetsOk, Device.Valid, Surveyed, Content, InodeAt, Slots, Points, Readable, EntryAgrees, SlotAt, Carried,
        DecodeEntry, Slice;
      reachable', report', clean := reachable, report, true;
      ghost var f := if ok then vol[ino] else EMPTY_FILE;
      if ok {
        SurveyedTable(vol, Slots(working));
      }
      var offset, k, entry := 0, 0, Zeros(DIR_ENTRY);
      while offset < tree.size
        invariant Sane() && offset == DIR_ENTRY * k && |entry| == DIR_ENTRY
        invariant ok && offset < tree.size ==> entry == Carried(Content(f), k)
        invariant report' == report.(badEntries := report'.badEntries) && report'.badEntries >= report.badEntries
        invariant reachable <= reachable'
        invariant ok ==> Brings(vol, ino, reachable, reachable')
        invariant ok && report' == report ==> SlotsAgree(vol, ino, k)
        invariant ok && report' == report ==>
          forall j: nat :: j < k && DIR_ENTRY * j < tree.size ==>
            var e := SlotAt(Content(f), j); e.ino != 0 ==> e.ino as nat in reachable'
        invariant ok && clean && DirAgrees(vol, ino) ==> report' == report
        invariant dev.reliable && ok ==> clean
        decreases tree.size - offset
      {
        if ok {
          SurveyedDir(vol, ino);
        }
        var read, filled := TreeRead(tree, offset, entry, ok, f);
        if read.Err? {
          report' := report'.(badEntries := report'.badEntries + 1);
          clean := false;
          break;
        }
        if ok {
          SlotRead(Content(f), k, entry, filled);
        }
        entry := filled;
        ghost var e := DecodeEntry(entry);
        ghost var before := report';
        ghost var fine;
        reachable', report', fine := CheckEntry(ino, DecodeEntry(entry), reachable', report', ok, vol);
        clean := clean && fine;
        offset := offset + DIR_ENTRY;
        k := k + 1;
      }
    }

    /** Second pass: every directory, and the inodes their entries name. */
    method CheckNames(report: Report, ghost ok: bool, ghost vol: map<nat, File>)
      returns (reachable: set<nat>, report': Report, ghost clean: bool)
      requires Sane() && (ok ==> Surveyed(crc, dev.view, working, vol, Slots(working)))
      modifies this`scratch
      ensures Sane()
      ensures report' == report.(badEntries := report'.badEntries) && report'.badEntries >= report.badEntries
      ensures ok ==> OnlyNamed(vol, reachable, Slots(working))
      ensures ok && clean && report' == report ==>
        DirsAgree(vol, Slots(working)) && AllReached(vol, reachable, Slots(working))
      ensures ok && clean && DirsAgree(vol, Slots(working)) ==> report' == report
      ensures dev.reliable && ok ==> clean
    {
      hide SetsOk, Device.Valid, Surveyed, Content, InodeAt, Slots, Points, Readable, DirsAgree, AllReached,
        OnlyNamed, Lists, DirAgrees, Brings, Covers;
      reachable, report', clean := {ROOT_INO as nat}, report, true;
      ghost var end := Slots(working);
      if ok {
        SurveyedTable(vol, end);
        NamesNone(vol, ROOT_INO);
      }
      for ino := 1 to Slots(working)
        invariant Sane()
        invariant report' == report.(badEntries := report'.badEntries) && report'.badEntries >= report.badEntries
        invariant ok ==> OnlyNamed(vol, reachable, ino)
        invariant ok && clean && report' == report ==> DirsAgree(vol, ino) && AllReached(vol, reachable, ino)
        invariant ok && clean && DirsAgree(vol, end) ==> report' == report
        invariant dev.reliable && ok ==> clean
      {
        if ok {
          SurveyedTable(vol, end);
          RecordHeights(crc, dev.view, working, vol, ino);
          SurveyedRecord(vol, ino);
        }
        var inode := GetRecord(ino, ok, TableOf(ok, vol));
        ghost var before := reachable;
        if inode.Err? {
          clean := false;
          if ok {
            OnlyNamedMore(vol, reachable, ino);
          }
          continue;
        }
        if inode.value.kind != KIND_DIRECTORY {
          if ok {
            NamesStep(vol, ino, reachable, reachable);
          }
          continue;
        }
        ghost var fine;
        reachable, report', fine := CheckEntries(ino, inode.value.tree, reachable, report', ok, vol);
        clean := clean && fine;
        if ok {
          NamesStep(vol, ino, before, reachable);
          if DirsAgree(vol, end) {
            OneDirectory(vol, ino, end);
          }
        }
      }
    }

    lemma SurveyedRecord(vol: map<nat, File>, i: nat)
      requires Surveyed(crc, dev.view, working, vol, Slots(working)) && 1 <= i < Slots(working)
      ensures i in vol <==> Record(vol, i).kind != KIND_FREE
      ensures i in vol ==> vol[i].tree == Record(vol, i).tree
    {
      hide FileIntact, Content, InodeAt, Blocks, Slots;
      assert RecordMet(vol, i, Slots(working));
    }

    /** Third pass: inodes in use that no directory names. */
    method CheckOrphans(reachable: set<nat>, report: Report, ghost ok: bool, ghost vol: map<nat, File>)
      returns (report': Report, ghost clean: bool)
      requires Sane() && (ok ==> Surveyed(crc, dev.view, working, vol, Slots(working)))
      modifies this`scratch
      ensures Sane()
      ensures report' == report.(orphans := report'.orphans) && report'.orphans >= report.orphans
      ensures ok && clean && report' == report ==> NoOrphan(vol, reachable, Slots(working))
      ensures ok && NoOrphan(vol, reachable, Slots(working)) ==> report' == report
      ensures dev.reliable && ok ==> clean
    {
      hide SetsOk, Device.Valid, Surveyed, Content, InodeAt, Slots, Points, Readable;
      report', clean := report, true;
      ghost var end := Slots(working);
      for ino := 2 to if Slots(working) < 2 then 2 else Slots(working)
        invariant Sane()
        invariant report' == report.(orphans := report'.orphans) && report'.orphans >= report.orphans
        invariant ok && clean && report' == report ==> NoOrphan(vol, reachable, ino)
        invariant ok && NoOrphan(vol, reachable, end) ==> report' == report
        invariant dev.reliable && ok ==> clean
      {
        if ok {
          SurveyedTable(vol, end);
          RecordHeights(crc, dev.view, working, vol, ino);
          SurveyedRecord(vol, ino);
        }
        var inode := GetRecord(ino, ok, TableOf(ok, vol));
        if inode.Ok? && inode.value.kind != KIND_FREE && ino !in reachable {
          report' := report'.(orphans := report'.orphans + 1);
        }
        clean := clean && inode.Ok?;
      }
    }

    /** Fourth pass: the map of blocks in use against the blocks met. */
    method CheckMap(seen: set<nat>, report: Report) returns (report': Report)
      ensures report' == report.(mapMismatches := report'.mapMismatches) && report'.mapMismatches >= report.mapMismatches
      ensures report' == report <==> forall b: nat :: b < working.blocks ==> (b in seen <==> b in used)
    {
      report' := report;
      for block := 0 to working.blocks
        invariant report' == report.(mapMismatches := report'.mapMismatches) && report'.mapMismatches >= report.mapMismatches
        invariant report' == report <==> forall b: nat :: b < block ==> (b in seen <==> b in used)
      {
        if (block in seen) != (block in used) {
          report' := report'.(mapMismatches := report'.mapMismatches + 1);
        }
      }
    }

    /**
     Checks the whole volume, in whatever state it is. Where the device can be
     read, the report is clean exactly if there is a volume on it whose trees are
     intact and share no block, whose blocks are those the map has in use, whose
     entries all agree with their inodes and whose inodes all have an entry.
     `clean` says that no read the verdict rests on failed.
     */
    method Fsck() returns (report: Report, ghost found: map<nat, File>, ghost clean: bool)
      requires Sane()
      modifies this`scratch
      ensures Sane()
      ensures clean && !report.Damaged() ==>
        && Audited(crc, dev.view, working, used, found)
        && report.files + report.directories == |found| - 1 && report.dataBlocks + report.treeBlocks == |used| - 2
      ensures forall vol :: Audited(crc, dev.view, working, used, vol) && clean ==> !report.Damaged() && vol == found
      ensures dev.reliable ==> (!report.Damaged() <==> exists vol :: Audited(crc, dev.view, working, used, vol))
      ensures old(Mounted()) ==>
        && Mounted() && (dev.reliable ==> clean)
        && (clean ==> !report.Damaged() && found == files && report.files + report.directories == |View(files)|)
    {
      hide Sane, Audited, Surveyed, DirsAgree, AllReached, OnlyNamed, NoOrphan, Slots, OwnedBy, Named, Superblocks,
        Mounted, View;
      if Mounted() {
        MountedAudited();
      }
      ghost var good := exists vol :: Audited(crc, dev.view, working, used, vol);
      ghost var vol: map<nat, File> := map[];
      if good {
        vol :| Audited(crc, dev.view, working, used, vol);
        AuditedSurvey(crc, dev.view, working, used, vol);
      }
      ghost var fine, sure;
      var seen, reachable;
      seen, report, found, clean := CheckTrees(good, vol);
      ghost var ok, end := Harm(report) == 0, Slots(working);
      reachable, report, fine := CheckNames(report, ok, found);
      report, sure := CheckOrphans(reachable, report, ok, found);
      report := CheckMap(seen, report);
      clean := (good ==> clean) && (ok ==> fine && sure);
      if clean && !report.Damaged() {
        Passed(found, seen, reachable);
      }
      if good && clean {
        forall v | Audited(crc, dev.view, working, used, v) ensures v == found {
          Expected(v, found, seen, reachable);
        }
        Expected(vol, found, seen, reachable);
      }
      if old(Mounted()) {
        StillMounted();
      }
    }

    /** The volume in memory between calls is one a check passes. */
    lemma MountedAudited()
      requires Mounted()
      ensures Sane() && TABLE in files && Audited(crc, dev.view, working, used, files) && |View(files)| == |files| - 1
    {
      hide Secured, Device.Valid, Owned, Linked, Shape, View, Audited, Whole;
      ConsistentWhole(working);
      WholeAudited(crc, dev.view, Live(), working, used, files);
    }

    /** A volume is still mounted when only the buffers have changed. */
    twostate lemma StillMounted()
      requires old(Mounted()) && Sane()
      requires unchanged(`committed) && unchanged(`working) && unchanged(`used) && unchanged(`taken) && unchanged(`freed)
      requires unchanged(`base) && unchanged(`files) && unchanged(`past) && unchanged(`inDoubt) && unchanged(`blank)
      requires unchanged(dev)
      ensures Mounted()
    {
      hide Secured, Owned, Linked, Shape, SetsOk;
    }

    /** A volume that passes every part of a check. */
    lemma Passed(found: map<nat, File>, seen: set<nat>, reachable: set<nat>)
      requires Sane() && Surveyed(crc, dev.view, working, found, Slots(working)) && seen == Superblocks() + OwnedBy(found)
      requires DirsAgree(found, Slots(working)) && OnlyNamed(found, reachable, Slots(working))
      requires NoOrphan(found, reachable, Slots(working))
      requires forall b: nat :: b < working.blocks ==> (b in seen <==> b in used)
      ensures Audited(crc, dev.view, working, used, found) && seen == used
    {
      hide Surveyed, DirsAgree, OnlyNamed, NoOrphan, Slots, OwnedBy, AllNamed;
      NamedIfNoOrphan(crc, dev.view, working, found, reachable);
      SameMap(crc, dev.view, working, found, used);
    }

    /** What the parts of a check find of a volume that is as it should be. */
    lemma Expected(vol: map<nat, File>, found: map<nat, File>, seen: set<nat>, reachable: set<nat>)
      requires Audited(crc, dev.view, working, used, vol)
      requires Surveyed(crc, dev.view, working, found, Slots(working)) && seen == Superblocks() + OwnedBy(found)
      ensures vol == found && seen == used && DirsAgree(found, Slots(working))
      ensures AllReached(found, reachable, Slots(working)) ==> NoOrphan(found, reachable, Slots(working))
    {
      hide Surveyed, DirsAgree, AllReached, NoOrphan, Slots, OwnedBy, AllNamed, Superblocks;
      SurveyUnique(crc, dev.view, working, vol, found, Slots(working));
      SurveyedTable(found, Slots(working));
      if AllReached(found, reachable, Slots(working)) {
        NoOrphanIfNamed(found, reachable, Slots(working));
      }
    }

  }

  /**
   Power comes back after a cut in state `s`, with whatever the cut left on the
   medium. The volume mounted is one of the two the state survives as, if the
   slot of its superblock can be read.
   */
  method Reboot(crc: Crc, img: Image, reliable: bool, ghost s: Snapshot, ghost v: Volume, ghost v': Volume)
    returns (fs: AerFs, r: Result<()>, ghost readable: set<nat>)
    requires 2 <= |img| < 0x1_0000_0000 && CrashImage(s, img)
    requires SurvivesEither(crc, s, v.sb, v.files, v'.sb, v'.files) && WellFormed(v) && WellFormed(v')
    ensures fresh(fs) && fresh(fs.dev) && fs.crc == crc
    ensures readable <= {0, 1} && (reliable ==> readable == {0, 1} && r.Ok?)
    ensures readable == {0, 1} ==>
      if r.Ok? then fs.Mounted() && Volume(fs.committed, fs.files) in {v, v'} else r.error == Io
  {
    hide Mounts, View, Shape, Device.Valid, AerFs.Mounted, PickAmong, AerFs.InForce;
    var dev := new Device(img, reliable);
    fs := new AerFs(dev, crc);
    ghost var found := if Mounts(crc, img, v.sb, v.files) then v else v';
    r, readable := fs.Load(found.sb, found.files, found.files);
    ParityIsASlot(found.sb.generation);
  }

  lemma ParityIsASlot(n: nat)
    ensures n % 2 in {0, 1}
  {
  }
}
