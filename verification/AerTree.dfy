/**
 The radix trees of AerFS as values: which blocks a tree owns, when a disk
 image stores it, and the blocks of file data it stands for.
 */
module AerTree {
  import opened Arithmetic
  import opened LittleEndian
  import opened AerLayout

  type Image = seq<Block>

  /** A tree with the pointer and the stored bytes of every block in it. */
  datatype Node =
    | Hole
    | Leaf(ptr: Ptr, data: Block)
    | Inner(ptr: Ptr, raw: Block, kids: seq<Node>)

  ghost function Holes(): (kids: seq<Node>)
    ensures |kids| == FANOUT && forall i :: 0 <= i < FANOUT ==> kids[i] == Hole
  {
    seq(FANOUT, i => Hole)
  }

  /** Leaf blocks under a tree of the given height. */
  function Cap(height: nat): (c: nat)
    ensures c >= 1
  {
    if height == 0 then 1 else FANOUT * Cap(height - 1)
  }

  lemma CapValues()
    ensures Cap(0) == 1 && Cap(1) == 512 && Cap(2) == 262144 && Cap(3) == 134217728
  {
    assert Cap(2) == 512 * Cap(1);
  }

  lemma {:induction false} CapMonotone(a: nat, b: nat)
    requires a <= b
    ensures Cap(a) <= Cap(b)
    decreases b - a
  {
    if a < b { CapMonotone(a + 1, b); }
  }

  ghost predicate Points(p: Ptr, n: Node) {
    match n
    case Hole => p.block == 0
    case Leaf(q, _) => p == q
    case Inner(q, _, _) => p == q
  }

  ghost function Blocks(n: Node): set<nat>
  {
    match n
    case Hole => {}
    case Leaf(p, _) => {p.block}
    case Inner(p, _, kids) => {p.block} + KidBlocks(kids)
  }

  ghost function KidBlocks(kids: seq<Node>): set<nat>
  {
    set i, b | 0 <= i < |kids| && b in Blocks(kids[i]) :: b
  }

  ghost predicate Apart(kids: seq<Node>) {
    forall i, j :: 0 <= i < j < |kids| ==> Blocks(kids[i]) !! Blocks(kids[j])
  }

  /** The first data block under child `c` of a node whose own first data block is `first`. */
  function ChildFirst(first: nat, c: nat, level: nat): nat {
    first + c * Cap(level)
  }

  /** Shape, checksums and ownership: every block occurs once. */
  ghost predicate Sound(crc: Crc, n: Node, level: nat)
    decreases n
  {
    && (n.Leaf? ==> level == 0 && n.ptr.block != 0 && n.ptr.crc == crc(n.data))
    && (n.Inner? ==>
          && level > 0 && n.ptr.block != 0 && n.ptr.crc == crc(n.raw)
          && |n.kids| == FANOUT
          && n.ptr.block !in KidBlocks(n.kids)
          && Apart(n.kids)
          && (forall i :: 0 <= i < FANOUT ==> Points(GetPtr(n.raw, i), n.kids[i]))
          && (forall i :: 0 <= i < FANOUT ==> Sound(crc, n.kids[i], level - 1)))
  }

  ghost predicate Stored(disk: Image, n: Node)
    decreases n
  {
    && (n.Leaf? ==> n.ptr.block < |disk| && disk[n.ptr.block] == n.data)
    && (n.Inner? ==>
          && n.ptr.block < |disk| && disk[n.ptr.block] == n.raw
          && forall i :: 0 <= i < |n.kids| ==> Stored(disk, n.kids[i]))
  }

  /** Data block `i` of the tree; a hole reads as zeros. */
  ghost function At(n: Node, level: nat, i: nat): Block
    requires i < Cap(level)
    decreases level
  {
    match n
    case Hole => ZERO_BLOCK
    case Leaf(_, data) => data
    case Inner(_, _, kids) =>
      if level == 0 || |kids| != FANOUT then ZERO_BLOCK
      else
        DivBelow(i, Cap(level - 1), FANOUT);
        At(kids[i / Cap(level - 1)], level - 1, i % Cap(level - 1))
  }

  lemma Digit2(x: nat)
    ensures x % 262144 / 512 == x / 512 % 512 && x % 262144 % 512 == x % 512
  {
  }

  lemma Digit3(x: nat)
    ensures x % 134217728 / 262144 == x / 262144 % 512 && x % 134217728 % 262144 == x % 262144
  {
  }

  /** The radix digits of an index, one level at a time. */
  lemma DigitStep(x: nat, level: nat)
    requires 1 <= level <= MAX_HEIGHT
    ensures x % Cap(level) / Cap(level - 1) == x / Cap(level - 1) % FANOUT
    ensures x % Cap(level) % Cap(level - 1) == x % Cap(level - 1)
  {
    CapValues();
    match level
    case 1 =>
    case 2 => Digit2(x);
    case 3 => Digit3(x);
  }

  // ------------------------------------------------------------ ownership

  lemma {:induction false} StoredFrame(a: Image, b: Image, n: Node)
    requires Stored(a, n) && |a| == |b|
    requires forall x :: x in Blocks(n) && x < |a| ==> a[x] == b[x]
    ensures Stored(b, n)
    decreases n
  {
    match n
    case Hole =>
    case Leaf(p, _) => assert p.block in Blocks(n);
    case Inner(p, raw, kids) =>
      assert p.block in Blocks(n);
      forall i | 0 <= i < |kids| ensures Stored(b, kids[i]) {
        assert Blocks(kids[i]) <= KidBlocks(kids);
        StoredFrame(a, b, kids[i]);
      }
  }

  /** What an image stores under a pointer is determined by the image. */
  lemma {:induction false} StoredUnique(crc: Crc, disk: Image, p: Ptr, m: Node, n: Node, level: nat)
    requires Points(p, m) && Points(p, n)
    requires Sound(crc, m, level) && Sound(crc, n, level)
    requires Stored(disk, m) && Stored(disk, n)
    ensures m == n
    decreases level
  {
    if m.Inner? && n.Inner? {
      forall i | 0 <= i < FANOUT ensures m.kids[i] == n.kids[i] {
        StoredUnique(crc, disk, GetPtr(m.raw, i), m.kids[i], n.kids[i], level - 1);
      }
      assert m.kids == n.kids;
    }
  }

  lemma KidBlocksOf(kids: seq<Node>, i: nat)
    requires i < |kids|
    ensures Blocks(kids[i]) <= KidBlocks(kids)
  {
  }

  lemma SoundHole(crc: Crc, level: nat)
    ensures Sound(crc, Hole, level)
  {
  }

  lemma NoKids(kids: seq<Node>)
    requires kids == []
    ensures KidBlocks(kids) == {}
  {
  }

  lemma KidBlocksPrefix(kids: seq<Node>, c: nat)
    requires c < |kids|
    ensures KidBlocks(kids[..c + 1]) == KidBlocks(kids[..c]) + Blocks(kids[c])
  {
    var a, b := kids[..c], kids[..c + 1];
    assert b[c] == kids[c];
    assert forall i :: 0 <= i < c ==> a[i] == kids[i] && b[i] == kids[i];
    forall x | x in KidBlocks(a) ensures x in KidBlocks(b) {
      var i :| 0 <= i < |a| && x in Blocks(a[i]);
      assert b[i] == a[i];
    }
    forall x | x in KidBlocks(b) ensures x in KidBlocks(a) + Blocks(kids[c]) {
      var i :| 0 <= i < |b| && x in Blocks(b[i]);
      if i < c {
        assert a[i] == b[i];
      }
    }
  }

  lemma ApartPrefix(kids: seq<Node>, c: nat)
    requires c < |kids| && Apart(kids)
    ensures KidBlocks(kids[..c]) !! Blocks(kids[c])
  {
    forall x | x in KidBlocks(kids[..c]) ensures x !in Blocks(kids[c]) {
      var i :| 0 <= i < c && x in Blocks(kids[..c][i]);
      assert Blocks(kids[i]) !! Blocks(kids[c]);
    }
  }

  lemma KidBlocksUpdate(kids: seq<Node>, c: nat, n: Node)
    requires c < |kids| && Apart(kids)
    ensures KidBlocks(kids[c := n]) == (KidBlocks(kids) - Blocks(kids[c])) + Blocks(n)
  {
    var ks := kids[c := n];
    forall b | b in KidBlocks(kids) - Blocks(kids[c]) ensures b in KidBlocks(ks) {
      var i :| 0 <= i < |kids| && b in Blocks(kids[i]);
      assert ks[i] == kids[i];
    }
    forall b | b in Blocks(n) ensures b in KidBlocks(ks) {
      assert ks[c] == n;
    }
    forall b | b in KidBlocks(ks) ensures b in (KidBlocks(kids) - Blocks(kids[c])) + Blocks(n) {
      var i :| 0 <= i < |ks| && b in Blocks(ks[i]);
      if i != c {
        assert ks[i] == kids[i];
        assert Blocks(kids[i]) !! Blocks(kids[c]);
      }
    }
  }

  lemma ApartUpdate(kids: seq<Node>, c: nat, n: Node)
    requires c < |kids| && Apart(kids)
    requires Blocks(n) !! (KidBlocks(kids) - Blocks(kids[c]))
    ensures Apart(kids[c := n])
  {
    var ks := kids[c := n];
    forall i, j | 0 <= i < j < |ks| ensures Blocks(ks[i]) !! Blocks(ks[j]) {
      if i == c {
        KidBlocksOf(kids, j);
      } else if j == c {
        KidBlocksOf(kids, i);
      }
    }
  }

  lemma HolesOwnNothing()
    ensures Apart(Holes()) && KidBlocks(Holes()) == {}
  {
  }

  // -------------------------------------------------------------- contents

  /** A change to file data: overwrite with `data` from byte `start`, or clear from byte `size`. */
  datatype Edit = Overlay(data: seq<byte>, start: nat) | Cut(size: nat)

  /** The edit's effect on byte `pos` of the file, which holds `x`. */
  ghost function EditByte(e: Edit, pos: nat, x: byte): byte {
    match e
    case Overlay(data, start) => if start <= pos < start + |data| then data[pos - start] else x
    case Cut(size) => if pos < size then x else 0
  }

  /** The edit's effect on data block `idx`. */
  ghost function EditBlock(e: Edit, idx: nat, b: Block): Block {
    seq(BLOCK, k requires 0 <= k < BLOCK => EditByte(e, idx * BLOCK + k, b[k]))
  }

  ghost predicate Edited(e: Edit, n: Node, n': Node, level: nat, first: nat) {
    forall i :: 0 <= i < Cap(level) ==> At(n', level, i) == EditBlock(e, first + i, At(n, level, i))
  }

  ghost function Kids(n: Node): seq<Node> {
    if n.Inner? then n.kids else Holes()
  }

  lemma AtKid(n: Node, level: nat, c: nat, r: nat)
    requires level > 0 && c < FANOUT && r < Cap(level - 1)
    requires !n.Leaf? && |Kids(n)| == FANOUT
    ensures c * Cap(level - 1) + r < Cap(level)
    ensures At(n, level, c * Cap(level - 1) + r) == At(Kids(n)[c], level - 1, r)
  {
    var d := Cap(level - 1);
    MulMonotone(c + 1, FANOUT, d);
    DivExact(c, d, r);
    AtIndex(n, level, c * d + r, c, r);
  }

  lemma AtIndex(n: Node, level: nat, i: nat, c: nat, r: nat)
    requires level > 0 && i < Cap(level) && c < FANOUT
    requires i / Cap(level - 1) == c && i % Cap(level - 1) == r
    requires !n.Leaf? && |Kids(n)| == FANOUT
    ensures At(n, level, i) == At(Kids(n)[c], level - 1, r)
  {
  }

  lemma SplitIndex(level: nat, i: nat) returns (c: nat, r: nat)
    requires level > 0 && i < Cap(level)
    ensures c < FANOUT && r < Cap(level - 1) && i == c * Cap(level - 1) + r
  {
    var d := Cap(level - 1);
    c, r := i / d, i % d;
    DivBelow(i, d, FANOUT);
  }

  lemma EditedFromKids(e: Edit, n: Node, n': Node, level: nat, first: nat)
    requires level > 0 && !n.Leaf? && !n'.Leaf? && |Kids(n)| == FANOUT && |Kids(n')| == FANOUT
    requires forall c :: 0 <= c < FANOUT ==>
      Edited(e, Kids(n)[c], Kids(n')[c], level - 1, ChildFirst(first, c, level - 1))
    ensures Edited(e, n, n', level, first)
  {
    forall i | 0 <= i < Cap(level)
      ensures At(n', level, i) == EditBlock(e, first + i, At(n, level, i))
    {
      var c, r := SplitIndex(level, i);
      AtKid(n, level, c, r);
      AtKid(n', level, c, r);
      assert Edited(e, Kids(n)[c], Kids(n')[c], level - 1, ChildFirst(first, c, level - 1));
      assert first + c * Cap(level - 1) + r == first + i;
    }
  }

  lemma LeafEdited(e: Edit, n: Node, p: Ptr, first: nat)
    ensures Edited(e, n, Leaf(p, EditBlock(e, first, At(n, 0, 0))), 0, first)
  {
    hide EditBlock;
    assert Cap(0) == 1;
  }

  /** Copying the overlap of `data` into a block is the overlay's effect on it. */
  lemma OverlayBlock(e: Edit, idx: nat, b: Block, from: nat, to: nat)
    requires e.Overlay?
    requires from == if e.start >= idx * BLOCK then e.start else idx * BLOCK
    requires to == if e.start + |e.data| <= idx * BLOCK + BLOCK then e.start + |e.data| else idx * BLOCK + BLOCK
    requires from <= to
    ensures to - from <= BLOCK && from >= idx * BLOCK && e.start <= from && to <= e.start + |e.data|
    ensures Splice(b, from - idx * BLOCK, e.data[from - e.start..to - e.start]) == EditBlock(e, idx, b)
  {
    var r := Splice(b, from - idx * BLOCK, e.data[from - e.start..to - e.start]);
    forall k | 0 <= k < BLOCK ensures r[k] == EditByte(e, idx * BLOCK + k, b[k]) {
    }
  }

  /** Where the data covers the whole block its old bytes do not matter. */
  lemma OverlayCovers(e: Edit, idx: nat, a: Block, b: Block)
    requires e.Overlay? && e.start <= idx * BLOCK && idx * BLOCK + BLOCK <= e.start + |e.data|
    ensures EditBlock(e, idx, a) == EditBlock(e, idx, b)
  {
  }

  lemma CutBlock(e: Edit, idx: nat, b: Block)
    requires e.Cut? && idx * BLOCK <= e.size <= idx * BLOCK + BLOCK
    ensures Splice(b, e.size - idx * BLOCK, Zeros(idx * BLOCK + BLOCK - e.size)) == EditBlock(e, idx, b)
  {
  }

  lemma OverlayOutside(e: Edit, idx: nat, b: Block)
    requires e.Overlay? && (BLOCK * idx + BLOCK <= e.start || BLOCK * idx >= e.start + |e.data|)
    ensures EditBlock(e, idx, b) == b
  {
  }

  /** First and last-plus-one data block an overwrite touches. */
  ghost predicate Spans(e: Edit, lo: nat, hi: nat) {
    e.Overlay? && e.data != [] && lo == e.start / BLOCK && hi == (e.start + |e.data| - 1) / BLOCK + 1
  }

  lemma SpansLeaf(e: Edit, lo: nat, hi: nat, first: nat)
    requires Spans(e, lo, hi) && lo < first + Cap(0) && first < hi
    ensures e.start < first * BLOCK + BLOCK && first * BLOCK < e.start + |e.data|
  {
  }

  lemma OverlaySkips(e: Edit, lo: nat, hi: nat, n: Node, level: nat, first: nat)
    requires Spans(e, lo, hi) && (first + Cap(level) <= lo || first >= hi)
    ensures Edited(e, n, n, level, first)
  {
    forall i | 0 <= i < Cap(level) ensures EditBlock(e, first + i, At(n, level, i)) == At(n, level, i) {
      OverlayOutside(e, first + i, At(n, level, i));
    }
  }

  lemma CutBefore(e: Edit, idx: nat, b: Block)
    requires e.Cut? && BLOCK * idx + BLOCK <= e.size
    ensures EditBlock(e, idx, b) == b
  {
  }

  lemma CutAfter(e: Edit, idx: nat, b: Block)
    requires e.Cut? && BLOCK * idx >= e.size
    ensures EditBlock(e, idx, b) == ZERO_BLOCK
  {
  }

  /** `keep` is how many data blocks a file of `size` bytes needs. */
  ghost predicate Keeps(keep: nat, size: nat) {
    size <= keep * BLOCK && (keep > 0 ==> (keep - 1) * BLOCK < size)
  }

  lemma KeepsCeiling(keep: nat, size: nat)
    requires keep == (size + (BLOCK - 1)) / BLOCK
    ensures Keeps(keep, size)
  {
  }

  lemma CutHole(size: nat, level: nat, first: nat)
    ensures Edited(Cut(size), Hole, Hole, level, first)
  {
    forall i | 0 <= i < Cap(level)
      ensures EditBlock(Cut(size), first + i, At(Hole, level, i)) == At(Hole, level, i)
    {
    }
  }

  lemma CutAll(size: nat, keep: nat, n: Node, level: nat, first: nat)
    requires Keeps(keep, size) && first >= keep
    ensures Edited(Cut(size), n, Hole, level, first)
  {
    forall i | 0 <= i < Cap(level) ensures EditBlock(Cut(size), first + i, At(n, level, i)) == ZERO_BLOCK {
      CutAfter(Cut(size), first + i, At(n, level, i));
    }
  }

  /** A subtree wholly before the cut. */
  lemma CutNothing(size: nat, keep: nat, n: Node, level: nat, first: nat)
    requires Keeps(keep, size) && first + Cap(level) <= keep
    requires size % BLOCK == 0 || keep - 1 >= first + Cap(level)
    ensures Edited(Cut(size), n, n, level, first)
  {
    forall i | 0 <= i < Cap(level) ensures EditBlock(Cut(size), first + i, At(n, level, i)) == At(n, level, i) {
      CutBefore(Cut(size), first + i, At(n, level, i));
    }
  }

  /** No node is left that starts at data block `keep` or later. */
  ghost predicate Trimmed(n: Node, level: nat, first: nat, keep: nat)
    decreases n
  {
    && (first >= keep ==> n.Hole?)
    && (n.Inner? && level > 0 ==>
          forall c :: 0 <= c < |n.kids| ==> Trimmed(n.kids[c], level - 1, ChildFirst(first, c, level - 1), keep))
  }

  lemma TrimmedHole(level: nat, first: nat, keep: nat)
    ensures Trimmed(Hole, level, first, keep)
  {
  }

  lemma TrimmedLeaf(n: Node, first: nat, keep: nat)
    requires n.Leaf? && first < keep
    ensures Trimmed(n, 0, first, keep)
  {
  }

  lemma TrimmedInner(n: Node, level: nat, first: nat, keep: nat)
    requires n.Inner? && level > 0 && |n.kids| == FANOUT && first < keep
    requires forall c :: 0 <= c < FANOUT ==> Trimmed(n.kids[c], level - 1, ChildFirst(first, c, level - 1), keep)
    ensures Trimmed(n, level, first, keep)
  {
  }

  lemma LeafBeforeCut(size: nat, n: Node, first: nat)
    requires first * BLOCK + BLOCK <= size
    ensures Edited(Cut(size), n, n, 0, first)
  {
    assert Cap(0) == 1;
    CutBefore(Cut(size), first, At(n, 0, 0));
  }

  lemma {:induction false} TrimmedBefore(crc: Crc, n: Node, level: nat, first: nat, keep: nat)
    requires Sound(crc, n, level) && first + Cap(level) <= keep
    ensures Trimmed(n, level, first, keep)
    decreases n
  {
    if n.Inner? {
      forall c | 0 <= c < |n.kids| ensures Trimmed(n.kids[c], level - 1, ChildFirst(first, c, level - 1), keep) {
        MulMonotone(c + 1, FANOUT, Cap(level - 1));
        TrimmedBefore(crc, n.kids[c], level - 1, ChildFirst(first, c, level - 1), keep);
      }
    }
  }

  /** A trimmed tree that fits one level lower has everything under its first child. */
  lemma TrimmedRoot(n: Node, level: nat, keep: nat)
    requires n.Inner? && level > 0 && |n.kids| == FANOUT && Trimmed(n, level, 0, keep) && keep <= Cap(level - 1)
    ensures n.kids == Holes()[0 := n.kids[0]]
    ensures Trimmed(n.kids[0], level - 1, 0, keep)
  {
    forall c | 1 <= c < FANOUT ensures n.kids[c] == Hole {
      MulMonotone(1, c, Cap(level - 1));
      assert ChildFirst(0, c, level - 1) >= keep;
    }
    assert ChildFirst(0, 0, level - 1) == 0;
  }

  // ------------------------------------------------------------- flat files

  /** Byte `pos` of the unbounded file a tree stands for. */
  ghost function ByteAt(n: Node, height: nat, pos: nat): byte {
    if pos / BLOCK < Cap(height) then At(n, height, pos / BLOCK)[pos % BLOCK] else 0
  }

  lemma EditedBytes(e: Edit, n: Node, n': Node, height: nat, pos: nat)
    requires Edited(e, n, n', height, 0) && pos / BLOCK < Cap(height)
    ensures ByteAt(n', height, pos) == EditByte(e, pos, ByteAt(n, height, pos))
  {
    hide At, Cap, EditByte;
    var i := pos / BLOCK;
    assert At(n', height, i) == EditBlock(e, 0 + i, At(n, height, i));
    assert i * BLOCK + pos % BLOCK == pos;
  }

  /** Following one pointer down towards data block `index`. */
  lemma Descend(crc: Crc, disk: Image, n: Node, level: nat, index: nat)
    requires n.Inner? && level <= MAX_HEIGHT && Sound(crc, n, level) && Stored(disk, n)
    ensures var digit := index / Cap(level - 1) % FANOUT;
            && |n.kids| == FANOUT
            && Points(GetPtr(n.raw, digit), n.kids[digit])
            && Sound(crc, n.kids[digit], level - 1) && Stored(disk, n.kids[digit])
            && Blocks(n.kids[digit]) <= Blocks(n)
            && At(n, level, index % Cap(level)) == At(n.kids[digit], level - 1, index % Cap(level - 1))
  {
    var digit := index / Cap(level - 1) % FANOUT;
    DigitStep(index, level);
    AtIndex(n, level, index % Cap(level), digit, index % Cap(level - 1));
    KidBlocksOf(n.kids, digit);
  }

  /** The bytes of a run inside one block, given the data block they come from. */
  lemma SpanBytes(n: Node, height: nat, index: nat, within: nat, take: nat, data: Block)
    requires within + take <= BLOCK
    requires index < Cap(height) ==> data == At(n, height, index)
    requires index >= Cap(height) ==> data == ZERO_BLOCK
    ensures forall i :: within <= i < within + take ==> ByteAt(n, height, index * BLOCK + i) == data[i]
  {
    forall i | within <= i < within + take ensures ByteAt(n, height, index * BLOCK + i) == data[i] {
      DivExact(index, BLOCK, i);
    }
  }

  // --------------------------------------------------------- growing a tree

  lemma GrownAt(n: Node, m: Node, height: nat, i: nat)
    requires m.Inner? && m.kids == Holes()[0 := n]
    requires i < Cap(height + 1)
    ensures At(m, height + 1, i) == if i < Cap(height) then At(n, height, i) else ZERO_BLOCK
  {
    var c, r := SplitIndex(height + 1, i);
    var d := Cap(height);
    DivExact(c, d, r);
    AtIndex(m, height + 1, i, c, r);
    if c == 0 {
      assert i == r;
    } else {
      MulMonotone(1, c, d);
      assert i >= Cap(height);
      assert Kids(m)[c] == Hole;
    }
  }

  /** Putting a root above a tree keeps its bytes. */
  lemma GrownBytes(n: Node, m: Node, height: nat, pos: nat)
    requires m.Inner? && m.kids == Holes()[0 := n]
    ensures ByteAt(m, height + 1, pos) == ByteAt(n, height, pos)
  {
    CapMonotone(height, height + 1);
    if pos / BLOCK < Cap(height + 1) {
      GrownAt(n, m, height, pos / BLOCK);
    }
  }

  ghost predicate SameBytes(n: Node, height: nat, n': Node, height': nat) {
    forall pos: nat :: ByteAt(n', height', pos) == ByteAt(n, height, pos)
  }

  lemma GrownSame(n: Node, m: Node, height: nat)
    requires m.Inner? && m.kids == Holes()[0 := n]
    ensures SameBytes(n, height, m, height + 1)
  {
    forall pos: nat ensures ByteAt(m, height + 1, pos) == ByteAt(n, height, pos) {
      GrownBytes(n, m, height, pos);
    }
  }

  lemma SameBytesSelf(n: Node, height: nat)
    ensures SameBytes(n, height, n, height)
  {
  }

  lemma HoleSame(height: nat, height': nat)
    ensures SameBytes(Hole, height, Hole, height')
  {
  }

  lemma RootLess(n: Node, height: nat)
    requires n.Inner? && height > 0 && |n.kids| == FANOUT && n.kids == Holes()[0 := n.kids[0]]
    ensures SameBytes(n, height, n.kids[0], height - 1)
  {
    GrownSame(n.kids[0], n, height - 1);
  }

  lemma SameBytesTrans(a: Node, h: nat, b: Node, k: nat, c: Node, l: nat)
    requires SameBytes(a, h, b, k) && SameBytes(b, k, c, l)
    ensures SameBytes(a, h, c, l)
  {
  }

  lemma HoleBytes(height: nat, pos: nat)
    ensures ByteAt(Hole, height, pos) == 0
  {
  }
}
