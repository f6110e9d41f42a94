/**
 How replacing a tree, one node at a time, changes the disk and the set of
 blocks in use: what the tree gave back, what it took, and what stayed put.
 */
module AerOwnership {
  import opened AerLayout
  import opened AerTree

  /** The change to disk and ownership when the tree `n` becomes `n'`. */
  ghost predicate Exchanged(d: Image, live: set<nat>, n: Node, d': Image, live': set<nat>, n': Node) {
    && |d'| == |d|
    && Stored(d', n')
    && Blocks(n') <= live'
    && live' - Blocks(n') == live - Blocks(n)
    && Kept(d, d', live - Blocks(n))
  }

  ghost predicate Kept(d: Image, d': Image, blocks: set<nat>) {
    |d'| == |d| && forall b :: b in blocks && b < |d| ==> d'[b] == d[b]
  }

  /** The children of a node under construction. */
  ghost predicate KidsOk(crc: Crc, d: Image, live: set<nat>, kids: seq<Node>, level: nat) {
    && |kids| == FANOUT
    && Apart(kids)
    && KidBlocks(kids) <= live
    && (forall i :: 0 <= i < FANOUT ==> Sound(crc, kids[i], level))
    && (forall i :: 0 <= i < FANOUT ==> Stored(d, kids[i]))
  }

  /** What a pointer says about the tree under it. */
  lemma NodeFacts(crc: Crc, d: Image, n: Node, level: nat, ptr: Ptr)
    requires Points(ptr, n) && Sound(crc, n, level) && Stored(d, n)
    ensures ptr.block == 0 <==> n.Hole?
    ensures n.Hole? ==> Blocks(n) == {}
    ensures !n.Hole? ==> ptr.block in Blocks(n) && ptr.block < |d| && crc(d[ptr.block]) == ptr.crc
    ensures !n.Hole? && level == 0 ==> n == Leaf(ptr, d[ptr.block]) && Blocks(n) == {ptr.block as nat}
    ensures !n.Hole? && level > 0 ==>
      && n.Inner? && n.ptr == ptr && d[ptr.block] == n.raw && |n.kids| == FANOUT
      && Blocks(n) == {ptr.block as nat} + KidBlocks(n.kids)
      && ptr.block !in KidBlocks(n.kids)
  {
  }

  lemma HoleFacts(crc: Crc, d: Image)
    ensures Points(NULL, Hole) && Sound(crc, Hole, 0) && Stored(d, Hole) && Blocks(Hole) == {}
  {
  }

  lemma HoleAt(level: nat, index: nat)
    requires index < Cap(level)
    ensures At(Hole, level, index) == ZERO_BLOCK
  {
  }

  /** What a pointer says about a data block. */
  lemma LeafFacts(crc: Crc, d: Image, n: Node, ptr: Ptr)
    requires Points(ptr, n) && Sound(crc, n, 0) && Stored(d, n)
    ensures ptr.block == 0 ==> At(n, 0, 0) == ZERO_BLOCK
    ensures ptr.block != 0 ==> ptr.block in Blocks(n) && ptr.block < |d| && crc(d[ptr.block]) == ptr.crc
    ensures ptr.block != 0 ==> At(n, 0, 0) == d[ptr.block]
  {
  }

  lemma KidFacts(crc: Crc, d: Image, n: Node, level: nat, i: nat)
    requires n.Inner? && Sound(crc, n, level) && Stored(d, n) && i < FANOUT
    ensures |n.kids| == FANOUT && level > 0
    ensures Points(GetPtr(n.raw, i), n.kids[i])
    ensures Sound(crc, n.kids[i], level - 1) && Stored(d, n.kids[i])
    ensures Blocks(n.kids[i]) <= KidBlocks(n.kids) <= Blocks(n)
    ensures KidBlocks(n.kids[..i]) !! Blocks(n.kids[i])
    ensures KidBlocks(n.kids[..i + 1]) == KidBlocks(n.kids[..i]) + Blocks(n.kids[i])
  {
    KidBlocksOf(n.kids, i);
    ApartPrefix(n.kids, i);
    KidBlocksPrefix(n.kids, i);
  }

  lemma KidsOfNode(crc: Crc, d: Image, live: set<nat>, n: Node, level: nat)
    requires Sound(crc, n, level) && level > 0 && Stored(d, n) && Blocks(n) <= live
    ensures KidsOk(crc, d, live, Kids(n), level - 1)
    ensures n.Inner? ==> n.ptr.block in live && n.ptr.block !in KidBlocks(Kids(n))
    ensures n.Inner? ==> Blocks(n) == {n.ptr.block} + KidBlocks(Kids(n))
    ensures n.Hole? ==> KidBlocks(Kids(n)) == {}
  {
    HolesOwnNothing();
  }

  /** Replacing one child keeps the others and what lies outside the node. */
  lemma KidStep(crc: Crc, d: Image, live: set<nat>, kids: seq<Node>, level: nat, c: nat,
                n: Node, d': Image, live': set<nat>)
    requires KidsOk(crc, d, live, kids, level) && c < FANOUT
    requires Sound(crc, n, level) && Exchanged(d, live, kids[c], d', live', n)
    ensures KidsOk(crc, d', live', kids[c := n], level)
    ensures live' - KidBlocks(kids[c := n]) == live - KidBlocks(kids)
    ensures Kept(d, d', live - KidBlocks(kids))
  {
    KidBlocksOf(kids, c);
    KidBlocksUpdate(kids, c, n);
    forall b | b in KidBlocks(kids) - Blocks(kids[c]) ensures b in live' && b !in Blocks(n) {
      assert b in live - Blocks(kids[c]);
    }
    ApartUpdate(kids, c, n);
    var ks := kids[c := n];
    forall b | b in live' - KidBlocks(ks) ensures b in live - KidBlocks(kids) {
      assert b in live' - Blocks(n);
    }
    forall b | b in live - KidBlocks(kids) ensures b in live' - KidBlocks(ks) {
      assert b in live - Blocks(kids[c]);
      assert b in live' - Blocks(n);
    }
    forall i | 0 <= i < FANOUT ensures Stored(d', ks[i]) {
      if i != c {
        KidBlocksOf(kids, i);
        assert Blocks(kids[i]) !! Blocks(kids[c]);
        StoredFrame(d, d', kids[i]);
      }
    }
  }

  /** Writing the node above finished children and releasing the old one. */
  lemma NodeDone(crc: Crc, d0: Image, live0: set<nat>, n: Node,
                 d1: Image, live1: set<nat>, kids: seq<Node>, level: nat,
                 p: Ptr, raw: Block, d2: Image, live2: set<nat>)
    requires level > 0 && Sound(crc, n, level) && Blocks(n) <= live0 && |d0| == |d1| == |d2|
    requires KidsOk(crc, d1, live1, kids, level - 1)
    requires live1 - KidBlocks(kids) == live0 - KidBlocks(Kids(n))
    requires Kept(d0, d1, live0 - KidBlocks(Kids(n)))
    requires p.block != 0 && p.block !in live1 && p.block < |d2| && d2[p.block] == raw && p.crc == crc(raw)
    requires forall i :: 0 <= i < FANOUT ==> Points(GetPtr(raw, i), kids[i])
    requires Kept(d1, d2, live1)
    requires live2 == (live1 + {p.block}) - (if n.Inner? then {n.ptr.block} else {})
    ensures var n' := Inner(p, raw, kids);
            Sound(crc, n', level) && Exchanged(d0, live0, n, d2, live2, n')
  {
    var n' := Inner(p, raw, kids);
    forall i | 0 <= i < FANOUT ensures Stored(d2, kids[i]) {
      KidBlocksOf(kids, i);
      StoredFrame(d1, d2, kids[i]);
    }
    HolesOwnNothing();
    assert Blocks(n') == {p.block} + KidBlocks(kids);
    if n.Inner? {
      assert n.ptr.block in live0 - KidBlocks(Kids(n));
      assert Blocks(n) == {n.ptr.block} + KidBlocks(Kids(n));
    }
    forall b | b in live0 - Blocks(n) ensures b in live2 - Blocks(n') && (b < |d0| ==> d2[b] == d0[b]) {
      assert b in live1 - KidBlocks(kids);
    }
    forall b | b in live2 - Blocks(n') ensures b in live0 - Blocks(n) {
      assert b in live1 - KidBlocks(kids);
    }
  }

  /** Writing a data block and releasing the one it replaces. */
  lemma LeafDone(crc: Crc, d: Image, live: set<nat>, n: Node, p: Ptr, data: Block, d': Image, live': set<nat>)
    requires Sound(crc, n, 0) && Blocks(n) <= live && |d| == |d'|
    requires p.block != 0 && p.block !in live && p.block < |d'| && d'[p.block] == data && p.crc == crc(data)
    requires Kept(d, d', live)
    requires live' == (live + {p.block}) - Blocks(n)
    ensures Sound(crc, Leaf(p, data), 0) && Exchanged(d, live, n, d', live', Leaf(p, data))
  {
  }

  lemma ExchangedTrans(d0: Image, live0: set<nat>, n0: Node, d1: Image, live1: set<nat>, n1: Node,
                       d2: Image, live2: set<nat>, n2: Node)
    requires Exchanged(d0, live0, n0, d1, live1, n1) && Exchanged(d1, live1, n1, d2, live2, n2)
    ensures Exchanged(d0, live0, n0, d2, live2, n2)
  {
  }

  lemma ExchangedFacts(d: Image, live: set<nat>, n: Node, d': Image, live': set<nat>, n': Node)
    requires Exchanged(d, live, n, d', live', n')
    ensures |d'| == |d| && Stored(d', n') && Blocks(n') <= live'
  {
  }

  lemma ExchangedSelf(d: Image, live: set<nat>, n: Node)
    requires Stored(d, n) && Blocks(n) <= live
    ensures Exchanged(d, live, n, d, live, n)
  {
  }

  /** A new root whose only child is the tree `n`. */
  lemma RootAdded(crc: Crc, d: Image, live: set<nat>, n: Node, height: nat, root: Ptr, m: Node, d': Image, live': set<nat>)
    requires Sound(crc, n, height) && !n.Hole? && Points(root, n) && Stored(d, n) && Blocks(n) <= live
    requires m.Inner? && m.kids == Holes()[0 := n] && m.raw == PutPtr(ZERO_BLOCK, 0, root)
    requires m.ptr.block != 0 && m.ptr.block !in live && m.ptr.crc == crc(m.raw)
    requires m.ptr.block < |d'| && d'[m.ptr.block] == m.raw
    requires Kept(d, d', live) && live' == live + {m.ptr.block as nat}
    ensures Sound(crc, m, height + 1) && Exchanged(d, live, n, d', live', m)
  {
    HolesOwnNothing();
    KidBlocksUpdate(Holes(), 0, n);
    ApartUpdate(Holes(), 0, n);
    forall i | 0 <= i < FANOUT ensures Points(GetPtr(m.raw, i), m.kids[i]) {
      GetPutPtr(ZERO_BLOCK, 0, root, i);
      GetPtrZero(i);
    }
    StoredFrame(d, d', n);
    forall i | 0 <= i < FANOUT ensures Stored(d', m.kids[i]) && Sound(crc, m.kids[i], height) {
    }
  }

  // ------------------------------------------------- rewriting a node's children

  /**
   A node being rewritten under edit `e`: `kids0` are its children before, on disk `d0`;
   `kids` are its children now, with the pointers in `raw`; those before `child` are done.
   */
  ghost predicate Building(crc: Crc, e: Edit, d0: Image, live0: set<nat>, kids0: seq<Node>,
                           d: Image, live: set<nat>, kids: seq<Node>, raw: Block,
                           level: nat, first: nat, child: nat) {
    && |kids0| == FANOUT
    && KidsOk(crc, d, live, kids, level)
    && live - KidBlocks(kids) == live0 - KidBlocks(kids0)
    && Kept(d0, d, live0 - KidBlocks(kids0))
    && (forall i :: 0 <= i < FANOUT ==> Points(GetPtr(raw, i), kids[i]))
    && (forall c :: 0 <= c < child && c < FANOUT ==> Edited(e, kids0[c], kids[c], level, ChildFirst(first, c, level)))
    && (forall c :: child <= c < FANOUT ==> kids[c] == kids0[c])
  }

  lemma BuildStart(crc: Crc, e: Edit, d: Image, live: set<nat>, n: Node, raw: Block, level: nat, first: nat)
    requires level > 0 && Sound(crc, n, level) && Stored(d, n) && Blocks(n) <= live
    requires raw == if n.Hole? then ZERO_BLOCK else n.raw
    ensures Building(crc, e, d, live, Kids(n), d, live, Kids(n), raw, level - 1, first, 0)
  {
    KidsOfNode(crc, d, live, n, level);
    if n.Hole? {
      forall i | 0 <= i < FANOUT ensures Points(GetPtr(raw, i), Kids(n)[i]) {
        GetPtrZero(i);
      }
    }
  }

  lemma BuildChild(crc: Crc, e: Edit, d0: Image, live0: set<nat>, kids0: seq<Node>,
                   d: Image, live: set<nat>, kids: seq<Node>, raw: Block, level: nat, first: nat, child: nat)
    requires Building(crc, e, d0, live0, kids0, d, live, kids, raw, level, first, child) && child < FANOUT
    ensures |kids| == FANOUT && |kids0| == FANOUT && kids[child] == kids0[child]
    ensures Points(GetPtr(raw, child), kids[child])
    ensures Sound(crc, kids[child], level) && Stored(d, kids[child]) && Blocks(kids[child]) <= live
  {
    KidBlocksOf(kids, child);
  }

  lemma BuildSkip(crc: Crc, e: Edit, d0: Image, live0: set<nat>, kids0: seq<Node>,
                  d: Image, live: set<nat>, kids: seq<Node>, raw: Block, level: nat, first: nat, child: nat)
    requires Building(crc, e, d0, live0, kids0, d, live, kids, raw, level, first, child) && child < FANOUT
    requires Edited(e, kids0[child], kids0[child], level, ChildFirst(first, child, level))
    ensures Building(crc, e, d0, live0, kids0, d, live, kids, raw, level, first, child + 1)
  {
    hide Edited, KidsOk, GetPtr, Points, KidBlocks, Kept;
  }

  lemma BuildStep(crc: Crc, e: Edit, d0: Image, live0: set<nat>, kids0: seq<Node>,
                  d: Image, live: set<nat>, kids: seq<Node>, raw: Block, level: nat, first: nat, child: nat,
                  d': Image, live': set<nat>, m: Node, p: Ptr, raw': Block)
    requires Building(crc, e, d0, live0, kids0, d, live, kids, raw, level, first, child) && child < FANOUT
    requires Exchanged(d, live, kids[child], d', live', m) && Sound(crc, m, level) && Points(p, m)
    requires Edited(e, kids[child], m, level, ChildFirst(first, child, level))
    requires raw' == PutPtr(raw, child, p) || (raw' == raw && p == GetPtr(raw, child))
    ensures Building(crc, e, d0, live0, kids0, d', live', kids[child := m], raw', level, first, child + 1)
  {
    hide Edited, Sound, Points, PutPtr, GetPtr;
    KidStep(crc, d, live, kids, level, child, m, d', live');
    forall i | 0 <= i < FANOUT ensures Points(GetPtr(raw', i), kids[child := m][i]) {
      GetPutPtr(raw, child, p, i);
    }
    forall b | b in live0 - KidBlocks(kids0) && b < |d0| ensures d'[b] == d0[b] {
      assert b in live - KidBlocks(kids);
    }
  }

  /** No child changed: neither did the node. */
  lemma BuildUnchanged(crc: Crc, e: Edit, d0: Image, live0: set<nat>, n: Node,
                       d: Image, live: set<nat>, raw: Block, level: nat, first: nat)
    requires n.Inner? && Sound(crc, n, level) && Blocks(n) <= live0 && Stored(d0, n)
    requires Building(crc, e, d0, live0, Kids(n), d, live, Kids(n), raw, level - 1, first, FANOUT)
    ensures Exchanged(d0, live0, n, d, live, n) && Edited(e, n, n, level, first)
  {
    hide Edited, At, GetPtr, Points;
    BuildOwner(crc, e, d0, live0, n, d, live, Kids(n), raw, level, first, FANOUT);
    EditedFromKids(e, n, n, level, first);
    assert n.ptr.block in live0 - KidBlocks(n.kids);
    assert Blocks(n) == {n.ptr.block as nat} + KidBlocks(n.kids);
    assert live == (live - KidBlocks(n.kids)) + KidBlocks(n.kids);
    assert live0 == (live0 - KidBlocks(n.kids)) + KidBlocks(n.kids);
  }

  /** No child is left: the node goes too. */
  lemma BuildEmpty(crc: Crc, e: Edit, d0: Image, live0: set<nat>, n: Node,
                   d: Image, live: set<nat>, kids: seq<Node>, raw: Block, level: nat, first: nat, live': set<nat>)
    requires n.Inner? && Sound(crc, n, level) && Blocks(n) <= live0 && Stored(d0, n)
    requires Building(crc, e, d0, live0, Kids(n), d, live, kids, raw, level - 1, first, FANOUT)
    requires forall c :: 0 <= c < FANOUT ==> kids[c].Hole?
    requires live' == live - {n.ptr.block as nat}
    ensures Exchanged(d0, live0, n, d, live', Hole) && Edited(e, n, Hole, level, first)
  {
    hide Edited, At, GetPtr, Points;
    assert kids == Holes();
    HolesOwnNothing();
    EditedFromKids(e, n, Hole, level, first);
    assert Blocks(n) == {n.ptr.block as nat} + KidBlocks(n.kids);
    assert live == live0 - KidBlocks(n.kids) by {
      assert live - KidBlocks(kids) == live;
    }
    assert live' == live0 - Blocks(n);
  }

  lemma ExchangedFreed(d: Image, live: set<nat>, n: Node, live': set<nat>)
    requires live' == live - Blocks(n)
    ensures Exchanged(d, live, n, d, live', Hole)
  {
  }

  /** Dropping a root whose only child is the first. */
  lemma RootDropped(crc: Crc, d: Image, live: set<nat>, n: Node, level: nat, live': set<nat>)
    requires n.Inner? && Sound(crc, n, level) && Stored(d, n) && Blocks(n) <= live
    requires n.kids == Holes()[0 := n.kids[0]]
    requires live' == live - {n.ptr.block as nat}
    ensures Exchanged(d, live, n, d, live', n.kids[0])
  {
    HolesOwnNothing();
    KidBlocksUpdate(Holes(), 0, n.kids[0]);
    assert Blocks(n) == {n.ptr.block as nat} + Blocks(n.kids[0]);
  }

  lemma SoundShape(crc: Crc, n: Node, level: nat)
    requires Sound(crc, n, level) && level > 0
    ensures !n.Leaf? && |Kids(n)| == FANOUT
  {
  }

  /** All children done, their node written to a new block and the old node released. */
  lemma BuildDone(crc: Crc, e: Edit, d0: Image, live0: set<nat>, n: Node,
                  d: Image, live: set<nat>, kids: seq<Node>, raw: Block, level: nat, first: nat,
                  p: Ptr, d': Image, live': set<nat>)
    requires level > 0 && Sound(crc, n, level) && Blocks(n) <= live0
    requires Building(crc, e, d0, live0, Kids(n), d, live, kids, raw, level - 1, first, FANOUT)
    requires p.block != 0 && p.block !in live && p.block < |d'| && d'[p.block] == raw && p.crc == crc(raw)
    requires Kept(d, d', live)
    requires live' == (live + {p.block as nat}) - (if n.Inner? then {n.ptr.block as nat} else {})
    ensures var n' := Inner(p, raw, kids);
            && Sound(crc, n', level) && Exchanged(d0, live0, n, d', live', n')
            && Edited(e, n, n', level, first)
  {
    hide Edited, At, Sound, Stored, Blocks, KidBlocks, Exchanged, GetPtr, Points;
    SoundShape(crc, n, level);
    NodeDone(crc, d0, live0, n, d, live, kids, level, p, raw, d', live');
    EditedFromKids(e, n, Inner(p, raw, kids), level, first);
  }

  /** The old node is still in use, and none of its children's blocks is its own, while they are rewritten. */
  lemma BuildOwner(crc: Crc, e: Edit, d0: Image, live0: set<nat>, n: Node,
                   d: Image, live: set<nat>, kids: seq<Node>, raw: Block, level: nat, first: nat, child: nat)
    requires n.Inner? && Sound(crc, n, level) && Blocks(n) <= live0
    requires Building(crc, e, d0, live0, Kids(n), d, live, kids, raw, level - 1, first, child)
    ensures n.ptr.block in live && n.ptr.block !in KidBlocks(kids)
  {
    assert n.ptr.block in live0 - KidBlocks(Kids(n));
  }
}
