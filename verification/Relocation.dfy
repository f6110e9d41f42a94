/** Relocation of an image in place: 64-bit words named by the image's own table move by a delta. */
module Relocation {
  import opened LittleEndian
  import opened Options

  const DIR64: nat := 10
  const ABSOLUTE: nat := 0

  datatype Error = NoRelocations | Malformed | UnsupportedType | OutOfRange

  /** What a table asks for: the words to move, in order, up to the first error if there is one. */
  datatype Plan = Plan(targets: seq<nat>, error: Option<Error>)

  // -------------------------------------------------------------- the table

  /** The entries of one block. */
  function BlockPlan(table: seq<byte>, page: nat, entry: nat, end: nat, size: nat): Plan
    requires entry <= end <= |table| && (end - entry) % 2 == 0
    decreases end - entry
  {
    if entry == end then Plan([], None)
    else
      var value := Short(table, entry);
      var target := page + value % 0x1000;
      if value / 0x1000 == ABSOLUTE then BlockPlan(table, page, entry + 2, end, size)
      else if value / 0x1000 != DIR64 then Plan([], Some(UnsupportedType))
      else if target + 8 > size then Plan([], Some(OutOfRange))
      else
        var rest := BlockPlan(table, page, entry + 2, end, size);
        Plan([target] + rest.targets, rest.error)
  }

  function BlockOk(table: seq<byte>, at: nat): bool
    requires at + 8 <= |table|
  {
    var block := Word(table, at + 4);
    8 <= block && at + block <= |table| && block % 2 == 0
  }

  /** Where a block ends. */
  function BlockEnd(table: seq<byte>, at: nat): (end: nat)
    requires at + 8 <= |table| && BlockOk(table, at)
    ensures at + 8 <= end <= |table| && (end - at) % 2 == 0 && end == at + Word(table, at + 4)
  {
    at + Word(table, at + 4)
  }

  function Then(a: Plan, b: Plan): Plan {
    if a.error.Some? then a else Plan(a.targets + b.targets, b.error)
  }

  /** The whole table from `at` on. */
  function TablePlan(table: seq<byte>, at: nat, size: nat): Plan
    decreases |table| - at
  {
    if at + 8 > |table| then Plan([], None)
    else if !BlockOk(table, at) then Plan([], Some(Malformed))
    else
      var end := at + Word(table, at + 4);
      Then(BlockPlan(table, Word(table, at), at + 8, end, size), TablePlan(table, end, size))
  }

  lemma {:induction false} BlockInRange(table: seq<byte>, page: nat, entry: nat, end: nat, size: nat)
    requires entry <= end <= |table| && (end - entry) % 2 == 0
    ensures InRange(BlockPlan(table, page, entry, end, size).targets, size)
    decreases end - entry
  {
    if entry < end {
      BlockInRange(table, page, entry + 2, end, size);
    }
  }

  /** A plan names only words inside the image. */
  lemma {:induction false} PlanInRange(table: seq<byte>, at: nat, size: nat)
    ensures InRange(TablePlan(table, at, size).targets, size)
    decreases |table| - at
  {
    if at + 8 <= |table| && BlockOk(table, at) {
      var end := at + Word(table, at + 4);
      BlockInRange(table, Word(table, at), at + 8, end, size);
      PlanInRange(table, end, size);
    }
  }

  /** The entry at `e` of a block is to move the word at `t`. */
  predicate Asks(table: seq<byte>, page: nat, e: nat, t: nat)
    requires e + 2 <= |table|
  {
    Short(table, e) / 0x1000 == 10 && t == page + Short(table, e) % 0x1000
  }

  /** Nothing is wrong with the entry at `e`. */
  predicate Fine(table: seq<byte>, page: nat, e: nat, size: nat)
    requires e + 2 <= |table|
  {
    var kind := Short(table, e) / 0x1000;
    kind == 0 || (kind == 10 && page + Short(table, e) % 0x1000 + 8 <= size)
  }

  ghost predicate Entry(table: seq<byte>, from: nat, end: nat, e: nat) {
    from <= e < end <= |table| && (e - from) % 2 == 0 && (end - from) % 2 == 0
  }

  /** Of a block: the words its entries ask for, if nothing is wrong with any of them. */
  lemma {:induction false} BlockAsks(table: seq<byte>, page: nat, entry: nat, end: nat, size: nat)
    requires entry <= end <= |table| && (end - entry) % 2 == 0
    ensures var plan := BlockPlan(table, page, entry, end, size);
            && (plan.error.None? <==> forall e: nat :: Entry(table, entry, end, e) ==> Fine(table, page, e, size))
            && (plan.error.None? ==>
                  forall t: nat :: t in plan.targets <==> exists e: nat :: Entry(table, entry, end, e) && Asks(table, page, e, t))
    decreases end - entry
  {
    hide Short;
    if entry < end {
      var next := entry + 2;
      BlockAsks(table, page, next, end, size);
      forall e: nat ensures Entry(table, entry, end, e) <==> e == entry || Entry(table, next, end, e) {
      }
      var plan := BlockPlan(table, page, entry, end, size);
      if plan.error.None? {
        assert Fine(table, page, entry, size);
        forall t: nat
          ensures t in plan.targets <==> exists e: nat :: Entry(table, entry, end, e) && Asks(table, page, e, t)
        {
          if Asks(table, page, entry, t) {
            assert Entry(table, entry, end, entry);
          }
        }
      } else if Fine(table, page, entry, size) {
        assert BlockPlan(table, page, next, end, size).error.Some?;
      } else {
        assert Entry(table, entry, end, entry);
      }
    }
  }

  /** The block at `b` is the one at `at`, or comes after it. */
  ghost predicate Block(table: seq<byte>, at: nat, b: nat)
    decreases |table| - at
  {
    at + 8 <= |table| && BlockOk(table, at) && (b == at || Block(table, at + Word(table, at + 4), b))
  }

  /** An entry of some block asks for the word at `t`. */
  ghost predicate Named(table: seq<byte>, at: nat, t: nat) {
    exists b: nat, e: nat :: Block(table, at, b) && AsksIn(table, b, e, t)
  }

  ghost predicate AsksIn(table: seq<byte>, b: nat, e: nat, t: nat) {
    && b + 8 <= |table| && BlockOk(table, b)
    && Entry(table, b + 8, b + Word(table, b + 4), e) && Asks(table, Word(table, b), e, t)
  }

  /** A table with nothing wrong in it: exactly the words its entries name are moved. */
  lemma {:induction false} TargetsAre(table: seq<byte>, at: nat, size: nat)
    requires TablePlan(table, at, size).error.None?
    ensures forall t: nat :: t in TablePlan(table, at, size).targets <==> Named(table, at, t)
    decreases |table| - at
  {
    hide Word, Short, Asks, BlockPlan;
    if at + 8 <= |table| {
      var end := at + Word(table, at + 4);
      var first, rest := BlockPlan(table, Word(table, at), at + 8, end, size), TablePlan(table, end, size);
      BlockAsks(table, Word(table, at), at + 8, end, size);
      TargetsAre(table, end, size);
      forall t: nat ensures Named(table, at, t) <==> t in first.targets || Named(table, end, t) {
        if t in first.targets {
          var e: nat :| Entry(table, at + 8, end, e) && Asks(table, Word(table, at), e, t);
          assert Block(table, at, at) && AsksIn(table, at, e, t);
        }
        if Named(table, end, t) {
          var b: nat, e: nat :| Block(table, end, b) && AsksIn(table, b, e, t);
          assert Block(table, at, b);
        }
      }
    }
  }

  // -------------------------------------------------------------- the words

  predicate InRange(targets: seq<nat>, size: nat) {
    forall i :: 0 <= i < |targets| ==> targets[i] + 8 <= size
  }

  predicate Clear(t: nat, targets: seq<nat>) {
    forall i :: 0 <= i < |targets| ==> t + 8 <= targets[i] || targets[i] + 8 <= t
  }

  predicate Apart(targets: seq<nat>) {
    forall i, j :: 0 <= i < j < |targets| ==> targets[i] + 8 <= targets[j] || targets[j] + 8 <= targets[i]
  }

  function WordAt(image: seq<byte>, t: nat): u64
    requires t + 8 <= |image|
  {
    FromLe64(image[t..t + 8])
  }

  function Wrap(n: nat): u64 {
    n % 0x1_0000_0000_0000_0000
  }

  function Put(image: seq<byte>, t: nat, word: seq<byte>): (r: seq<byte>)
    requires |word| == 8 && t + 8 <= |image|
    ensures |r| == |image| && r[t..t + 8] == word
    ensures forall i :: 0 <= i < |r| && !(t <= i < t + 8) ==> r[i] == image[i]
  {
    image[..t] + word + image[t + 8..]
  }

  function Move(image: seq<byte>, t: nat, delta: nat): (r: seq<byte>)
    requires t + 8 <= |image|
    ensures |r| == |image| && WordAt(r, t) == Wrap(WordAt(image, t) + delta)
  {
    Put(image, t, Le64(Wrap(WordAt(image, t) + delta)))
  }

  function MoveAll(image: seq<byte>, targets: seq<nat>, delta: nat): (r: seq<byte>)
    requires InRange(targets, |image|)
    ensures |r| == |image|
    decreases |targets|
  {
    if targets == [] then image
    else
      assert forall i :: 0 <= i < |targets[1..]| ==> targets[1..][i] == targets[i + 1];
      MoveAll(Move(image, targets[0], delta), targets[1..], delta)
  }

  lemma MoveElsewhere(image: seq<byte>, t: nat, delta: nat, u: nat)
    requires t + 8 <= |image| && u + 8 <= |image| && (t + 8 <= u || u + 8 <= t)
    ensures WordAt(Move(image, t, delta), u) == WordAt(image, u)
  {
    assert Move(image, t, delta)[u..u + 8] == image[u..u + 8];
  }

  lemma PutAgain(image: seq<byte>, t: nat, v: seq<byte>, w: seq<byte>)
    requires |v| == |w| == 8 && t + 8 <= |image|
    ensures Put(Put(image, t, v), t, w) == Put(image, t, w)
  {
  }

  lemma PutsCommute(image: seq<byte>, t: nat, u: nat, v: seq<byte>, w: seq<byte>)
    requires |v| == |w| == 8 && t + 8 <= |image| && u + 8 <= |image| && (t + 8 <= u || u + 8 <= t)
    ensures Put(Put(image, t, v), u, w) == Put(Put(image, u, w), t, v)
  {
  }

  lemma WrapSums(w: nat, a: nat, b: nat)
    ensures Wrap(Wrap(w + a) + b) == Wrap(w + Wrap(a + b))
  {
    assert Wrap(Wrap(w + a) + b) == Wrap(w + a + b);
  }

  lemma MoveTwice(image: seq<byte>, t: nat, a: nat, b: nat)
    requires t + 8 <= |image|
    ensures Move(Move(image, t, a), t, b) == Move(image, t, Wrap(a + b))
  {
    hide Put, Wrap, Le64, FromLe64;
    var w := WordAt(image, t);
    WrapSums(w, a, b);
    PutAgain(image, t, Le64(Wrap(w + a)), Le64(Wrap(Wrap(w + a) + b)));
  }

  lemma MovesCommute(image: seq<byte>, t: nat, u: nat, a: nat, b: nat)
    requires t + 8 <= |image| && u + 8 <= |image| && (t + 8 <= u || u + 8 <= t)
    ensures Move(Move(image, t, a), u, b) == Move(Move(image, u, b), t, a)
  {
    hide Put, Wrap, Le64, FromLe64;
    MoveElsewhere(image, t, a, u);
    MoveElsewhere(image, u, b, t);
    PutsCommute(image, t, u, Le64(Wrap(WordAt(image, t) + a)), Le64(Wrap(WordAt(image, u) + b)));
  }

  /** A word clear of the targets may be moved before them or after. */
  lemma {:induction false} MovePast(image: seq<byte>, targets: seq<nat>, t: nat, a: nat, b: nat)
    requires InRange(targets, |image|) && t + 8 <= |image| && Clear(t, targets)
    ensures Move(MoveAll(image, targets, a), t, b) == MoveAll(Move(image, t, b), targets, a)
    decreases |targets|
  {
    hide Move;
    if targets != [] {
      var first, rest := targets[0], targets[1..];
      assert forall i :: 0 <= i < |rest| ==> rest[i] == targets[i + 1];
      MovePast(Move(image, first, a), rest, t, a, b);
      MovesCommute(image, first, t, a, b);
    }
  }

  /** Relocation by `a` and then by `b` is relocation by their sum, when no two targets overlap. */
  lemma {:induction false} RelocateTwice(image: seq<byte>, targets: seq<nat>, a: nat, b: nat)
    requires InRange(targets, |image|) && Apart(targets)
    ensures MoveAll(MoveAll(image, targets, a), targets, b) == MoveAll(image, targets, Wrap(a + b))
    decreases |targets|
  {
    hide Move, Wrap;
    if targets != [] {
      var first, rest := targets[0], targets[1..];
      assert forall i :: 0 <= i < |rest| ==> rest[i] == targets[i + 1];
      assert Clear(first, rest) && Apart(rest);
      var once := Move(image, first, a);
      MovePast(once, rest, first, a, b);
      MoveTwice(image, first, a, b);
      RelocateTwice(Move(image, first, Wrap(a + b)), rest, a, b);
    }
  }

  lemma MoveStays(image: seq<byte>, t: nat)
    requires t + 8 <= |image|
    ensures Move(image, t, 0) == image
  {
    hide Put, Wrap, FromLe64, Le64;
    WrapStays(WordAt(image, t));
    LeBack(image[t..t + 8]);
    PutSame(image, t);
  }

  lemma WrapStays(w: u64)
    ensures Wrap(w + 0) == w
  {
  }

  lemma LeBack(word: seq<byte>)
    requires |word| == 8
    ensures Le64(FromLe64(word)) == word
  {
    ToFromBytes(word);
  }

  lemma PutSame(image: seq<byte>, t: nat)
    requires t + 8 <= |image|
    ensures Put(image, t, image[t..t + 8]) == image
  {
  }

  lemma {:induction false} MoveNowhere(image: seq<byte>, targets: seq<nat>)
    requires InRange(targets, |image|)
    ensures MoveAll(image, targets, 0) == image
    decreases |targets|
  {
    hide Move;
    if targets != [] {
      MoveStays(image, targets[0]);
      MoveNowhere(image, targets[1..]);
    }
  }

  /** Relocation back by the same amount restores the image. */
  lemma RelocateBack(image: seq<byte>, targets: seq<nat>, delta: u64)
    requires InRange(targets, |image|) && Apart(targets)
    ensures MoveAll(MoveAll(image, targets, delta), targets, 0x1_0000_0000_0000_0000 - delta) == image
  {
    RelocateTwice(image, targets, delta, 0x1_0000_0000_0000_0000 - delta);
    MoveNowhere(image, targets);
  }

  lemma {:induction false} MoveAllClear(image: seq<byte>, targets: seq<nat>, delta: nat, u: nat)
    requires InRange(targets, |image|) && u + 8 <= |image| && Clear(u, targets)
    ensures WordAt(MoveAll(image, targets, delta), u) == WordAt(image, u)
    decreases |targets|
  {
    hide Move, WordAt;
    if targets != [] {
      assert forall i :: 0 <= i < |targets[1..]| ==> targets[1..][i] == targets[i + 1];
      MoveElsewhere(image, targets[0], delta, u);
      MoveAllClear(Move(image, targets[0], delta), targets[1..], delta, u);
    }
  }

  /** Each named word moves by the delta, once. */
  lemma {:induction false} WordMoved(image: seq<byte>, targets: seq<nat>, delta: nat, k: nat)
    requires InRange(targets, |image|) && Apart(targets) && k < |targets|
    ensures WordAt(MoveAll(image, targets, delta), targets[k]) == Wrap(WordAt(image, targets[k]) + delta)
    decreases |targets|
  {
    hide WordAt, Wrap;
    var first, rest := targets[0], targets[1..];
    assert forall i :: 0 <= i < |rest| ==> rest[i] == targets[i + 1];
    assert Clear(first, rest) && Apart(rest);
    var once := Move(image, first, delta);
    if k == 0 {
      MoveAllClear(once, rest, delta, first);
    } else {
      WordMoved(once, rest, delta, k - 1);
      MoveElsewhere(image, first, delta, targets[k]);
    }
  }

  predicate Outside(i: int, targets: seq<nat>) {
    forall k :: 0 <= k < |targets| ==> !(targets[k] <= i < targets[k] + 8)
  }

  /** Every byte outside the named words stays. */
  lemma {:induction false} BytesKept(image: seq<byte>, targets: seq<nat>, delta: nat, i: nat)
    requires InRange(targets, |image|) && i < |image| && Outside(i, targets)
    ensures MoveAll(image, targets, delta)[i] == image[i]
    decreases |targets|
  {
    if targets != [] {
      assert forall k :: 0 <= k < |targets[1..]| ==> targets[1..][k] == targets[k + 1];
      BytesKept(Move(image, targets[0], delta), targets[1..], delta, i);
    }
  }

  lemma {:induction false} MoveAllMore(image: seq<byte>, a: seq<nat>, b: seq<nat>, delta: nat)
    requires InRange(a, |image|) && InRange(b, |image|)
    ensures InRange(a + b, |image|)
    ensures MoveAll(image, a + b, delta) == MoveAll(MoveAll(image, a, delta), b, delta)
    decreases |a|
  {
    hide Move;
    if a == [] {
      assert a + b == b;
    } else {
      assert forall i :: 0 <= i < |a[1..]| ==> a[1..][i] == a[i + 1];
      assert (a + b)[1..] == a[1..] + b;
      MoveAllMore(Move(image, a[0], delta), a[1..], b, delta);
    }
  }

  // ------------------------------------------------------------ the relocator

  /** No target touches the table itself. */
  predicate OffTable(targets: seq<nat>, rva: nat, length: nat) {
    forall k :: 0 <= k < |targets| ==> targets[k] + 8 <= rva || rva + length <= targets[k]
  }

  lemma TableKept(image: seq<byte>, targets: seq<nat>, delta: nat, rva: nat, length: nat)
    requires InRange(targets, |image|) && rva + length <= |image| && OffTable(targets, rva, length)
    ensures MoveAll(image, targets, delta)[rva..rva + length] == image[rva..rva + length]
  {
    forall i | rva <= i < rva + length ensures MoveAll(image, targets, delta)[i] == image[i] {
      BytesKept(image, targets, delta, i);
    }
  }

  /** One relocation: the image it starts from, where its table lies, and the amount. */
  datatype Job = Job(origin: seq<byte>, rva: nat, length: nat, delta: u64) {
    predicate Ok() {
      rva + length <= |origin|
    }

    function Table(): seq<byte>
      requires Ok()
    {
      origin[rva..rva + length]
    }

    function Whole(): Plan
      requires Ok()
    {
      TablePlan(Table(), 0, |origin|)
    }

    /** Part way: the targets in `done` are moved, the table is as it was, and `rest` of the plan is left. */
    ghost predicate Underway(now: seq<byte>, done: seq<nat>, rest: Plan)
      requires Ok()
    {
      && Whole() == Then(Plan(done, None), rest)
      && OffTable(Whole().targets, rva, length)
      && InRange(done, |origin|)
      && now == MoveAll(origin, done, delta)
      && now[rva..rva + length] == Table()
    }

    lemma Begins()
      requires Ok() && OffTable(Whole().targets, rva, length)
      ensures Underway(origin, [], Whole())
    {
      assert [] + Whole().targets == Whole().targets;
    }

    lemma Step(now: seq<byte>, done: seq<nat>, t: nat, more: Plan)
      requires Ok() && Underway(now, done, Plan([t] + more.targets, more.error))
      ensures t + 8 <= |now| && Underway(Move(now, t, delta), done + [t], more)
    {
      hide Move, TablePlan;
      var all := Whole().targets;
      assert all == done + [t] + more.targets;
      PlanInRange(Table(), 0, |origin|);
      assert all[|done|] == t;
      assert InRange([t], |origin|);
      MoveAllMore(origin, done, [t], delta);
      assert MoveAll(now, [t], delta) == Move(now, t, delta);
      forall k | 0 <= k < |done + [t]| ensures (done + [t])[k] == all[k] {}
      TableKept(origin, done + [t], delta, rva, length);
    }

    lemma Ends(now: seq<byte>, done: seq<nat>, error: Option<Error>)
      requires Ok() && Underway(now, done, Plan([], error))
      ensures Whole() == Plan(done, error) && InRange(done, |origin|) && now == MoveAll(origin, done, delta)
    {
      assert done + [] == done;
    }
  }

  /** What the next entry of a block asks for. */
  lemma EntryPlan(table: seq<byte>, page: nat, entry: nat, end: nat, size: nat, rest: Plan)
    requires entry < end <= |table| && (end - entry) % 2 == 0
    ensures var value := Short(table, entry);
            var target := page + value % 0x1000;
            var more := Then(BlockPlan(table, page, entry + 2, end, size), rest);
            Then(BlockPlan(table, page, entry, end, size), rest)
            == if value / 0x1000 == ABSOLUTE then more
               else if value / 0x1000 != DIR64 then Plan([], Some(UnsupportedType))
               else if target + 8 > size then Plan([], Some(OutOfRange))
               else Plan([target] + more.targets, more.error)
  {
    var block := BlockPlan(table, page, entry + 2, end, size);
    var target := page + Short(table, entry) % 0x1000;
    assert [target] + block.targets + rest.targets == [target] + (block.targets + rest.targets);
  }

  /** Stores a 64-bit word in place. */
  method StoreWord(image: array<byte>, t: nat, word: seq<byte>)
    requires t + 8 <= image.Length && |word| == 8
    modifies image
    ensures image[..] == Put(old(image[..]), t, word)
  {
    for i := 0 to 8
      invariant forall j :: 0 <= j < image.Length ==>
        image[j] == if t <= j < t + i then word[j - t] else old(image[j])
    {
      image[t + i] := word[i];
    }
  }

  /** The entries of one block of the table, which is read from the image that is being changed. */
  method ApplyBlock(image: array<byte>, ghost job: Job, rva: nat, length: nat, delta: u64, page: nat, from: nat, end: nat,
                    ghost before: seq<nat>, ghost rest: Plan, ghost good: bool)
    returns (error: Option<Error>, applied: nat, ghost done: seq<nat>)
    requires rva + length <= image.Length && from <= end <= length && (end - from) % 2 == 0
    requires job.Ok() && |job.origin| == image.Length && (job.rva, job.length, job.delta) == (rva, length, delta)
    requires good ==> job.Underway(image[..], before, Then(BlockPlan(job.Table(), page, from, end, image.Length), rest))
    modifies image
    ensures good ==> job.Underway(image[..], done, if error.Some? then Plan([], error) else rest)
    ensures good ==> applied == |done| - |before|
  {
    hide BlockPlan, Short, Then, Put, WordAt, Le64, FromLe64, Wrap, Job.Underway;
    var entry := from;
    applied, done, error := 0, before, None;
    ghost var table := job.Table();
    while entry < end
      invariant from <= entry <= end && (end - entry) % 2 == 0
      invariant good ==> job.Underway(image[..], done, Then(BlockPlan(table, page, entry, end, image.Length), rest))
      invariant good ==> applied == |done| - |before|
    {
      var value := Short(image[rva..rva + length], entry);
      EntryPlan(table, page, entry, end, image.Length, rest);
      if good {
        TableRead(job, image[..], done, Then(BlockPlan(table, page, entry, end, image.Length), rest));
        assert image[..][rva..rva + length] == image[rva..rva + length];
      }
      var target := page + value % 0x1000;
      if value / 0x1000 == DIR64 {
        if target + 8 > image.Length {
          return Some(OutOfRange), applied, done;
        }
        if good {
          job.Step(image[..], done, target, Then(BlockPlan(table, page, entry + 2, end, image.Length), rest));
        }
        StoreWord(image, target, Le64(Wrap(WordAt(image[..], target) + delta)));
        applied := applied + 1;
        done := done + [target];
      } else if value / 0x1000 != ABSOLUTE {
        return Some(UnsupportedType), applied, done;
      }
      entry := entry + 2;
    }
    BlockOver(table, page, end, image.Length, rest);
  }

  lemma BlockOver(table: seq<byte>, page: nat, end: nat, size: nat, rest: Plan)
    requires end <= |table|
    ensures Then(BlockPlan(table, page, end, end, size), rest) == rest
  {
    assert [] + rest.targets == rest.targets;
  }

  lemma TableRead(job: Job, now: seq<byte>, done: seq<nat>, rest: Plan)
    requires job.Ok() && job.Underway(now, done, rest)
    ensures |now| == |job.origin| && now[job.rva..job.rva + job.length] == job.Table()
  {
  }

  lemma BlockNext(table: seq<byte>, at: nat, size: nat)
    ensures TablePlan(table, at, size)
         == if at + 8 > |table| then Plan([], None)
            else if !BlockOk(table, at) then Plan([], Some(Malformed))
            else
              var end := at + Word(table, at + 4);
              Then(BlockPlan(table, Word(table, at), at + 8, end, size), TablePlan(table, end, size))
  {
  }

  /**
   Relocates an image in place. When no target touches the table, exactly the
   words the table names up to its first error have moved.
   */
  method ApplyRelocations(image: array<byte>, rva: nat, length: nat, delta: u64)
    returns (error: Option<Error>, applied: nat)
    modifies image
    ensures rva == 0 || length == 0 ==> error == Some(NoRelocations) && image[..] == old(image[..])
    ensures rva != 0 && length != 0 && rva + length > image.Length ==>
              error == Some(OutOfRange) && image[..] == old(image[..])
    ensures rva != 0 && length != 0 && rva + length <= image.Length ==>
              var plan := TablePlan(old(image[..])[rva..rva + length], 0, image.Length);
              OffTable(plan.targets, rva, length) ==>
                && error == plan.error
                && InRange(plan.targets, image.Length)
                && image[..] == MoveAll(old(image[..]), plan.targets, delta)
                && applied == |plan.targets|
  {
    hide TablePlan, MoveAll, Job.Underway, OffTable, InRange;
    applied := 0;
    if rva == 0 || length == 0 {
      return Some(NoRelocations), 0;
    }
    if rva + length > image.Length {
      return Some(OutOfRange), 0;
    }
    ghost var job := Job(image[..], rva, length, delta);
    ghost var done, good := [], OffTable(job.Whole().targets, rva, length);
    if good {
      job.Begins();
    }
    error, applied, done := ApplyTable(image, job, rva, length, delta, good);
    if good {
      job.Ends(image[..], done, error);
    }
  }

  /** Block after block, up to the end of the table or the first error. */
  method ApplyTable(image: array<byte>, ghost job: Job, rva: nat, length: nat, delta: u64, ghost good: bool)
    returns (error: Option<Error>, applied: nat, ghost done: seq<nat>)
    requires rva + length <= image.Length
    requires job.Ok() && |job.origin| == image.Length && (job.rva, job.length, job.delta) == (rva, length, delta)
    requires good ==> job.Underway(image[..], [], job.Whole())
    modifies image
    ensures good ==> job.Underway(image[..], done, Plan([], error)) && applied == |done|
  {
    hide BlockPlan, TablePlan, BlockOk, Word, Then, MoveAll, Job.Underway;
    ghost var table := job.Table();
    applied, done := 0, [];
    var at := 0;
    while at + 8 <= length
      invariant good ==> job.Underway(image[..], done, TablePlan(table, at, image.Length)) && applied == |done|
      decreases length - at
    {
      var now := image[rva..rva + length];
      assert image[..][rva..rva + length] == now;
      if good {
        TableRead(job, image[..], done, TablePlan(table, at, image.Length));
      }
      BlockNext(table, at, image.Length);
      if !BlockOk(now, at) {
        return Some(Malformed), applied, done;
      }
      var end := BlockEnd(now, at);
      var count;
      ghost var more;
      error, count, more := ApplyBlock(image, job, rva, length, delta, Word(now, at), at + 8, end,
                                       done, TablePlan(table, end, image.Length), good);
      applied, done := applied + count, more;
      if error.Some? {
        return;
      }
      at := end;
    }
    BlockNext(table, at, image.Length);
    error := None;
  }

  /**
   Two relocations in place, by `a` and then by `b`: the second finds the table
   as the first did, and the image is the one a single relocation by the sum
   leaves. By amounts that cancel, it is the one there was.
   */
  method ApplyTwice(image: array<byte>, rva: nat, length: nat, a: u64, b: u64)
    returns (error: Option<Error>, applied: nat)
    requires rva != 0 && length != 0 && rva + length <= image.Length
    requires var targets := TablePlan(image[..][rva..rva + length], 0, image.Length).targets;
             OffTable(targets, rva, length) && Apart(targets)
    modifies image
    ensures var plan := TablePlan(old(image[..])[rva..rva + length], 0, image.Length);
            && error == plan.error && applied == |plan.targets|
            && InRange(plan.targets, image.Length)
            && image[..] == MoveAll(old(image[..]), plan.targets, Wrap(a + b))
    ensures Wrap(a + b) == 0 ==> image[..] == old(image[..])
  {
    hide TablePlan, MoveAll, OffTable, Apart, InRange, Wrap;
    ghost var was := image[..];
    ghost var plan := TablePlan(was[rva..rva + length], 0, image.Length);
    error, applied := ApplyRelocations(image, rva, length, a);
    TableKept(was, plan.targets, a, rva, length);
    error, applied := ApplyRelocations(image, rva, length, b);
    RelocateTwice(was, plan.targets, a, b);
    MoveNowhere(was, plan.targets);
  }
}
