/**
 AML field access: a run of bits in a region, read and written in whole access
 units, and the same for fields of buffers. Words are 64 bits, lowest first.
 */
module AmlFields {
  import opened Options
  import opened Arithmetic

  type Bits = seq<bool>
  type Word = w: Bits | |w| == 64 witness seq(64, _ => false)

  function Fill(n: nat, bit: bool): (b: Bits)
    ensures |b| == n && forall i :: 0 <= i < n ==> b[i] == bit
  {
    seq(n, _ => bit)
  }

  // ------------------------------------------------------------ word operators

  function And(a: Word, b: Word): Word {
    seq(64, i requires 0 <= i < 64 => a[i] && b[i])
  }

  function Or(a: Word, b: Word): Word {
    seq(64, i requires 0 <= i < 64 => a[i] || b[i])
  }

  function Not(a: Word): Word {
    seq(64, i requires 0 <= i < 64 => !a[i])
  }

  function ShiftLeft(a: Word, n: nat): Word
    requires n < 64
  {
    Fill(n, false) + a[..64 - n]
  }

  function ShiftRight(a: Word, n: nat): Word {
    if n >= 64 then Fill(64, false) else a[n..] + Fill(n, false)
  }

  function LowBits(n: nat): Word {
    if n >= 64 then Fill(64, true) else Fill(n, true) + Fill(64 - n, false)
  }

  /** Some bits of a word, moved to its low end. */
  lemma PieceOf(raw: Word, at: nat, take: nat)
    requires at + take <= 64
    ensures And(ShiftRight(raw, at), LowBits(take)) == raw[at..at + take] + Fill(64 - take, false)
  {
  }

  /** A word with some of its bits replaced. */
  lemma MergedWord(base: Word, piece: Word, at: nat, take: nat)
    requires at + take <= 64 && at < 64
    ensures var mask := ShiftLeft(LowBits(take), at);
            Or(And(base, Not(mask)), And(ShiftLeft(piece, at), mask)) == base[..at] + piece[..take] + base[at + take..]
  {
  }

  // ---------------------------------------------------------------- bit ranges

  predicate At(b: Bits, i: nat) {
    i < |b| && b[i]
  }

  /** Bits of `b`; those past its end read as zero. */
  function Slice(b: Bits, at: nat, n: nat): (r: Bits)
    ensures |r| == n && forall i :: 0 <= i < n ==> r[i] == At(b, at + i)
  {
    seq(n, i requires 0 <= i < n => At(b, at + i))
  }

  /** Bits of `b` replaced; those past its end are dropped. */
  function Put(b: Bits, at: nat, piece: Bits): (r: Bits)
    ensures |r| == |b|
    ensures forall i :: 0 <= i < |b| ==> r[i] == if at <= i < at + |piece| then piece[i - at] else b[i]
  {
    seq(|b|, i requires 0 <= i < |b| => if at <= i < at + |piece| then piece[i - at] else b[i])
  }

  lemma PutNothing(b: Bits, at: nat)
    ensures Put(b, at, []) == b
  {
  }

  lemma PutMore(b: Bits, at: nat, p: Bits, q: Bits)
    ensures Put(Put(b, at, p), at + |p|, q) == Put(b, at, p + q)
  {
  }

  lemma SliceMore(b: Bits, at: nat, m: nat, n: nat)
    ensures Slice(b, at, m) + Slice(b, at + m, n) == Slice(b, at, m + n)
  {
  }

  function Min(a: nat, b: nat): nat {
    if a <= b then a else b
  }

  function Bytes(bits: nat): nat {
    (bits + 7) / 8
  }

  /** What AML sees of `bits`: an integer, or a buffer of whole bytes when 64 bits do not hold them. */
  datatype Shown = Integer(word: Word) | Buffer(bits: Bits)

  function Show(bits: Bits): Shown {
    if |bits| <= 64 then Integer(Slice(bits, 0, 64)) else Buffer(Slice(bits, 0, 8 * Bytes(|bits|)))
  }

  /** The bits a value supplies when it is stored. */
  function Supplied(v: Shown): Bits {
    match v case Integer(w) => w case Buffer(b) => b
  }

  /** Bit by bit: an integer of 64 bits, or a buffer to the end of the last byte; zeros past the bits shown. */
  lemma ShowIs(bits: Bits)
    ensures |bits| <= 64 ==> Show(bits).Integer? && forall i :: 0 <= i < 64 ==> Show(bits).word[i] == (i < |bits| && bits[i])
    ensures |bits| > 64 ==>
      && Show(bits).Buffer? && |Show(bits).bits| % 8 == 0 && |bits| <= |Show(bits).bits| < |bits| + 8
      && forall i :: 0 <= i < |Show(bits).bits| ==> Show(bits).bits[i] == (i < |bits| && bits[i])
    ensures Supplied(Show(bits))[..|bits|] == bits
  {
  }

  /** Storing a value and reading the same bits gives the value, cut or zero-extended to the field. */
  lemma StoreThenRead(b: Bits, at: nat, n: nat, v: Shown)
    requires at + n <= |b|
    ensures var stored := Put(b, at, Slice(Supplied(v), 0, n));
            && Slice(stored, at, n) == Slice(Supplied(v), 0, n)
            && Show(Slice(stored, at, n)) == Show(Slice(Supplied(v), 0, n))
  {
    assert Slice(Put(b, at, Slice(Supplied(v), 0, n)), at, n) == Slice(Supplied(v), 0, n);
  }

  /** A value read from a field and stored back changes nothing. */
  lemma ReadThenStore(b: Bits, at: nat, n: nat)
    requires at + n <= |b|
    ensures Put(b, at, Slice(Supplied(Show(Slice(b, at, n))), 0, n)) == b
  {
    var kept := Slice(b, at, n);
    assert n > 64 ==> n <= 8 * Bytes(n);
    assert Slice(Supplied(Show(kept)), 0, n) == kept;
  }

  method GetBits(b: Bits, at: nat, count: nat) returns (w: Word)
    ensures w == Slice(b, at, Min(count, 64)) + Fill(64 - Min(count, 64), false)
  {
    w := Fill(64, false);
    var n := Min(count, 64);
    for i := 0 to n
      invariant w == Slice(b, at, i) + Fill(64 - i, false)
    {
      if at + i < |b| && b[at + i] {
        w := w[i := true];
      }
    }
  }

  method PutBits(b: Bits, at: nat, w: Word, count: nat) returns (r: Bits)
    ensures r == Put(b, at, w[..Min(count, 64)])
  {
    r := b;
    var n := Min(count, 64);
    for i := 0 to n
      invariant r == Put(b, at, w[..i])
    {
      if at + i < |r| {
        r := r[at + i := w[i]];
      }
    }
  }

  // -------------------------------------------------------------- access units

  /** A field of a region: where it starts, how long it is, how the region is accessed, and the update rule. */
  datatype Field = Field(offset: nat, length: nat, unit: nat, update: nat)

  predicate FieldOk(field: Field) {
    field.unit in {1, 2, 4, 8}
  }

  /** Where in its access unit the next bit of a field lies. */
  function InUnit(field: Field, done: nat): (r: nat)
    requires FieldOk(field)
    ensures r < 8 * field.unit && r <= field.offset + done
  {
    (field.offset + done) % (8 * field.unit)
  }

  /** The end of the last access unit a field touches. */
  function LastBit(field: Field): nat
    requires FieldOk(field)
  {
    if field.length == 0 then 0
    else
      var last := field.offset + field.length - 1;
      last - last % (8 * field.unit) + 8 * field.unit
  }

  lemma ModShift(x: nat, k: nat, d: nat)
    requires d > 0 && x % d + k < d
    ensures (x + k) % d == x % d + k
  {
    DivExact(x / d, d, x % d + k);
  }

  lemma RoundMonotone(a: nat, b: nat, d: nat)
    requires d > 0 && a <= b
    ensures a - a % d <= b - b % d
  {
    if a / d > b / d {
      MulMonotone(b / d + 1, a / d, d);
      assert false;
    }
    MulMonotone(a / d, b / d, d);
  }

  /** The unit that holds a bit of the field lies before the last unit's end. */
  lemma UnitFits(field: Field, bit: nat)
    requires FieldOk(field) && field.offset <= bit < field.offset + field.length
    ensures bit - bit % (8 * field.unit) + 8 * field.unit <= LastBit(field)
  {
    RoundMonotone(bit, field.offset + field.length - 1, 8 * field.unit);
  }

  /** The bit of a touched unit that is not part of the field, after a write. */
  function Kept(update: nat, bit: bool): bool {
    if update == 1 then true else if update == 2 then false else bit
  }

  /** The first bit of the first access unit a field touches. */
  function FirstBit(field: Field): nat
    requires FieldOk(field)
  {
    field.offset - field.offset % (8 * field.unit)
  }

  /** A region once the first `done` bits of the field hold `v`, and the units they touch follow the update rule. */
  function Written(b: Bits, field: Field, done: nat, v: Bits): (r: Bits)
    requires FieldOk(field)
    ensures |r| == |b|
    ensures forall i :: 0 <= i < |r| ==> r[i] == WrittenBit(b[i], field, done, v, i)
  {
    seq(|b|, i requires 0 <= i < |b| => WrittenBit(b[i], field, done, v, i))
  }

  function WrittenBit(bit: bool, field: Field, done: nat, v: Bits, i: nat): bool
    requires FieldOk(field)
  {
    if field.offset <= i < field.offset + done then At(v, i - field.offset)
    else if FirstBit(field) <= i < LastBit(field.(length := done)) then Kept(field.update, bit)
    else bit
  }

  lemma FloorLe(x: nat, i: nat, d: nat)
    requires d > 0
    ensures x - x % d <= i <==> x / d <= i / d
  {
    var q, r := x / d, x % d;
    assert x == q * d + r;
    if q <= i / d {
      MulMonotone(q, i / d, d);
    } else {
      MulMonotone(i / d + 1, q, d);
    }
  }

  lemma BeforeUnitEnd(x: nat, i: nat, d: nat)
    requires d > 0
    ensures i < x - x % d + d <==> i / d <= x / d
  {
    var q := x / d + 1;
    assert x - x % d + d == q * d;
    if i < q * d {
      DivBelow(i, d, q);
    } else if i / d < q {
      MulMonotone(i / d + 1, q, d);
    }
  }

  /** A bit in one of the access units that the field reaches into. */
  predicate Touched(field: Field, i: nat)
    requires FieldOk(field)
  {
    && field.length > 0
    && field.offset / (8 * field.unit) <= i / (8 * field.unit) <= (field.offset + field.length - 1) / (8 * field.unit)
  }

  lemma TouchedIs(field: Field, i: nat)
    requires FieldOk(field) && field.length > 0
    ensures Touched(field, i) <==> FirstBit(field) <= i < LastBit(field)
  {
    FloorLe(field.offset, i, 8 * field.unit);
    BeforeUnitEnd(field.offset + field.length - 1, i, 8 * field.unit);
  }

  /**
   What a write leaves in a region: the value in the field, zeros past its end;
   in the rest of the units the field reaches into what was there, or ones under
   update rule 1, or zeros under rule 2; and every other bit as it was.
   */
  ghost predicate Stores(was: Bits, now: Bits, field: Field, v: Bits)
    requires FieldOk(field)
  {
    && |now| == |was|
    && forall i: nat :: i < |now| ==>
         now[i] == if field.offset <= i < field.offset + field.length then i - field.offset < |v| && v[i - field.offset]
                   else if !Touched(field, i) || field.update !in {1, 2} then was[i]
                   else field.update == 1
  }

  lemma WrittenStores(b: Bits, field: Field, v: Bits)
    requires FieldOk(field)
    ensures Stores(b, Written(b, field, field.length, v), field, v)
  {
    hide Touched, FirstBit, LastBit;
    var now := Written(b, field, field.length, v);
    assert field.(length := field.length) == field;
    forall i: nat | i < |now|
      ensures now[i] == if field.offset <= i < field.offset + field.length then i - field.offset < |v| && v[i - field.offset]
                        else if !Touched(field, i) || field.update !in {1, 2} then b[i] else field.update == 1
    {
      if field.length > 0 {
        TouchedIs(field, i);
      } else {
        NoBits(field);
        NoneTouched(field, i);
      }
    }
  }

  lemma NoneTouched(field: Field, i: nat)
    requires FieldOk(field) && field.length == 0
    ensures !Touched(field, i)
  {
  }

  /** Under the preserve rule a write changes the bits of the field and no other. */
  lemma Preserved(b: Bits, field: Field, v: Bits)
    requires FieldOk(field) && field.update != 1 && field.update != 2
    ensures Written(b, field, field.length, v) == Put(b, field.offset, Slice(v, 0, field.length))
  {
  }

  /** Where the units touched so far end. */
  lemma Reach(field: Field, done: nat)
    requires FieldOk(field) && done > 0 && InUnit(field, done) == 0
    ensures LastBit(field.(length := done)) == field.offset + done
  {
    var width := 8 * field.unit;
    var last := field.offset + done - 1;
    if last % width < width - 1 {
      ModShift(last, 1, width);
    }
  }

  lemma ReachPast(field: Field, done: nat, take: nat)
    requires FieldOk(field) && take > 0
    requires InUnit(field, done) + take <= 8 * field.unit
    ensures LastBit(field.(length := done + take)) == field.offset + done - InUnit(field, done) + 8 * field.unit
  {
    ModShift(field.offset + done, take - 1, 8 * field.unit);
  }

  /** The unit holding the next bits starts where the units touched so far end. */
  lemma StepBounds(field: Field, done: nat, take: nat)
    requires FieldOk(field) && take > 0
    requires var inUnit := InUnit(field, done);
             inUnit + take <= 8 * field.unit && (done == 0 || inUnit == 0)
    ensures var start := field.offset + done - InUnit(field, done);
            && LastBit(field.(length := done + take)) == start + 8 * field.unit
            && (if done == 0 then LastBit(field.(length := done)) == 0 && FirstBit(field) == start
                else LastBit(field.(length := done)) == start && FirstBit(field) <= start)
  {
    ReachPast(field, done, take);
    if done > 0 {
      Reach(field, done);
    }
  }

  /** The unit that replaces the one at `start`: the next bits of the value, and the rest as the update rule says. */
  predicate UnitMerged(b: Bits, field: Field, start: nat, inUnit: nat, done: nat, take: nat, v: Bits, unit: Bits) {
    && start + |unit| <= |b|
    && inUnit + take <= |unit|
    && (forall i :: 0 <= i < |unit| ==>
      unit[i] == if inUnit <= i < inUnit + take then At(v, done + i - inUnit) else Kept(field.update, b[start + i]))
  }

  /** One step of the loop: the unit that holds the next bits is replaced. */
  lemma StepWritten(b: Bits, field: Field, start: nat, done: nat, take: nat, v: Bits, unit: Bits)
    requires FieldOk(field) && take > 0 && done + take <= field.length
    requires |unit| == 8 * field.unit
    requires var inUnit := InUnit(field, done);
             && start == field.offset + done - inUnit
             && (done == 0 || inUnit == 0)
             && UnitMerged(b, field, start, inUnit, done, take, v, unit)
    ensures Put(Written(b, field, done, v), start, unit) == Written(b, field, done + take, v)
  {
    hide FirstBit, LastBit;
    StepBounds(field, done, take);
  }

  /** What a unit holds before it is written: the region's own bits. */
  lemma UnitBefore(b: Bits, field: Field, start: nat, done: nat, v: Bits)
    requires FieldOk(field) && start + 8 * field.unit <= |b|
    requires var inUnit := InUnit(field, done);
             start == field.offset + done - inUnit && (done == 0 || inUnit == 0)
    ensures Written(b, field, done, v)[start..start + 8 * field.unit] == b[start..start + 8 * field.unit]
  {
    hide FirstBit, LastBit;
    StepBounds(field, done, 1);
  }

  /** How many bits of a field one access takes. */
  function Take(field: Field, done: nat): nat
    requires FieldOk(field) && done < field.length
  {
    Min(8 * field.unit - InUnit(field, done), field.length - done)
  }

  lemma NoBits(field: Field)
    requires FieldOk(field)
    ensures LastBit(field.(length := 0)) == 0
  {
  }

  /** An access takes a bit at least, stays within the field, and its unit ends no later than the field's last unit. */
  lemma TakeFits(field: Field, done: nat)
    requires FieldOk(field) && done < field.length
    ensures 0 < Take(field, done) <= field.length - done && Take(field, done) <= 64
    ensures LastBit(field.(length := done + Take(field, done))) <= LastBit(field)
  {
    UnitFits(field, field.offset + done + Take(field, done) - 1);
  }

  /** The first `done` bits gathered from `at`, and zeros. */
  predicate Gathered(acc: Bits, b: Bits, at: nat, done: nat) {
    done <= |acc| && acc == Slice(b, at, done) + Fill(|acc| - done, false)
  }

  lemma OrPiece(acc: Word, piece: Word, b: Bits, at: nat, done: nat, take: nat)
    requires done < 64 && done + take <= 64 && Gathered(acc, b, at, done)
    requires piece == Slice(b, at + done, take) + Fill(64 - take, false)
    ensures Gathered(Or(acc, ShiftLeft(piece, done)), b, at, done + take)
  {
  }

  lemma PutPiece(acc: Bits, piece: Word, b: Bits, at: nat, done: nat, take: nat)
    requires take <= 64 && done + take <= |acc| && Gathered(acc, b, at, done)
    requires piece == Slice(b, at + done, take) + Fill(64 - take, false)
    ensures Gathered(Put(acc, done, piece[..Min(take, 64)]), b, at, done + take)
  {
    var more := Put(acc, done, piece[..take]);
    forall i | 0 <= i < |acc| ensures more[i] == (Slice(b, at, done + take) + Fill(|acc| - (done + take), false))[i] {
    }
  }

  lemma NothingGathered(n: nat, b: Bits, at: nat)
    ensures Gathered(Fill(n, false), b, at, 0)
  {
  }

  lemma ShowGathered(acc: Bits, b: Bits, at: nat, n: nat)
    requires Gathered(acc, b, at, n) && |acc| == if n <= 64 then 64 else 8 * Bytes(n)
    ensures Show(Slice(b, at, n)) == if n <= 64 then Integer(acc) else Buffer(acc)
  {
    assert acc == Slice(Slice(b, at, n), 0, |acc|);
  }

  lemma UnitSlice(b: Bits, start: nat, unit: nat, inUnit: nat, take: nat)
    requires unit <= 8 && start + 8 * unit <= |b| && inUnit + take <= 8 * unit
    ensures (b[start..start + 8 * unit] + Fill(64 - 8 * unit, false))[inUnit..inUnit + take]
         == Slice(b, start + inUnit, take)
  {
  }

  /** After an access the next bit starts a unit, or the field is over. */
  lemma TakeEnds(field: Field, done: nat)
    requires FieldOk(field) && done < field.length
    ensures done + Take(field, done) == field.length
         || InUnit(field, done + Take(field, done)) == 0
  {
    var width := 8 * field.unit;
    var bit := field.offset + done;
    DivExact(bit / width + 1, width, 0);
    assert (bit / width + 1) * width == bit - bit % width + width;
  }

  lemma SameUnit(field: Field, done: nat)
    requires FieldOk(field) && done < field.length
    ensures LastBit(field.(length := done + Take(field, done))) == LastBit(field.(length := done + 1))
  {
    TakeFits(field, done);
    ReachPast(field, done, Take(field, done));
    ReachPast(field, done, 1);
  }

  lemma LowPart(w: Word, n: nat)
    requires n <= 64
    ensures And(w, LowBits(n))[..n] == w[..n]
  {
  }

  lemma MergedOk(b: Bits, now: Bits, field: Field, start: nat, inUnit: nat, done: nat, take: nat, v: Bits, unit: Bits)
    requires start + |unit| <= |b| == |now| && inUnit + take <= |unit|
    requires now[start..start + |unit|] == b[start..start + |unit|]
    requires forall i :: 0 <= i < |unit| ==>
      unit[i] == if inUnit <= i < inUnit + take then Slice(v, done, take)[i - inUnit] else Kept(field.update, now[start + i])
    ensures UnitMerged(b, field, start, inUnit, done, take, v, unit)
  {
    var was, same := b[start..start + |unit|], now[start..start + |unit|];
    assert forall i :: 0 <= i < |unit| ==> same[i] == now[start + i] && was[i] == b[start + i];
  }

  /** A field reads back what was stored, cut or zero-extended to its length, under every update rule. */
  lemma FieldReadsBack(b: Bits, field: Field, v: Bits)
    requires FieldOk(field) && LastBit(field) <= |b|
    ensures Slice(Written(b, field, field.length, v), field.offset, field.length) == Slice(v, 0, field.length)
  {
    if field.length > 0 {
      UnitFits(field, field.offset + field.length - 1);
    }
  }

  /** Another field keeps its value: always when they share no access unit, and under preserve when they share no bit. */
  lemma OtherFieldKept(b: Bits, field: Field, v: Bits, at: nat, n: nat)
    requires FieldOk(field)
    requires || at + n <= FirstBit(field) || (field.length > 0 && LastBit(field) <= at)
             || (field.update != 1 && field.update != 2
                 && (at + n <= field.offset || field.offset + field.length <= at))
    ensures Slice(Written(b, field, field.length, v), at, n) == Slice(b, at, n)
  {
    if field.length > 0 {
      UnitFits(field, field.offset + field.length - 1);
    }
  }

  // ------------------------------------------------------------------- regions

  /** A region of plain storage, as the interpreter's hooks reach it. */
  class Region {
    var bits: Bits

    /** Reads `unit` bytes, lowest first; fails past the end of the region. */
    method UnitRead(start: nat, unit: nat) returns (r: Option<Word>)
      requires unit in {1, 2, 4, 8}
      ensures r == if start + 8 * unit > |bits| then None
                   else Some(bits[start..start + 8 * unit] + Fill(64 - 8 * unit, false))
    {
      if start + 8 * unit > |bits| {
        return None;
      }
      r := Some(bits[start..start + 8 * unit] + Fill(64 - 8 * unit, false));
    }

    method UnitWrite(start: nat, unit: nat, w: Word) returns (ok: bool)
      requires unit in {1, 2, 4, 8}
      modifies this
      ensures ok == (start + 8 * unit <= |bits|)
      ensures bits == if ok then Put(old(bits), start, w[..8 * unit]) else old(bits)
    {
      ok := start + 8 * unit <= |bits|;
      if ok {
        bits := Put(bits, start, w[..8 * unit]);
      }
    }

    /** The next bits of a field, from the access unit that holds them. */
    method ReadPiece(field: Field, done: nat) returns (piece: Option<Word>, take: nat)
      requires FieldOk(field) && done < field.length
      ensures take == Take(field, done)
      ensures piece.Some? <==> LastBit(field.(length := done + take)) <= |bits|
      ensures piece.Some? ==> piece.value == Slice(bits, field.offset + done, take) + Fill(64 - take, false)
    {
      hide LastBit, InUnit, And, ShiftRight, LowBits;
      var bit := field.offset + done;
      var inUnit := InUnit(field, done);
      take := Min(8 * field.unit - inUnit, field.length - done);
      ReachPast(field, done, take);
      var raw := UnitRead(bit - inUnit, field.unit);
      if raw.None? {
        return None, take;
      }
      piece := Some(And(ShiftRight(raw.value, inUnit), LowBits(take)));
      PieceOf(raw.value, inUnit, take);
      UnitSlice(bits, bit - inUnit, field.unit, inUnit, take);
    }

    /**
     Reads a field unit by unit. It fails exactly when its last access unit
     passes the end of the region, or a long field finds no room for its buffer.
     */
    method ReadField(field: Field, room: bool) returns (r: Option<Shown>)
      requires FieldOk(field)
      ensures r.Some? <==> LastBit(field) <= |bits| && (field.length <= 64 || room)
      ensures r.Some? ==> r.value == Show(Slice(bits, field.offset, field.length))
    {
      hide LastBit, Take, And, Or, ShiftLeft, Show, Gathered, Put, Slice;
      var big := field.length > 64;
      if big && !room {
        return None;
      }
      var buffer: Bits := if big then Fill(8 * Bytes(field.length), false) else [];
      var result: Word := Fill(64, false);
      var done := 0;
      NoBits(field);
      NothingGathered(|buffer|, bits, field.offset);
      NothingGathered(64, bits, field.offset);
      while done < field.length
        invariant done <= field.length
        invariant LastBit(field.(length := done)) <= |bits|
        invariant big ==> |buffer| == 8 * Bytes(field.length) && Gathered(buffer, bits, field.offset, done)
        invariant !big ==> Gathered(result, bits, field.offset, done)
      {
        TakeFits(field, done);
        var piece, take := ReadPiece(field, done);
        if piece.None? {
          return None;
        }
        if big {
          PutPiece(buffer, piece.value, bits, field.offset, done, take);
          buffer := PutBits(buffer, done, piece.value, take);
        } else {
          OrPiece(result, piece.value, bits, field.offset, done, take);
          result := Or(result, ShiftLeft(piece.value, done));
        }
        done := done + take;
      }
      assert field.(length := done) == field;
      r := Some(if big then Buffer(buffer) else Integer(result));
      ShowGathered(if big then buffer else result, bits, field.offset, field.length);
    }

    /** The next bits of the value to store; past an integer's 64 bits they are zero. */
    method SourcePiece(v: Shown, done: nat, take: nat) returns (piece: Word)
      requires take <= 64
      ensures piece == Slice(Supplied(v), done, take) + Fill(64 - take, false)
    {
      match v
      case Buffer(b) => piece := GetBits(b, done, take);
      case Integer(w) =>
        piece := if done >= 64 then Fill(64, false) else And(ShiftRight(w, done), LowBits(take));
    }

    /** The unit to write: the piece merged into what the update rule gives, or the piece alone when it fills the unit. */
    method MergedUnit(field: Field, start: nat, inUnit: nat, piece: Word, take: nat) returns (merged: Option<Word>)
      requires FieldOk(field) && 0 < take && inUnit + take <= 8 * field.unit
      ensures start + 8 * field.unit <= |bits| ==>
                && merged.Some?
                && (forall i :: 0 <= i < 8 * field.unit ==>
                  merged.value[i] ==
                  if inUnit <= i < inUnit + take then piece[i - inUnit] else Kept(field.update, bits[start + i]))
    {
      hide And, Or, Not, ShiftLeft, LowBits;
      var whole := 8 * field.unit;
      if take == whole {
        merged := Some(piece);
      } else {
        var base: Word := Fill(64, field.update == 1);
        if field.update != 1 && field.update != 2 {
          var raw := UnitRead(start, field.unit);
          if raw.None? {
            return None;
          }
          base := raw.value;
        }
        var mask := ShiftLeft(LowBits(take), inUnit);
        merged := Some(Or(And(base, Not(mask)), And(ShiftLeft(piece, inUnit), mask)));
        MergedWord(base, piece, inUnit, take);
      }
    }

    /** Writes the next bits of a field into the access unit that holds them. */
    method WritePiece(field: Field, v: Shown, done: nat, ghost b: Bits) returns (ok: bool, take: nat)
      requires FieldOk(field) && done < field.length
      requires done == 0 || InUnit(field, done) == 0
      requires bits == Written(b, field, done, Supplied(v))
      modifies this
      ensures take == Take(field, done)
      ensures ok <==> LastBit(field.(length := done + take)) <= |b|
      ensures bits == Written(b, field, if ok then done + take else done, Supplied(v))
    {
      hide LastBit, InUnit, LowBits, And, Supplied, Kept;
      var inUnit := InUnit(field, done);
      var start := field.offset + done - inUnit;
      take := Min(8 * field.unit - inUnit, field.length - done);
      ReachPast(field, done, take);
      var piece := SourcePiece(v, done, take);
      var merged := MergedUnit(field, start, inUnit, piece, take);
      if merged.None? {
        return false, take;
      }
      ghost var before, unit := bits, merged.value[..8 * field.unit];
      LowPart(merged.value, 8 * field.unit);
      ok := UnitWrite(start, field.unit, And(merged.value, LowBits(8 * field.unit)));
      if ok {
        UnitBefore(b, field, start, done, Supplied(v));
        MergedOk(b, before, field, start, inUnit, done, take, Supplied(v), unit);
        StepWritten(b, field, start, done, take, Supplied(v), unit);
      }
    }

    /**
     Writes a field unit by unit. It succeeds exactly when every unit it touches
     lies in the region; when one does not, the units before it are already written.
     */
    method WriteField(field: Field, v: Shown) returns (ok: bool, ghost done: nat)
      requires FieldOk(field)
      modifies this
      ensures ok <==> LastBit(field) <= |old(bits)|
      ensures done <= field.length && (ok ==> done == field.length)
      ensures !ok ==> done < field.length && LastBit(field.(length := done + 1)) > |bits|
      ensures LastBit(field.(length := done)) <= |bits|
      ensures bits == Written(old(bits), field, done, Supplied(v))
      ensures ok ==> Stores(old(bits), bits, field, Supplied(v))
    {
      hide LastBit, InUnit, Take, Supplied, Stores;
      var at := 0;
      done := 0;
      NoBits(field);
      assert bits == Written(old(bits), field, 0, Supplied(v));
      while at < field.length
        invariant at == done <= field.length
        invariant LastBit(field.(length := done)) <= |bits|
        invariant done == 0 || done == field.length || InUnit(field, done) == 0
        invariant bits == Written(old(bits), field, done, Supplied(v))
      {
        TakeFits(field, at);
        TakeEnds(field, at);
        var wrote, take := WritePiece(field, v, at, old(bits));
        if !wrote {
          SameUnit(field, at);
          return false, done;
        }
        at := at + take;
        done := at;
      }
      assert field.(length := done) == field;
      WrittenStores(old(bits), field, Supplied(v));
      ok := true;
    }
  }

  // -------------------------------------------------------------- buffer fields

  /** A value to store: a number, or a buffer by its place in the store. */
  datatype Operand = Number(word: Word) | Handle(at: nat)

  /** A buffer copied into a field of itself, 64 bits at a time, reading what earlier steps wrote. */
  function SelfCopy(b: Bits, offset: nat, done: nat, length: nat): Bits
    requires done <= length
    decreases length - done
  {
    if done == length then b
    else
      var take := Min(length - done, 64);
      SelfCopy(Put(b, offset + done, Slice(b, done, take)), offset, done + take, length)
  }

  /** When no step reads a bit that an earlier step wrote. */
  predicate CopySafe(offset: nat, length: nat) {
    length <= 64 || offset == 0 || offset >= length
  }

  predicate CopyRight(b: Bits, offset: nat, length: nat) {
    SelfCopy(b, offset, 0, length) == Put(b, offset, Slice(b, 0, length))
  }

  /** The bits a step of a safe copy reads are still those of the source. */
  lemma SafeRead(b: Bits, offset: nat, done: nat, take: nat, length: nat)
    requires CopySafe(offset, length) && offset + length <= |b| && done + take <= length && (done == 0 || length > 64)
    ensures Slice(Put(b, offset, Slice(b, 0, done)), done, take) == Slice(b, done, take)
  {
    var now := Put(b, offset, Slice(b, 0, done));
    forall i | done <= i < done + take ensures At(now, i) == At(b, i) {
    }
  }

  lemma SelfCopyEnds(b: Bits, offset: nat, length: nat)
    ensures SelfCopy(b, offset, length, length) == b
  {
  }

  lemma SelfCopyStep(b: Bits, offset: nat, done: nat, length: nat)
    requires done < length
    ensures var take := Min(length - done, 64);
            SelfCopy(b, offset, done, length)
            == SelfCopy(Put(b, offset + done, Slice(b, done, take)), offset, done + take, length)
  {
    hide Put, Slice;
  }

  lemma {:induction false} SafeCopy(b: Bits, offset: nat, done: nat, length: nat)
    requires CopySafe(offset, length) && offset + length <= |b| && done <= length && (done in {0, length} || length > 64)
    ensures SelfCopy(Put(b, offset, Slice(b, 0, done)), offset, done, length) == Put(b, offset, Slice(b, 0, length))
    decreases length - done
  {
    hide SelfCopy, Put, Slice;
    if done < length {
      var take := Min(length - done, 64);
      SelfCopyStep(Put(b, offset, Slice(b, 0, done)), offset, done, length);
      SafeRead(b, offset, done, take, length);
      PutMore(b, offset, Slice(b, 0, done), Slice(b, done, take));
      SliceMore(b, 0, done, take);
      SafeCopy(b, offset, done + take, length);
    } else {
      SelfCopyEnds(Put(b, offset, Slice(b, 0, done)), offset, length);
    }
  }

  lemma {:induction false} BlankCopy(n: nat, offset: nat, done: nat, length: nat)
    requires done <= length
    ensures SelfCopy(Fill(n, false), offset, done, length) == Fill(n, false)
    decreases length - done
  {
    if done < length {
      var take := Min(length - done, 64);
      assert Put(Fill(n, false), offset + done, Slice(Fill(n, false), done, take)) == Fill(n, false);
      BlankCopy(n, offset, done + take, length);
    }
  }

  /** A buffer whose only set bit is one that the first step overwrites and a later step should have copied. */
  function Spoiler(size: nat, offset: nat): Bits {
    seq(size, i => i == if offset < 64 then 64 else offset)
  }

  lemma UnsafeCopy(size: nat, offset: nat, length: nat)
    requires !CopySafe(offset, length) && offset + length <= size
    ensures !CopyRight(Spoiler(size, offset), offset, length)
  {
    var b := Spoiler(size, offset);
    assert Put(b, offset, Slice(b, 0, 64)) == Fill(size, false);
    BlankCopy(size, offset, 64, length);
    var p := if offset < 64 then 64 else offset;
    assert Slice(b, 0, length)[p];
    assert Put(b, offset, Slice(b, 0, length))[offset + p];
  }

  /** Storing a buffer into a field of itself is right for every content exactly when `CopySafe` holds. */
  lemma SelfStore(offset: nat, length: nat)
    ensures CopySafe(offset, length)
       <==> (forall b: Bits :: |b| % 8 == 0 && offset + length <= |b| ==> CopyRight(b, offset, length))
  {
    if CopySafe(offset, length) {
      forall b: Bits | |b| % 8 == 0 && offset + length <= |b| ensures CopyRight(b, offset, length) {
        PutNothing(b, offset);
        assert Slice(b, 0, 0) == [];
        SafeCopy(b, offset, 0, length);
      }
    } else {
      var size := 8 * (offset + length);
      UnsafeCopy(size, offset, length);
      assert |Spoiler(size, offset)| % 8 == 0;
    }
  }

  /** The interpreter's buffers. A field's buffer and the buffer stored into it may be the same one. */
  class Buffers {
    var store: seq<Bits>

    /** Reads a field of a buffer; fails past its end or when a long field finds no room for its copy. */
    method ReadBufferField(source: nat, offset: nat, length: nat, room: bool) returns (r: Option<Shown>)
      requires source < |store| && |store[source]| % 8 == 0
      ensures r.Some? <==> offset + length <= |store[source]| && (length <= 64 || room)
      ensures r.Some? ==> r.value == Show(Slice(store[source], offset, length))
    {
      if Bytes(offset + length) > |store[source]| / 8 {
        return None;
      }
      if length <= 64 {
        var w := GetBits(store[source], offset, length);
        ShowGathered(w, store[source], offset, length);
        return Some(Integer(w));
      }
      if !room {
        return None;
      }
      var copy: Bits := [];
      for index := 0 to Bytes(length)
        invariant |copy| == 8 * index && copy == Slice(Slice(store[source], offset, length), 0, 8 * index)
      {
        var take := Min(length - index * 8, 8);
        var piece := GetBits(store[source], offset + index * 8, take);
        NextByte(store[source], offset, length, index, piece);
        copy := copy + piece[..8];
      }
      r := Some(Buffer(copy));
    }

    /** The bits a stored operand supplies. */
    function Source(value: Operand): Bits
      requires value.Handle? ==> value.at < |store|
      reads this
    {
      match value case Number(w) => w case Handle(at) => store[at]
    }

    /** The next bits of the operand as the store holds it now. */
    method OperandPiece(value: Operand, done: nat, take: nat) returns (piece: Word)
      requires take <= 64 && done % 64 == 0 && (value.Handle? ==> value.at < |store|)
      ensures piece == Slice(Source(value), done, take) + Fill(64 - take, false)
    {
      match value
      case Handle(at) => piece := GetBits(store[at], done, take);
      case Number(w) => piece := if done >= 64 then Fill(64, false) else And(w, LowBits(take));
    }

    /**
     Writes a field of a buffer, 64 bits at a time. When the buffer stored is
     the field's own, later steps read what earlier steps wrote.
     */
    method WriteBufferField(source: nat, offset: nat, length: nat, value: Operand) returns (ok: bool)
      requires source < |store| && |store[source]| % 8 == 0
      requires value.Handle? ==> value.at < |store|
      modifies this
      ensures ok <==> offset + length <= |old(store[source])|
      ensures !ok ==> store == old(store)
      ensures ok && value == Handle(source) ==>
                store == old(store)[source := SelfCopy(old(store[source]), offset, 0, length)]
      ensures ok && (value != Handle(source) || CopySafe(offset, length)) ==>
                store == old(store)[source := Put(old(store[source]), offset, Slice(old(Source(value)), 0, length))]
    {
      hide Copying;
      if Bytes(offset + length) > |store[source]| / 8 {
        return false;
      }
      var done := 0;
      ghost var b, v, same := store[source], Source(value), value == Handle(source);
      CopyBegins(b, v, same, offset, length);
      while done < length
        invariant done <= length && (done == length || done % 64 == 0)
        invariant |store| == |old(store)| && store == old(store)[source := store[source]]
        invariant |store[source]| == |b|
        invariant Copying(store[source], b, v, same, offset, done, length)
      {
        var take := Min(length - done, 64);
        var piece := OperandPiece(value, done, take);
        CopyStep(store[source], b, v, same, offset, done, length, piece[..take]);
        var now := PutBits(store[source], offset + done, piece, take);
        store := store[source := now];
        done := done + take;
      }
      CopyEnds(store[source], b, v, same, offset, length);
      ok := true;
    }
  }

  /** The field's buffer when `done` bits are stored. */
  predicate Copying(now: Bits, b: Bits, v: Bits, same: bool, offset: nat, done: nat, length: nat)
    requires done <= length
  {
    if same then SelfCopy(now, offset, done, length) == SelfCopy(b, offset, 0, length)
    else now == Put(b, offset, Slice(v, 0, done))
  }

  lemma CopyBegins(b: Bits, v: Bits, same: bool, offset: nat, length: nat)
    ensures Copying(b, b, v, same, offset, 0, length)
  {
    assert Slice(v, 0, 0) == [];
    PutNothing(b, offset);
  }

  lemma CopyStep(now: Bits, b: Bits, v: Bits, same: bool, offset: nat, done: nat, length: nat, piece: Bits)
    requires done < length && |piece| == Min(length - done, 64)
    requires Copying(now, b, v, same, offset, done, length)
    requires piece == Slice(if same then now else v, done, |piece|)
    ensures Copying(Put(now, offset + done, piece), b, v, same, offset, done + |piece|, length)
  {
    if !same {
      PutMore(b, offset, Slice(v, 0, done), Slice(v, done, |piece|));
      SliceMore(v, 0, done, |piece|);
    }
  }

  lemma CopyEnds(now: Bits, b: Bits, v: Bits, same: bool, offset: nat, length: nat)
    requires Copying(now, b, v, same, offset, length, length)
    requires offset + length <= |b| && (same ==> v == b)
    ensures same ==> now == SelfCopy(b, offset, 0, length)
    ensures !same || CopySafe(offset, length) ==> now == Put(b, offset, Slice(v, 0, length))
  {
    if same && CopySafe(offset, length) {
      assert Slice(b, 0, 0) == [];
      PutNothing(b, offset);
      SafeCopy(b, offset, 0, length);
    }
  }

  lemma NextByte(b: Bits, offset: nat, length: nat, index: nat, piece: Word)
    requires 8 * index < length
    requires var take := Min(length - index * 8, 8);
             piece == Slice(b, offset + index * 8, take) + Fill(64 - take, false)
    ensures var all := Slice(b, offset, length);
            Slice(all, 0, 8 * index) + piece[..8] == Slice(all, 0, 8 * (index + 1))
  {
  }
}
