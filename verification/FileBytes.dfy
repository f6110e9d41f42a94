/** Files as flat byte strings: overwriting, resizing and reading a slice. */
module FileBytes {
  import opened LittleEndian

  /** Plain overwrite of a byte string, zero-filling any gap. */
  ghost function Overwrite(c: seq<byte>, offset: nat, data: seq<byte>): (r: seq<byte>)
    ensures |r| == if data == [] || offset + |data| <= |c| then |c| else offset + |data|
    ensures forall i :: 0 <= i < |r| ==>
      r[i] == if offset <= i < offset + |data| then data[i - offset] else if i < |c| then c[i] else 0
  {
    var size := if data == [] || offset + |data| <= |c| then |c| else offset + |data|;
    seq(size, i requires 0 <= i < size =>
      if offset <= i < offset + |data| then data[i - offset] else if i < |c| then c[i] else 0)
  }

  lemma OverwriteNothing(c: seq<byte>, offset: nat, data: seq<byte>)
    requires data == []
    ensures Overwrite(c, offset, data) == c
  {
  }

  lemma OverwriteInside(c: seq<byte>, offset: nat, data: seq<byte>)
    requires data != []
    ensures Overwrite(c, offset, data)[offset..offset + |data|] == data
  {
  }

  /** A record that the overwrite does not touch: as it was, or new and zero. */
  lemma OverwriteOutside(c: seq<byte>, offset: nat, data: seq<byte>, at: nat, width: nat)
    requires at + width <= |Overwrite(c, offset, data)|
    requires at + width <= offset || offset + |data| <= at
    ensures at + width <= |c| ==> Overwrite(c, offset, data)[at..at + width] == c[at..at + width]
    ensures |c| <= at ==> Overwrite(c, offset, data)[at..at + width] == Zeros(width)
  {
  }

  ghost function Resize(c: seq<byte>, size: nat): (r: seq<byte>)
    ensures |r| == size
    ensures forall i :: 0 <= i < size ==> r[i] == if i < |c| then c[i] else 0
  {
    if size <= |c| then c[..size] else c + Zeros(size - |c|)
  }

  /** The slice a read of `count` bytes at `offset` delivers. */
  ghost function Slice(c: seq<byte>, offset: nat, count: nat): (r: seq<byte>)
  {
    if offset >= |c| then [] else if offset + count <= |c| then c[offset..offset + count] else c[offset..]
  }

  /** A read of as many bytes as there are from `offset` and as fit; the rest of the buffer stays. */
  ghost predicate Reads(data: seq<byte>, offset: nat, out: seq<byte>, n: nat, filled: seq<byte>) {
    && |filled| == |out|
    && n == (if offset >= |data| then 0 else if |data| - offset <= |out| then |data| - offset else |out|)
    && (forall i :: 0 <= i < n ==> filled[i] == data[offset + i])
    && (forall i :: n <= i < |out| ==> filled[i] == out[i])
  }

  lemma SliceReads(data: seq<byte>, offset: nat, out: seq<byte>)
    ensures var s := Slice(data, offset, |out|); |s| <= |out| && Reads(data, offset, out, |s|, s + out[|s|..])
  {
  }

  lemma SliceBeyond(c: seq<byte>, offset: nat, count: nat)
    ensures offset >= |c| ==> Slice(c, offset, count) == []
  {
  }

  /** A read in progress: the buffer starts with `done` bytes of the content from `offset`. */
  ghost predicate Filled(c: seq<byte>, offset: nat, done: nat, out: seq<byte>, filled: seq<byte>) {
    && offset + done <= |c| && done <= |out| == |filled|
    && filled == c[offset..offset + done] + out[done..]
  }

  lemma FilledStart(c: seq<byte>, offset: nat, out: seq<byte>)
    requires offset <= |c|
    ensures Filled(c, offset, 0, out, out)
  {
  }

  lemma FillStep(c: seq<byte>, offset: nat, done: nat, take: nat, out: seq<byte>, filled: seq<byte>, piece: seq<byte>)
    requires Filled(c, offset, done, out, filled)
    requires offset + done + take <= |c| && done + take <= |out|
    requires piece == c[offset + done..offset + done + take]
    ensures |filled| == |out| && |piece| == take
    ensures Filled(c, offset, done + take, out, filled[..done] + piece + filled[done + take..])
  {
  }

  lemma FilledAll(c: seq<byte>, offset: nat, count: nat, out: seq<byte>, filled: seq<byte>)
    requires Filled(c, offset, count, out, filled) && offset < |c|
    requires count == if |out| <= |c| - offset then |out| else |c| - offset
    ensures count == |Slice(c, offset, |out|)| && filled == Slice(c, offset, |out|) + out[count..]
  {
  }
}
