/** The clipboard: flat storage, shifted and rotated, that keeps a most-recently-used list of texts. */
module Clipboard {
  import opened LittleEndian
  import opened Options

  const ENTRY: nat := 16384
  const HISTORY: nat := 8

  type Text = seq<byte>

  // ---------------------------------------------------------------- the list

  /** Newest first, no text twice, none empty, at most eight. */
  predicate ListOk(list: seq<Text>) {
    && |list| <= HISTORY
    && (forall i :: 0 <= i < |list| ==> 0 < |list[i]| <= ENTRY)
    && (forall i, j :: 0 <= i < j < |list| ==> list[i] != list[j])
  }

  function Without(list: seq<Text>, text: Text): seq<Text> {
    if list == [] then []
    else if list[0] == text then Without(list[1..], text)
    else [list[0]] + Without(list[1..], text)
  }

  function Take(list: seq<Text>, n: nat): seq<Text> {
    if |list| <= n then list else list[..n]
  }

  /** A text copied: it comes first, and of the others the newest seven stay. */
  function Pushed(list: seq<Text>, text: Text): seq<Text> {
    [text] + Take(Without(list, text), HISTORY - 1)
  }

  /** The most recent text, if any. */
  function Current(list: seq<Text>): Option<Text> {
    if list == [] then None else Some(list[0])
  }

  function Selected(list: seq<Text>, i: nat): seq<Text>
    requires i < |list|
  {
    [list[i]] + list[..i] + list[i + 1..]
  }

  predicate Continuation(b: byte) {
    0x80 <= b < 0xc0
  }

  lemma {:induction false} WithoutAt(list: seq<Text>, text: Text, i: nat)
    requires i < |list| && list[i] == text
    requires forall j, k :: 0 <= j < k < |list| ==> list[j] != list[k]
    ensures Without(list, text) == list[..i] + list[i + 1..]
    decreases |list|
  {
    var rest := list[1..];
    assert forall j :: 0 <= j < |rest| ==> rest[j] == list[j + 1];
    if i == 0 {
      WithoutNone(rest, text);
    } else {
      WithoutAt(rest, text, i - 1);
      assert list[..i] + list[i + 1..] == [list[0]] + (rest[..i - 1] + rest[i..]);
    }
  }

  lemma {:induction false} WithoutNone(list: seq<Text>, text: Text)
    requires text !in list
    ensures Without(list, text) == list
    decreases |list|
  {
    if list != [] {
      WithoutNone(list[1..], text);
    }
  }

  /** By places: a text that was there moves to the front, a new one pushes the eighth out. */
  lemma PushedIs(list: seq<Text>, text: Text, i: nat)
    requires ListOk(list)
    ensures text !in list ==> Pushed(list, text) == [text] + if |list| < 8 then list else list[..7]
    ensures i < |list| && list[i] == text ==> Pushed(list, text) == [text] + list[..i] + list[i + 1..]
  {
    if text !in list {
      WithoutNone(list, text);
    } else if i < |list| && list[i] == text {
      WithoutAt(list, text, i);
    }
  }

  // ------------------------------------------------------------- the storage

  /** The text in slot `i` of the storage. */
  function Entry(data: seq<byte>, lens: seq<nat>, i: nat): Text
    requires |data| == ENTRY * HISTORY && |lens| == HISTORY && i < HISTORY && lens[i] <= ENTRY
  {
    data[i * ENTRY..i * ENTRY + lens[i]]
  }

  predicate Stored(data: seq<byte>, lens: seq<nat>, count: nat) {
    && |data| == ENTRY * HISTORY && |lens| == HISTORY && count <= HISTORY
    && forall i :: 0 <= i < HISTORY ==> lens[i] <= ENTRY
  }

  function Texts(data: seq<byte>, lens: seq<nat>, count: nat): (list: seq<Text>)
    requires Stored(data, lens, count)
    ensures |list| == count && forall i :: 0 <= i < count ==> list[i] == Entry(data, lens, i)
  {
    seq(count, i requires 0 <= i < count => Entry(data, lens, i))
  }

  /** Slots 0 to `last - 1` moved up by one. */
  function ShiftData(data: seq<byte>, last: nat): (r: seq<byte>)
    requires |data| == ENTRY * HISTORY && last < HISTORY
    ensures |r| == |data|
  {
    data[..ENTRY] + data[..last * ENTRY] + data[(last + 1) * ENTRY..]
  }

  function ShiftLens(lens: seq<nat>, last: nat): (r: seq<nat>)
    requires |lens| == HISTORY && last < HISTORY
    ensures |r| == HISTORY
  {
    lens[..1] + lens[..last] + lens[last + 1..]
  }

  /** What slot `i` holds after a push. */
  function Behind(data: seq<byte>, lens: seq<nat>, last: nat, text: Text, i: nat): Text
    requires Stored(data, lens, 0) && last < HISTORY && i < HISTORY
  {
    if i == 0 then text else if i <= last then Entry(data, lens, i - 1) else Entry(data, lens, i)
  }

  /** A slice of three joined parts that lies in one of them. */
  lemma Parts(a: seq<byte>, b: seq<byte>, c: seq<byte>, lo: nat, hi: nat)
    requires lo <= hi <= |a| + |b| + |c|
    ensures hi <= |a| ==> (a + b + c)[lo..hi] == a[lo..hi]
    ensures |a| <= lo && hi <= |a| + |b| ==> (a + b + c)[lo..hi] == b[lo - |a|..hi - |a|]
    ensures |a| + |b| <= lo ==> (a + b + c)[lo..hi] == c[lo - |a| - |b|..hi - |a| - |b|]
  {
  }

  lemma SliceOf(s: seq<byte>, a: nat, b: nat, lo: nat, hi: nat)
    requires a <= b <= |s| && lo <= hi <= b - a
    ensures s[a..b][lo..hi] == s[a + lo..a + hi]
  {
    var x, y := s[a..b][lo..hi], s[a + lo..a + hi];
    assert forall i :: 0 <= i < hi - lo ==> x[i] == y[i];
  }

  /** A slot other than the first, when only the first has been written. */
  lemma OtherSlot(data: seq<byte>, text: Text, at: nat, len: nat)
    requires |text| <= ENTRY <= at && at + len <= |data|
    ensures (text + data[|text|..])[at..at + len] == data[at..at + len]
  {
  }

  lemma ShiftedSlot(data: seq<byte>, last: nat, i: nat, len: nat)
    requires |data| == ENTRY * HISTORY && last < HISTORY && 0 < i < HISTORY && len <= ENTRY
    ensures ShiftData(data, last)[i * ENTRY..i * ENTRY + len]
         == if i <= last then data[(i - 1) * ENTRY..(i - 1) * ENTRY + len] else data[i * ENTRY..i * ENTRY + len]
  {
    Parts(data[..ENTRY], data[..last * ENTRY], data[(last + 1) * ENTRY..], i * ENTRY, i * ENTRY + len);
    if i <= last {
      SliceOf(data, 0, last * ENTRY, (i - 1) * ENTRY, (i - 1) * ENTRY + len);
    } else {
      SliceOf(data, (last + 1) * ENTRY, |data|, (i - last - 1) * ENTRY, (i - last - 1) * ENTRY + len);
    }
  }

  lemma ShiftSlot(data: seq<byte>, lens: seq<nat>, last: nat, text: Text, i: nat)
    requires Stored(data, lens, 0) && last < HISTORY && |text| <= ENTRY && i < HISTORY
    ensures var now := text + ShiftData(data, last)[|text|..];
            var len := ShiftLens(lens, last)[0 := |text|];
            && Stored(now, len, 0)
            && Entry(now, len, i) == Behind(data, lens, last, text, i)
  {
    hide ShiftData;
    if 0 < i {
      var len := ShiftLens(lens, last)[i];
      assert len == if i <= last then lens[i - 1] else lens[i];
      OtherSlot(ShiftData(data, last), text, i * ENTRY, len);
      ShiftedSlot(data, last, i, len);
    }
  }

  /** The storage after a push holds the text first and the rest of the list behind it. */
  lemma PushTexts(data: seq<byte>, lens: seq<nat>, count: nat, last: nat, text: Text, now: seq<byte>, len: seq<nat>)
    requires Stored(data, lens, count) && last < HISTORY && |text| <= ENTRY && last <= count
    requires now == text + ShiftData(data, last)[|text|..] && len == ShiftLens(lens, last)[0 := |text|]
    ensures var more := if last == count then count + 1 else count;
            && Stored(now, len, more)
            && var list := Texts(data, lens, count);
               Texts(now, len, more) == [text] + list[..last] + (if last == count then [] else list[last + 1..])
  {
    hide Entry, ShiftData, ShiftLens;
    var list := Texts(data, lens, count);
    ShiftSlot(data, lens, last, text, 0);
    forall i | 0 <= i < HISTORY ensures Entry(now, len, i) == Behind(data, lens, last, text, i) {
      ShiftSlot(data, lens, last, text, i);
    }
  }

  /** The list without the text at `last`, if there is one. */
  function Dropped(list: seq<Text>, last: nat): seq<Text>
    requires last <= |list|
  {
    list[..last] + if last == |list| then [] else list[last + 1..]
  }

  lemma PushRest(list: seq<Text>, text: Text, last: nat)
    requires |list| <= HISTORY && forall i, j :: 0 <= i < j < |list| ==> list[i] != list[j]
    requires if text in list then last < |list| && list[last] == text
             else last == if |list| < HISTORY then |list| else HISTORY - 1
    ensures Take(Without(list, text), HISTORY - 1) == Dropped(list, last)
  {
    if text in list {
      WithoutAt(list, text, last);
    } else {
      WithoutNone(list, text);
    }
  }

  /** Taking one text away and putting another in front leaves a list. */
  lemma ListDropped(list: seq<Text>, last: nat, text: Text)
    requires ListOk(list) && last <= |list| && last < HISTORY && 0 < |text| <= ENTRY
    requires text in list ==> last < |list| && list[last] == text
    ensures ListOk([text] + Dropped(list, last))
  {
    var rest := Dropped(list, last);
    forall i | 0 <= i < |rest| ensures rest[i] == list[if i < last then i else i + 1] && rest[i] != text {
      var k := if i < last then i else i + 1;
      assert rest[i] == list[k];
      if text in list {
        assert list[last] != list[k] || k == last;
      } else {
        assert list[k] in list;
      }
    }
    var all := [text] + rest;
    forall i, j | 0 <= i < j < |all| ensures all[i] != all[j] {
      if i > 0 {
        assert rest[i - 1] != rest[j - 1];
      }
    }
  }

  /** Moving or adding the text at `last` is pushing it. */
  lemma PushList(list: seq<Text>, text: Text, last: nat)
    requires ListOk(list) && 0 < |text| <= ENTRY && last < HISTORY
    requires if text in list then 0 < last < |list| && list[last] == text
             else last == if |list| < HISTORY then |list| else HISTORY - 1
    ensures Pushed(list, text) == [text] + list[..last] + (if last == |list| then [] else list[last + 1..])
    ensures ListOk(Pushed(list, text)) && Pushed(list, text) != list
    ensures Current(Pushed(list, text)) != Current(list)
  {
    hide Take, Without;
    PushRest(list, text, last);
    ListDropped(list, last, text);
    assert Pushed(list, text) == [text] + Dropped(list, last);
    assert [text] + Dropped(list, last) == [text] + list[..last] + (if last == |list| then [] else list[last + 1..]);
    NewFirst(list, text, last);
  }

  lemma NewFirst(list: seq<Text>, text: Text, last: nat)
    requires forall i, j :: 0 <= i < j < |list| ==> list[i] != list[j]
    requires text in list ==> 0 < last < |list| && list[last] == text
    ensures list == [] || list[0] != text
  {
  }

  /** Pushing the newest text again changes nothing. */
  lemma PushNewest(list: seq<Text>)
    requires ListOk(list) && list != []
    ensures Pushed(list, list[0]) == list
  {
    WithoutAt(list, list[0], 0);
  }

  class Clipboard {
    var data: seq<byte>
    var lens: seq<nat>
    var count: nat
    var generation: u32

    ghost predicate Valid()
      reads this
    {
      Stored(data, lens, count) && ListOk(Texts(data, lens, count))
    }

    ghost function List(): seq<Text>
      requires Valid()
      reads this
    {
      Texts(data, lens, count)
    }

    constructor ()
      ensures Valid() && List() == [] && generation == 0
    {
      data, lens, count, generation := Zeros(ENTRY * HISTORY), seq(HISTORY, _ => 0), 0, 0;
    }

    /** The longest prefix within the limit that does not cut a character; a short text whole. */
    method TrimToCharEdge(bytes: Text, max: nat) returns (text: Text)
      ensures |bytes| <= max ==> text == bytes
      ensures |bytes| > max ==>
                && |text| <= max && text == bytes[..|text|]
                && (text == [] || !Continuation(bytes[|text|]))
                && forall k :: |text| < k <= max ==> Continuation(bytes[k])
    {
      if |bytes| <= max {
        return bytes;
      }
      var end := max;
      while end > 0 && Continuation(bytes[end])
        invariant 0 <= end <= max
        invariant forall k :: end < k <= max ==> Continuation(bytes[k])
      {
        end := end - 1;
      }
      text := bytes[..end];
    }

    /** The slot that holds a text already. */
    method FindText(text: Text) returns (r: Option<nat>)
      requires Valid()
      ensures r.None? ==> text !in List()
      ensures r.Some? ==> r.value < count && List()[r.value] == text
    {
      for i := 0 to count
        invariant forall j :: 0 <= j < i ==> List()[j] != text
      {
        if Entry(data, lens, i) == text {
          return Some(i);
        }
      }
      r := None;
    }

    /** Records a copy; what the arrays hold afterwards is what the plain list operation gives. */
    method Push(bytes: Text) returns (changed: bool, ghost text: Text)
      requires Valid()
      modifies this
      ensures Valid() && (|bytes| <= ENTRY ==> text == bytes)
      ensures |bytes| > ENTRY ==>
                && |text| <= ENTRY && text == bytes[..|text|]
                && (text == [] || !Continuation(bytes[|text|]))
                && forall k :: |text| < k <= ENTRY ==> Continuation(bytes[k])
      ensures List() == if text == [] then old(List()) else Pushed(old(List()), text)
      ensures changed <==> List() != old(List())
      ensures generation == if changed then (old(generation) + 1) % 0x1_0000_0000 else old(generation)
      ensures generation != old(generation) <==> Current(List()) != Current(old(List()))
    {
      hide ShiftData, ShiftLens, Pushed, ListOk, Texts;
      var trimmed := TrimToCharEdge(bytes, ENTRY);
      text := trimmed;
      ghost var list := List();
      if trimmed == [] {
        return false, text;
      }
      if count > 0 && Entry(data, lens, 0) == trimmed {
        PushNewest(list);
        return false, text;
      }
      var existing := FindText(trimmed);
      PutFirst(trimmed, existing);
      changed := true;
    }

    /** Puts a text that is not the current one in front; an equal one, or else the oldest of a full list, goes. */
    method PutFirst(text: Text, existing: Option<nat>)
      requires Valid() && text != [] && |text| <= ENTRY && Current(List()) != Some(text)
      requires existing.None? ==> text !in List()
      requires existing.Some? ==> existing.value < |List()| && List()[existing.value] == text
      modifies this
      ensures Valid() && List() == Pushed(old(List()), text) && Current(List()) == Some(text)
      ensures generation == (old(generation) + 1) % 0x1_0000_0000
    {
      hide ShiftData, ShiftLens, Pushed, ListOk, Texts;
      var last := if existing.Some? then existing.value else if count < HISTORY then count else HISTORY - 1;
      PushList(List(), text, last);
      PushTexts(data, lens, count, last, text, text + ShiftData(data, last)[|text|..], ShiftLens(lens, last)[0 := |text|]);
      data := ShiftData(data, last);
      lens := ShiftLens(lens, last);
      data := text + data[|text|..];
      lens := lens[0 := |text|];
      if existing.None? && count < HISTORY {
        count := count + 1;
      }
      generation := (generation + 1) % 0x1_0000_0000;
    }

    /** Makes an earlier text the current one. */
    method Select(index: nat)
      requires Valid()
      modifies this
      ensures Valid()
      ensures List() == if 0 < index < |old(List())| then Selected(old(List()), index) else old(List())
      ensures generation == if 0 < index < |old(List())| then (old(generation) + 1) % 0x1_0000_0000 else old(generation)
      ensures generation != old(generation) <==> Current(List()) != Current(old(List()))
    {
      hide ListOk, Texts;
      if index == 0 || index >= count {
        return;
      }
      RotateTexts(data, lens, count, index);
      SelectList(List(), index);
      data := RotateData(data, index);
      lens := lens[index..index + 1] + lens[..index] + lens[index + 1..];
      generation := (generation + 1) % 0x1_0000_0000;
    }

    /** Drops every text and wipes the storage. */
    method Clear()
      requires Valid()
      modifies this
      ensures Valid() && List() == [] && (forall i :: 0 <= i < |data| ==> data[i] == 0)
      ensures generation == old(generation)
      ensures Current(List()) != Current(old(List())) <==> old(List()) != []
    {
      count, lens, data := 0, seq(HISTORY, _ => 0), Zeros(ENTRY * HISTORY);
    }
  }

  /** Slots 0 to `index` turned by one, so that the last of them comes first. */
  function RotateData(data: seq<byte>, index: nat): (r: seq<byte>)
    requires |data| == ENTRY * HISTORY && index < HISTORY
    ensures |r| == |data|
  {
    data[index * ENTRY..(index + 1) * ENTRY] + data[..index * ENTRY] + data[(index + 1) * ENTRY..]
  }

  lemma RotatedSlot(data: seq<byte>, index: nat, i: nat, len: nat)
    requires |data| == ENTRY * HISTORY && index < HISTORY && i < HISTORY && len <= ENTRY
    ensures RotateData(data, index)[i * ENTRY..i * ENTRY + len]
         == if i == 0 then data[index * ENTRY..index * ENTRY + len]
            else if i <= index then data[(i - 1) * ENTRY..(i - 1) * ENTRY + len]
            else data[i * ENTRY..i * ENTRY + len]
  {
    Parts(data[index * ENTRY..(index + 1) * ENTRY], data[..index * ENTRY], data[(index + 1) * ENTRY..],
          i * ENTRY, i * ENTRY + len);
    if i == 0 {
      SliceOf(data, index * ENTRY, (index + 1) * ENTRY, 0, len);
    } else if i <= index {
      SliceOf(data, 0, index * ENTRY, (i - 1) * ENTRY, (i - 1) * ENTRY + len);
    } else {
      SliceOf(data, (index + 1) * ENTRY, |data|, (i - index - 1) * ENTRY, (i - index - 1) * ENTRY + len);
    }
  }

  lemma RotatedLens(lens: seq<nat>, index: nat, i: nat)
    requires index < |lens| && i < |lens|
    ensures var len := lens[index..index + 1] + lens[..index] + lens[index + 1..];
            |len| == |lens| && len[i] == if i == 0 then lens[index] else if i <= index then lens[i - 1] else lens[i]
  {
  }

  lemma RotateSlot(data: seq<byte>, lens: seq<nat>, index: nat, i: nat)
    requires Stored(data, lens, 0) && index < HISTORY && i < HISTORY
    ensures var len := lens[index..index + 1] + lens[..index] + lens[index + 1..];
            && Stored(RotateData(data, index), len, 0)
            && Entry(RotateData(data, index), len, i) == Behind(data, lens, index, Entry(data, lens, index), i)
  {
    hide RotateData;
    var len := lens[index..index + 1] + lens[..index] + lens[index + 1..];
    RotatedLens(lens, index, i);
    RotatedSlot(data, index, i, len[i]);
  }

  lemma RotateTexts(data: seq<byte>, lens: seq<nat>, count: nat, index: nat)
    requires Stored(data, lens, count) && index < count
    ensures var now, len := RotateData(data, index), lens[index..index + 1] + lens[..index] + lens[index + 1..];
            Stored(now, len, count) && Texts(now, len, count) == Selected(Texts(data, lens, count), index)
  {
    hide Entry, RotateData;
    var now, len := RotateData(data, index), lens[index..index + 1] + lens[..index] + lens[index + 1..];
    RotateSlot(data, lens, index, 0);
    forall i | 0 <= i < HISTORY
      ensures Entry(now, len, i) == Behind(data, lens, index, Entry(data, lens, index), i)
    {
      RotateSlot(data, lens, index, i);
    }
  }

  lemma SelectList(list: seq<Text>, i: nat)
    requires ListOk(list) && i < |list|
    ensures ListOk(Selected(list, i))
    ensures i > 0 ==> Current(Selected(list, i)) != Current(list)
  {
  }
}
