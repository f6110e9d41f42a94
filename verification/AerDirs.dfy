/** Directories: files of 64-byte slots, as sequences of entries. */
module AerDirs {
  import opened Options
  import opened LittleEndian
  import opened FileBytes
  import opened AerLayout

  ghost function Entries(data: seq<byte>): (es: seq<Entry>)
    ensures |es| == |data| / DIR_ENTRY
  {
    seq(|data| / DIR_ENTRY, k requires 0 <= k < |data| / DIR_ENTRY =>
      DecodeEntry(data[DIR_ENTRY * k..DIR_ENTRY * k + DIR_ENTRY]))
  }

  // ------------------------------------------------------------- searching

  /** The first slot from `k` on that is in use under `name`. */
  ghost function FindName(es: seq<Entry>, name: seq<byte>, k: nat): (r: Option<nat>)
    requires k <= |es|
    ensures r.Some? ==> k <= r.value < |es| && es[r.value].ino != 0 && es[r.value].name == name
    ensures r.None? ==> forall i :: k <= i < |es| ==> es[i].ino == 0 || es[i].name != name
    decreases |es| - k
  {
    if k == |es| then None
    else if es[k].ino != 0 && es[k].name == name then Some(k)
    else FindName(es, name, k + 1)
  }

  /** The first slot from `k` on that holds inode `ino`. */
  ghost function FindIno(es: seq<Entry>, ino: nat, k: nat): (r: Option<nat>)
    requires k <= |es|
    ensures r.Some? ==> k <= r.value < |es| && es[r.value].ino == ino
    ensures forall i :: k <= i < (if r.Some? then r.value else |es|) ==> es[i].ino != ino
    decreases |es| - k
  {
    if k == |es| then None
    else if es[k].ino == ino then Some(k)
    else FindIno(es, ino, k + 1)
  }

  /** The slot a new entry goes to: the first free one, or one past the end. */
  ghost function FreeSlot(es: seq<Entry>): (k: nat)
    ensures k <= |es|
    ensures k < |es| ==> es[k].ino == 0
    ensures forall i :: 0 <= i < k ==> es[i].ino != 0
  {
    if FindIno(es, 0, 0).Some? then FindIno(es, 0, 0).value else |es|
  }

  ghost predicate AllFree(es: seq<Entry>) {
    forall i :: 0 <= i < |es| ==> es[i].ino == 0
  }

  /** How many slots remain when free slots at the end are given back. */
  ghost function UsedLength(es: seq<Entry>, n: nat): (m: nat)
    requires n <= |es|
    ensures m <= n
    ensures forall i :: m <= i < n ==> es[i].ino == 0
    ensures m > 0 ==> es[m - 1].ino != 0
  {
    if n == 0 || es[n - 1].ino != 0 then n else UsedLength(es, n - 1)
  }

  // --------------------------------------------------------------- updates

  /** The bytes of a directory after an entry is put into slot `k`. */
  ghost function PutEntry(data: seq<byte>, k: nat, e: Entry): seq<byte>
    requires |e.name| <= NAME_MAX
  {
    Overwrite(data, DIR_ENTRY * k, EncodeEntry(e))
  }

  /** The bytes of a directory after slot `k` is cleared and free slots at the end are cut off. */
  ghost function ClearEntry(data: seq<byte>, k: nat): seq<byte>
    requires k < |Entries(data)|
  {
    var cleared := Overwrite(data, DIR_ENTRY * k, Zeros(DIR_ENTRY));
    Resize(cleared, DIR_ENTRY * UsedLength(Entries(cleared), |Entries(cleared)|))
  }

  lemma SlotOutside(data: seq<byte>, k: nat, rec: seq<byte>, j: nat)
    requires |data| % DIR_ENTRY == 0 && |rec| == DIR_ENTRY && k <= |data| / DIR_ENTRY
    requires j != k && j < |data| / DIR_ENTRY
    ensures var d := Overwrite(data, DIR_ENTRY * k, rec);
            |d| >= |data| &&
            d[DIR_ENTRY * j..DIR_ENTRY * j + DIR_ENTRY] == data[DIR_ENTRY * j..DIR_ENTRY * j + DIR_ENTRY]
  {
    OverwriteOutside(data, DIR_ENTRY * k, rec, DIR_ENTRY * j, DIR_ENTRY);
  }

  /** Overwriting one slot changes that entry and no other. */
  lemma EntriesOverwrite(data: seq<byte>, k: nat, rec: seq<byte>)
    requires |data| % DIR_ENTRY == 0 && |rec| == DIR_ENTRY && k <= |Entries(data)|
    ensures var d := Overwrite(data, DIR_ENTRY * k, rec);
            && |d| % DIR_ENTRY == 0
            && Entries(d) == if k < |Entries(data)| then Entries(data)[k := DecodeEntry(rec)]
                             else Entries(data) + [DecodeEntry(rec)]
  {
    hide DecodeEntry, Overwrite;
    var d := Overwrite(data, DIR_ENTRY * k, rec);
    OverwriteInside(data, DIR_ENTRY * k, rec);
    var es, es' := Entries(data), Entries(d);
    forall j | 0 <= j < |es| && j != k ensures es'[j] == es[j] {
      SlotOutside(data, k, rec, j);
    }
  }

  lemma EntriesPut(data: seq<byte>, k: nat, e: Entry)
    requires |data| % DIR_ENTRY == 0 && k <= |Entries(data)| && |e.name| <= NAME_MAX
    ensures |PutEntry(data, k, e)| % DIR_ENTRY == 0
    ensures Entries(PutEntry(data, k, e)) == if k < |Entries(data)| then Entries(data)[k := e] else Entries(data) + [e]
  {
    hide Entries, EncodeEntry, DecodeEntry, Overwrite;
    EntryRoundTrip(e);
    EntriesOverwrite(data, k, EncodeEntry(e));
  }

  lemma EntriesResize(data: seq<byte>, m: nat)
    requires |data| % DIR_ENTRY == 0 && m <= |Entries(data)|
    ensures |Resize(data, DIR_ENTRY * m)| % DIR_ENTRY == 0
    ensures Entries(Resize(data, DIR_ENTRY * m)) == Entries(data)[..m]
  {
    hide DecodeEntry;
    var d := Resize(data, DIR_ENTRY * m);
    assert |Entries(d)| == m;
    forall j | 0 <= j < m ensures Entries(d)[j] == Entries(data)[j] {
      assert d[DIR_ENTRY * j..DIR_ENTRY * j + DIR_ENTRY] == data[DIR_ENTRY * j..DIR_ENTRY * j + DIR_ENTRY];
    }
  }

  lemma EntriesClear(data: seq<byte>, k: nat)
    requires |data| % DIR_ENTRY == 0 && k < |Entries(data)|
    ensures |ClearEntry(data, k)| % DIR_ENTRY == 0
    ensures var es := Entries(data)[k := FREE_ENTRY];
            Entries(ClearEntry(data, k)) == es[..UsedLength(es, |es|)]
  {
    hide Entries, DecodeEntry, Overwrite, Resize;
    DecodeZeroEntry();
    EntriesOverwrite(data, k, Zeros(DIR_ENTRY));
    var cleared := Overwrite(data, DIR_ENTRY * k, Zeros(DIR_ENTRY));
    EntriesResize(cleared, UsedLength(Entries(cleared), |Entries(cleared)|));
  }

  lemma EntriesEmpty()
    ensures Entries([]) == []
  {
  }

  /** Reading slot `k` of a directory. */
  lemma EntrySlice(data: seq<byte>, k: nat)
    requires |data| % DIR_ENTRY == 0 && k < |Entries(data)|
    ensures DIR_ENTRY * k + DIR_ENTRY <= |data|
    ensures |Slice(data, DIR_ENTRY * k, DIR_ENTRY)| == DIR_ENTRY
    ensures Entries(data)[k] == DecodeEntry(Slice(data, DIR_ENTRY * k, DIR_ENTRY))
  {
    hide DecodeEntry;
  }

  lemma EntryCount(data: seq<byte>)
    requires |data| % DIR_ENTRY == 0
    ensures |data| == DIR_ENTRY * |Entries(data)|
  {
  }

  /** Trimming when nothing is to be trimmed. */
  lemma ResizeSame(data: seq<byte>)
    ensures Resize(data, |data|) == data
  {
  }
}
