/**
 The virus scanner's search for byte patterns in a stream: an index by first
 byte, and a tail carried from one chunk to the next.
 */
module NeedleSearch {
  import opened LittleEndian

  const MAX_INDEXED := 192
  const TAIL := 80
  const CHUNK := 4096

  /** A needle's name: which pattern, and which of its needles. */
  type Name = (nat, nat)

  /** A needle as the index sees it: its first byte and its name. */
  datatype Key = Key(first: byte, name: Name)

  /** The names of the needles that start with byte `b`, in order. */
  function Bucket(keys: seq<Key>, b: nat): seq<Name> {
    if keys == [] then []
    else Bucket(keys[..|keys| - 1], b) + if keys[|keys| - 1].first == b then [keys[|keys| - 1].name] else []
  }

  lemma BucketStep(keys: seq<Key>, i: nat, b: nat)
    requires i < |keys|
    ensures Bucket(keys[..i + 1], b) == Bucket(keys[..i], b) + if keys[i].first == b then [keys[i].name] else []
  {
    assert keys[..i + 1][..i] == keys[..i];
  }

  lemma {:induction false} BucketGrows(keys: seq<Key>, i: nat, b: nat)
    requires i <= |keys|
    ensures |Bucket(keys[..i], b)| <= |Bucket(keys, b)|
    decreases |keys| - i
  {
    if i < |keys| {
      BucketStep(keys, i, b);
      BucketGrows(keys, i + 1, b);
    } else {
      assert keys[..i] == keys;
    }
  }

  lemma {:induction false} BucketHas(keys: seq<Key>, b: nat, name: Name)
    ensures name in Bucket(keys, b) <==> exists k :: 0 <= k < |keys| && keys[k].first == b && keys[k].name == name
  {
    if keys != [] {
      var init, last := keys[..|keys| - 1], keys[|keys| - 1];
      BucketHas(init, b, name);
      if k :| 0 <= k < |keys| && keys[k].first == b && keys[k].name == name {
        assert k < |init| ==> init[k] == keys[k];
      }
      if k :| 0 <= k < |init| && init[k].first == b && init[k].name == name {
        assert keys[k] == init[k];
      }
    }
  }

  /** The entries for byte `b` are `entries[start[b]..start[b + 1]]`. */
  datatype Index = Index(start: seq<nat>, entries: seq<Name>)

  ghost predicate BucketOk(keys: seq<Key>, index: Index, b: nat)
    requires |index.start| == 257 && b < 256
  {
    && index.start[b] <= index.start[b + 1] <= |index.entries|
    && index.entries[index.start[b]..index.start[b + 1]] == Bucket(keys, b)
  }

  ghost predicate IndexOk(keys: seq<Key>, index: Index) {
    && |index.start| == 257 && |index.entries| == MAX_INDEXED
    && forall b :: 0 <= b < 256 ==> BucketOk(keys, index, b)
  }

  /** How many of the keys start with a byte below `b`. */
  ghost function Before(keys: seq<Key>, b: nat): nat {
    if b == 0 then 0 else Before(keys, b - 1) + |Bucket(keys, b - 1)|
  }

  lemma {:induction false} BeforeGrows(keys: seq<Key>, a: nat, b: nat)
    requires a <= b
    ensures Before(keys, a) <= Before(keys, b)
    ensures a < b ==> Before(keys, a) + |Bucket(keys, a)| <= Before(keys, b)
    decreases b
  {
    if a < b {
      BeforeGrows(keys, a, b - 1);
    }
  }

  lemma {:induction false} BeforeStep(keys: seq<Key>, b: nat)
    requires keys != []
    ensures var init, last := keys[..|keys| - 1], keys[|keys| - 1];
            Before(keys, b) == Before(init, b) + if last.first < b then 1 else 0
  {
    if b > 0 {
      BeforeStep(keys, b - 1);
    }
  }

  lemma {:induction false} BeforeAll(keys: seq<Key>)
    ensures Before(keys, 256) == |keys|
  {
    if keys == [] {
      BeforeNone(256);
    } else {
      BeforeStep(keys, 256);
      BeforeAll(keys[..|keys| - 1]);
    }
  }

  lemma {:induction false} BeforeNone(b: nat)
    ensures Before([], b) == 0
  {
    if b > 0 {
      BeforeNone(b - 1);
    }
  }

  /** Sorts the keys by first byte, counting first. Keys past the limit are left out. */
  method Build(keys: seq<Key>) returns (index: Index)
    ensures IndexOk(if |keys| <= MAX_INDEXED then keys else keys[..MAX_INDEXED], index)
  {
    hide Before, Bucket, Filled;
    var used := if |keys| <= MAX_INDEXED then keys else keys[..MAX_INDEXED];
    var counts := CountFirst(used);
    var start: seq<nat> := seq(257, _ => 0);
    var total: nat := 0;
    BeforeZero(used);
    for b := 0 to 256
      invariant |start| == 257 && total == Before(used, b)
      invariant forall a :: 0 <= a < b ==> start[a] == Before(used, a)
    {
      BeforeNext(used, b);
      start := start[b := total];
      total := total + counts[b];
    }
    start := start[256 := total];
    var entries := Place(used, start);
    index := Index(start, entries);
    forall b | 0 <= b < 256 ensures BucketOk(used, index, b) {
      assert Filled(used, |used|, entries, b, |Bucket(used, b)|);
      FilledAll(used, index, b);
    }
  }

  lemma BeforeZero(keys: seq<Key>)
    ensures Before(keys, 0) == 0
  {
  }

  lemma BeforeNext(keys: seq<Key>, b: nat)
    ensures Before(keys, b + 1) == Before(keys, b) + |Bucket(keys, b)|
  {
  }

  lemma FilledAll(keys: seq<Key>, index: Index, b: nat)
    requires |index.start| == 257 && b < 256 && |index.entries| == MAX_INDEXED
    requires index.start[b] == Before(keys, b) && index.start[b + 1] == Before(keys, b + 1)
    requires Filled(keys, |keys|, index.entries, b, |Bucket(keys, b)|)
    ensures BucketOk(keys, index, b)
  {
    hide Bucket;
    assert keys[..|keys|] == keys;
  }

  /** How many keys start with each byte. */
  method CountFirst(keys: seq<Key>) returns (counts: seq<nat>)
    ensures |counts| == 256 && forall b :: 0 <= b < 256 ==> counts[b] == |Bucket(keys, b)|
  {
    hide Bucket;
    counts := seq(256, _ => 0);
    forall b: nat ensures Bucket(keys[..0], b) == [] { BucketNone(keys, b); }
    for i := 0 to |keys|
      invariant |counts| == 256 && forall b :: 0 <= b < 256 ==> counts[b] == |Bucket(keys[..i], b)|
    {
      forall b: nat ensures |Bucket(keys[..i + 1], b)| == |Bucket(keys[..i], b)| + if keys[i].first == b then 1 else 0 {
        BucketStep(keys, i, b);
      }
      var b := keys[i].first as nat;
      counts := counts[b := counts[b] + 1];
    }
    assert keys[..|keys|] == keys;
  }

  lemma BucketNone(keys: seq<Key>, b: nat)
    ensures Bucket(keys[..0], b) == []
  {
  }

  /** Puts each key's name in the next free place of its bucket. */
  method Place(keys: seq<Key>, start: seq<nat>) returns (entries: seq<Name>)
    requires |keys| <= MAX_INDEXED && |start| == 257 && forall b :: 0 <= b <= 256 ==> start[b] == Before(keys, b)
    ensures |entries| == MAX_INDEXED
    ensures forall b :: 0 <= b < 256 ==> Filled(keys, |keys|, entries, b, |Bucket(keys, b)|)
  {
    hide Before, Bucket, Filled;
    entries := seq(MAX_INDEXED, _ => (0, 0));
    var next: seq<nat> := seq(256, _ => 0);
    forall b | 0 <= b < 256 ensures Filled(keys, 0, entries, b, next[b]) {
      FillNone(keys, entries, b);
    }
    for i := 0 to |keys|
      invariant |entries| == MAX_INDEXED && |next| == 256
      invariant forall b :: 0 <= b < 256 ==> Filled(keys, i, entries, b, next[b])
    {
      var b := keys[i].first as nat;
      FillStep(keys, i, entries, b, next[b], next[b]);
      ghost var before := entries;
      entries := entries[start[b] + next[b] := keys[i].name];
      forall c | 0 <= c < 256 ensures Filled(keys, i + 1, entries, c, if c == b then next[b] + 1 else next[c]) {
        FillStep(keys, i, before, c, next[c], next[b]);
      }
      next := next[b := next[b] + 1];
    }
    forall b | 0 <= b < 256 ensures Filled(keys, |keys|, entries, b, |Bucket(keys, b)|) {
      assert Filled(keys, |keys|, entries, b, next[b]);
      FilledCount(keys, entries, b, next[b]);
    }
  }

  lemma FilledCount(keys: seq<Key>, entries: seq<Name>, b: nat, n: nat)
    requires Filled(keys, |keys|, entries, b, n)
    ensures n == |Bucket(keys, b)|
  {
    hide Bucket;
    assert keys[..|keys|] == keys;
  }

  lemma FillNone(keys: seq<Key>, entries: seq<Name>, b: nat)
    requires |keys| <= MAX_INDEXED == |entries| && b < 256
    ensures Filled(keys, 0, entries, b, 0)
  {
    hide Before;
    BucketNone(keys, b);
    BeforeAll(keys);
    BeforeGrows(keys, b, 256);
  }

  /** The first `n` places of bucket `b` hold what the first `i` keys put there. */
  ghost predicate Filled(keys: seq<Key>, i: nat, entries: seq<Name>, b: nat, n: nat) {
    && i <= |keys| && n == |Bucket(keys[..i], b)|
    && Before(keys, b) + n <= |entries|
    && entries[Before(keys, b)..Before(keys, b) + n] == Bucket(keys[..i], b)
  }

  lemma FillStep(keys: seq<Key>, i: nat, entries: seq<Name>, c: nat, n: nat, m: nat)
    requires i < |keys| <= MAX_INDEXED && |entries| == MAX_INDEXED && c < 256
    requires Filled(keys, i, entries, c, n) && Filled(keys, i, entries, keys[i].first, m)
    ensures var b := keys[i].first as nat;
            && Before(keys, b) + m < MAX_INDEXED
            && Filled(keys, i + 1, entries[Before(keys, b) + m := keys[i].name], c, if c == b then m + 1 else n)
  {
    hide Before, Bucket;
    var b := keys[i].first as nat;
    BucketStep(keys, i, b);
    BucketStep(keys, i, c);
    BucketGrows(keys, i + 1, b);
    BucketGrows(keys, i + 1, c);
    BeforeAll(keys);
    BeforeGrows(keys, b, 256);
    if c < b {
      BeforeGrows(keys, c, b);
    } else if c > b {
      BeforeGrows(keys, b, c);
    }
  }

  // -------------------------------------------------------------- occurrence

  predicate StartsAt(s: seq<byte>, p: nat, needle: seq<byte>) {
    p + |needle| <= |s| && s[p..p + |needle|] == needle
  }

  ghost predicate Occurs(needle: seq<byte>, s: seq<byte>) {
    exists p: nat :: StartsAt(s, p, needle)
  }

  function Last(s: seq<byte>, n: nat): seq<byte> {
    if |s| <= n then s else s[|s| - n..]
  }

  lemma SuffixStarts(s: seq<byte>, skip: nat, p: nat, needle: seq<byte>)
    requires skip <= |s|
    ensures StartsAt(s[skip..], p, needle) <==> StartsAt(s, skip + p, needle)
  {
    if skip + p + |needle| <= |s| {
      assert s[skip..][p..p + |needle|] == s[skip + p..skip + p + |needle|];
    }
  }

  lemma PrefixStarts(s: seq<byte>, more: seq<byte>, p: nat, needle: seq<byte>)
    requires p + |needle| <= |s|
    ensures StartsAt(s, p, needle) <==> StartsAt(s + more, p, needle)
  {
    assert (s + more)[p..p + |needle|] == s[p..p + |needle|];
  }

  lemma TailWindow(stream: seq<byte>, chunk: seq<byte>)
    ensures |Last(stream, TAIL)| <= |stream|
    ensures Last(stream, TAIL) + chunk == (stream + chunk)[|stream| - |Last(stream, TAIL)|..]
  {
  }

  /** What is new in a longer stream shows in the old tail and the new bytes, if the needle is short enough. */
  lemma OccursInTail(needle: seq<byte>, stream: seq<byte>, chunk: seq<byte>)
    requires 1 <= |needle| <= TAIL + 1
    ensures Occurs(needle, stream + chunk) <==> Occurs(needle, stream) || Occurs(needle, Last(stream, TAIL) + chunk)
  {
    var tail := Last(stream, TAIL);
    var skip := |stream| - |tail|;
    var all := stream + chunk;
    TailWindow(stream, chunk);
    if p: nat :| StartsAt(all, p, needle) {
      if p + |needle| <= |stream| {
        PrefixStarts(stream, chunk, p, needle);
      } else {
        SuffixStarts(all, skip, p - skip, needle);
      }
    }
    if p: nat :| StartsAt(stream, p, needle) {
      PrefixStarts(stream, chunk, p, needle);
    }
    WindowInStream(needle, stream, chunk);
  }

  /** Whatever the window shows is in the stream. */
  lemma WindowInStream(needle: seq<byte>, stream: seq<byte>, chunk: seq<byte>)
    ensures Occurs(needle, Last(stream, TAIL) + chunk) ==> Occurs(needle, stream + chunk)
  {
    var tail := Last(stream, TAIL);
    var skip := |stream| - |tail|;
    var window := tail + chunk;
    TailWindow(stream, chunk);
    if p: nat :| StartsAt(window, p, needle) {
      SuffixStarts(stream + chunk, skip, p, needle);
    }
  }

  // --------------------------------------------------------------- streaming

  function Joined(pieces: seq<seq<byte>>): seq<byte> {
    if pieces == [] then [] else Joined(pieces[..|pieces| - 1]) + pieces[|pieces| - 1]
  }

  /** What a scan of the pieces, each after the tail of those before it, comes upon. */
  ghost predicate Caught(needle: seq<byte>, pieces: seq<seq<byte>>) {
    pieces != [] &&
    var init, last := pieces[..|pieces| - 1], pieces[|pieces| - 1];
    Caught(needle, init) || Occurs(needle, Last(Joined(init), TAIL) + last)
  }

  /** However a stream is cut, a needle of at most 81 bytes is found exactly when it is there. */
  lemma {:induction false} CutAnywhere(needle: seq<byte>, pieces: seq<seq<byte>>)
    requires 1 <= |needle| <= TAIL + 1
    ensures Caught(needle, pieces) <==> Occurs(needle, Joined(pieces))
    decreases |pieces|
  {
    hide Occurs;
    if pieces == [] {
      OccursEmpty(needle);
    } else {
      var init := pieces[..|pieces| - 1];
      CutAnywhere(needle, init);
      OccursInTail(needle, Joined(init), pieces[|pieces| - 1]);
    }
  }

  lemma OccursEmpty(needle: seq<byte>)
    requires needle != []
    ensures !Occurs(needle, [])
  {
  }

  /** One byte at a time. */
  function Singles(s: seq<byte>): seq<seq<byte>> {
    if s == [] then [] else Singles(s[..|s| - 1]) + [[s[|s| - 1]]]
  }

  lemma {:induction false} SinglesJoin(s: seq<byte>)
    ensures Joined(Singles(s)) == s
  {
    if s != [] {
      var init := s[..|s| - 1];
      SinglesJoin(init);
      assert Singles(s)[..|Singles(s)| - 1] == Singles(init);
    }
  }

  /** Fed one byte at a time, no longer needle is ever found. */
  lemma {:induction false} SinglesMiss(needle: seq<byte>, s: seq<byte>)
    requires |needle| > TAIL + 1
    ensures !Caught(needle, Singles(s))
  {
    if s != [] {
      var init := s[..|s| - 1];
      SinglesMiss(needle, init);
      assert Singles(s)[..|Singles(s)| - 1] == Singles(init);
      var window := Last(Joined(Singles(init)), TAIL) + Singles(s)[|Singles(s)| - 1];
      assert |window| <= TAIL + 1;
      assert forall p: nat :: !StartsAt(window, p, needle);
    }
  }

  /** The search does not depend on how the stream is cut exactly for needles of up to 81 bytes. */
  lemma CutIndependent(needle: seq<byte>)
    requires needle != []
    ensures (forall pieces: seq<seq<byte>> :: Caught(needle, pieces) <==> Occurs(needle, Joined(pieces)))
      <==> |needle| <= TAIL + 1
  {
    hide Caught, Joined;
    if |needle| <= TAIL + 1 {
      forall pieces: seq<seq<byte>> ensures Caught(needle, pieces) <==> Occurs(needle, Joined(pieces)) {
        CutAnywhere(needle, pieces);
      }
    } else {
      var pieces := Singles(needle);
      SinglesMiss(needle, needle);
      SinglesJoin(needle);
      assert needle[0..|needle|] == needle;
      assert StartsAt(needle, 0, needle);
    }
  }

  // ------------------------------------------------------------- the scanner

  /** The keys of the needles in a database. */
  ghost predicate KeysOk(keys: seq<Key>, texts: map<Name, seq<byte>>) {
    forall k :: 0 <= k < |keys| ==>
      && keys[k].name in texts && texts[keys[k].name] != [] && keys[k].first == texts[keys[k].name][0]
  }

  ghost predicate Listed(keys: seq<Key>, name: Name) {
    exists k :: 0 <= k < |keys| && keys[k].name == name
  }

  /** Looks at each needle only where its first byte occurs. */
  method Scan(index: Index, window: seq<byte>, hits: set<Name>, texts: map<Name, seq<byte>>, ghost keys: seq<Key>)
    returns (found: set<Name>)
    requires IndexOk(keys, index) && KeysOk(keys, texts)
    ensures forall name :: name in found <==>
      name in hits || (Listed(keys, name) && name in texts && Occurs(texts[name], window))
  {
    hide IndexOk, KeysOk, Listed;
    found := hits;
    for position := 0 to |window|
      invariant forall name :: name in found <==> name in hits || FoundBy(keys, texts, window, name, position)
    {
      found := ScanAt(index, window, position, found, texts, keys);
    }
    forall name ensures FoundBy(keys, texts, window, name, |window|)
      <==> Listed(keys, name) && name in texts && Occurs(texts[name], window)
    {
      FoundAll(keys, texts, window, name);
    }
  }

  /** Needle `name` occurs before `position`. */
  ghost predicate FoundBy(keys: seq<Key>, texts: map<Name, seq<byte>>, window: seq<byte>, name: Name, position: nat) {
    Listed(keys, name) && name in texts && exists p: nat :: p < position && StartsAt(window, p, texts[name])
  }

  lemma FoundAll(keys: seq<Key>, texts: map<Name, seq<byte>>, window: seq<byte>, name: Name)
    requires KeysOk(keys, texts)
    ensures FoundBy(keys, texts, window, name, |window|)
      <==> Listed(keys, name) && name in texts && Occurs(texts[name], window)
  {
    if Listed(keys, name) && name in texts {
      if p: nat :| StartsAt(window, p, texts[name]) {
        assert p < |window|;
      }
    }
  }

  /** The needles that start with the byte at one position. */
  method ScanAt(index: Index, window: seq<byte>, position: nat, hits: set<Name>, texts: map<Name, seq<byte>>, ghost keys: seq<Key>)
    returns (found: set<Name>)
    requires IndexOk(keys, index) && KeysOk(keys, texts) && position < |window|
    ensures forall name :: name in found <==>
      name in hits || (Listed(keys, name) && name in texts && StartsAt(window, position, texts[name]))
  {
    found := hits;
    var b := window[position] as nat;
    assert BucketOk(keys, index, b);
    var from, to := index.start[b], index.start[b + 1];
    ghost var bucket := Bucket(keys, b);
    for n := from to to
      invariant forall name :: name in found <==>
        name in hits || (name in bucket[..n - from] && name in texts && StartsAt(window, position, texts[name]))
    {
      var name := index.entries[n];
      assert name == bucket[n - from];
      BucketHas(keys, b, name);
      assert bucket[..n + 1 - from] == bucket[..n - from] + [name];
      if name !in found && StartsAt(window, position, texts[name]) {
        found := found + {name};
      }
    }
    assert bucket[..to - from] == bucket;
    forall name ensures name in bucket && name in texts && StartsAt(window, position, texts[name])
      <==> Listed(keys, name) && name in texts && StartsAt(window, position, texts[name])
    {
      BucketHas(keys, b, name);
      if Listed(keys, name) && name in texts && StartsAt(window, position, texts[name]) {
        var k :| 0 <= k < |keys| && keys[k].name == name;
        assert window[position..position + |texts[name]|][0] == texts[name][0];
        assert keys[k].first == b;
      }
    }
  }

  class Scanner {
    const texts: map<Name, seq<byte>>
    const keys: seq<Key>
    var tail: seq<byte>
    var hits: set<Name>
    /** The chunks fed so far. */
    ghost var pieces: seq<seq<byte>>

    ghost predicate Valid()
      reads this
    {
      && KeysOk(keys, texts) && |keys| <= MAX_INDEXED
      && tail == Last(Joined(pieces), TAIL)
      && forall name :: name in hits <==> Listed(keys, name) && name in texts && Caught(texts[name], pieces)
    }

    constructor (database: map<Name, seq<byte>>, needles: seq<Key>)
      requires KeysOk(needles, database) && |needles| <= MAX_INDEXED
      ensures Valid() && pieces == [] && texts == database && keys == needles
    {
      texts, keys, tail, hits := database, needles, [], {};
      pieces := [];
    }

    method FeedChunk(chunk: seq<byte>)
      requires Valid() && |chunk| <= CHUNK
      modifies this
      ensures Valid() && pieces == old(pieces) + [chunk]
    {
      hide KeysOk, Listed, Occurs, IndexOk;
      var window := tail + chunk;
      var index := Build(keys);
      hits := Scan(index, window, hits, texts, keys);
      var keep := if |window| <= TAIL then |window| else TAIL;
      var start := |window| - keep;
      tail := window[start..];
      pieces := pieces + [chunk];
      assert pieces[..|pieces| - 1] == old(pieces);
      TailOfTail(Joined(old(pieces)), chunk);
    }

    /** Feeds any data: afterwards a needle of up to 81 bytes is hit exactly when it is in the stream. */
    method Feed(data: seq<byte>)
      requires Valid()
      modifies this
      ensures Valid() && Joined(pieces) == old(Joined(pieces)) + data
      ensures forall name :: Listed(keys, name) && name in texts && |texts[name]| <= TAIL + 1 && texts[name] != [] ==>
        (name in hits <==> Occurs(texts[name], Joined(pieces)))
    {
      hide KeysOk, Listed, Occurs, Caught;
      var rest := data;
      while rest != []
        invariant Valid() && Joined(pieces) + rest == old(Joined(pieces)) + data
        decreases |rest|
      {
        var take := if |rest| <= CHUNK then |rest| else CHUNK;
        ghost var before := pieces;
        FeedChunk(rest[..take]);
        assert pieces[..|pieces| - 1] == before;
        assert rest == rest[..take] + rest[take..];
        rest := rest[take..];
      }
      assert Joined(pieces) + [] == Joined(pieces);
      forall name | Listed(keys, name) && name in texts && |texts[name]| <= TAIL + 1 && texts[name] != []
        ensures name in hits <==> Occurs(texts[name], Joined(pieces))
      {
        CutAnywhere(texts[name], pieces);
      }
    }
  }

  lemma TailOfTail(stream: seq<byte>, chunk: seq<byte>)
    ensures Last(Last(stream, TAIL) + chunk, TAIL) == Last(stream + chunk, TAIL)
  {
  }
}
