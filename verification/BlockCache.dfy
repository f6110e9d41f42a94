/**
 The block layer's write-through page cache over the disks. Whatever is read,
 written, evicted, reclaimed or fails, a cached page equals the medium.
 */
module BlockCache {
  import opened Options
  import opened LittleEndian

  const MAX_RUN := 8
  const SETS := 64
  const WAYS := 4
  const CACHE_PAGES := 256
  const DISKS := 11

  type Sector = s: seq<byte> | |s| == 512 witness Zeros(512)

  datatype Disk = Ahci(port: nat) | Nvme | Usb | Sd | Virtio | Volume(number: nat) {
    /** The slot of a disk in the tables of counters. */
    function Index(): (i: nat)
      ensures i < DISKS
    {
      match this
      case Ahci(port) => if port <= 3 then port else 3
      case Nvme => 4
      case Usb => 5
      case Sd => 6
      case Virtio => 7
      case Volume(number) => if number <= 1 then 9 + number else 10
    }
  }

  /** What the media hold; a disk that is absent has no sectors. */
  type Media = map<Disk, seq<Sector>>

  ghost function SizeOf(media: Media, disk: Disk): nat {
    if disk in media then |media[disk]| else 0
  }

  /** The sectors from `lba` on. */
  ghost function Run(media: Media, disk: Disk, lba: nat, count: nat): (r: seq<Sector>)
    requires lba + count <= SizeOf(media, disk)
    ensures |r| == count
  {
    if count == 0 then [] else media[disk][lba..lba + count]
  }

  /** `after` differs from `before` in nothing but the sectors from `lba` on. */
  ghost predicate SameElsewhere(before: Media, after: Media, disk: Disk, lba: nat, count: nat) {
    && after.Keys == before.Keys
    && (forall d :: d in before ==> |after[d]| == |before[d]|)
    && (forall d, i :: d in before && 0 <= i < |before[d]| && !(d == disk && lba <= i < lba + count) ==>
          after[d][i] == before[d][i])
  }

  datatype Page = Page(disk: Disk, number: nat, data: Option<seq<Sector>>, stamp: nat)

  /** A command to a disk. */
  datatype Command = Command(disk: Disk, lba: nat, count: nat, write: bool)

  /** Where commands leave the heads: each at the end of the last one on its slot. */
  ghost function HeadsAfter(commands: seq<Command>): (heads: seq<nat>)
    ensures |heads| == DISKS
  {
    if commands == [] then seq(DISKS, _ => 0)
    else
      var last := commands[|commands| - 1];
      HeadsAfter(commands[..|commands| - 1])[last.disk.Index() := last.lba + last.count]
  }

  const EMPTY_PAGE := Page(Nvme, 0, None, 0)

  /** The set a page belongs to: its number and its disk's slot, mixed by exclusive or. */
  function SetOf(disk: Disk, number: nat): (s: nat)
    ensures s < SETS
  {
    var a := (number % 64) as bv6;
    var b := (disk.Index() * 0x9e37 % 64) as bv6;
    (a ^ b) as nat
  }

  // -------------------------------------------------------------- coherence

  type Pages = seq<seq<Page>>

  ghost predicate Shaped(pages: Pages) {
    |pages| == SETS && forall s :: 0 <= s < SETS ==> |pages[s]| == WAYS
  }

  /** A resident page lies in its set and holds what the medium holds. */
  ghost predicate PageOk(media: Media, set': nat, page: Page) {
    page.data.Some? ==>
      && SetOf(page.disk, page.number) == set'
      && MAX_RUN * page.number + MAX_RUN <= SizeOf(media, page.disk)
      && page.data.value == Run(media, page.disk, MAX_RUN * page.number, MAX_RUN)
  }

  ghost predicate PagesOk(media: Media, pages: Pages)
    requires Shaped(pages)
  {
    forall s, w {:trigger pages[s][w]} :: 0 <= s < SETS && 0 <= w < WAYS ==> PageOk(media, s, pages[s][w])
  }

  predicate Holds(page: Page, disk: Disk, number: nat) {
    page.data.Some? && page.disk == disk && page.number == number
  }

  /** No page is cached twice. */
  ghost predicate Once(pages: Pages)
    requires Shaped(pages)
  {
    forall s, w, w' {:trigger pages[s][w], pages[s][w']} ::
      0 <= s < SETS && 0 <= w < w' < WAYS && pages[s][w].data.Some? && pages[s][w'].data.Some? ==>
        !(pages[s][w].disk == pages[s][w'].disk && pages[s][w].number == pages[s][w'].number)
  }

  ghost function Filled(pages: Pages): set<(nat, nat)>
    requires Shaped(pages)
  {
    set s: nat, w: nat | s < SETS && w < WAYS && pages[s][w].data.Some? :: (s, w)
  }

  function Put(pages: Pages, s: nat, w: nat, page: Page): Pages
    requires s < |pages| && w < |pages[s]|
  {
    pages[s := pages[s][w := page]]
  }

  lemma PutFilled(pages: Pages, s: nat, w: nat, page: Page)
    requires Shaped(pages) && s < SETS && w < WAYS
    ensures Shaped(Put(pages, s, w, page))
    ensures Filled(Put(pages, s, w, page)) == if page.data.Some? then Filled(pages) + {(s, w)} else Filled(pages) - {(s, w)}
  {
  }

  /** Every page equals the medium, none is cached twice, and the count of pages is right. */
  ghost predicate CacheOk(media: Media, pages: Pages, resident: nat) {
    Shaped(pages) && PagesOk(media, pages) && Once(pages) && resident == |Filled(pages)|
  }

  /** No page was used later than now. */
  ghost predicate Aged(pages: Pages, clock: nat) {
    forall s, w :: 0 <= s < |pages| && 0 <= w < |pages[s]| ==> pages[s][w].stamp <= clock
  }

  lemma AgedPut(pages: Pages, clock: nat, s: nat, w: nat, page: Page, now: nat)
    requires Aged(pages, clock) && s < |pages| && w < |pages[s]| && clock <= now && page.stamp <= now
    ensures Aged(Put(pages, s, w, page), now)
  {
  }

  lemma AgedAt(pages: Pages, clock: nat, s: nat, w: nat)
    requires Aged(pages, clock) && s < |pages| && w < |pages[s]|
    ensures pages[s][w].stamp <= clock
  {
  }

  lemma CacheShape(media: Media, pages: Pages, resident: nat)
    requires CacheOk(media, pages, resident)
    ensures Shaped(pages) && (resident == 0 <==> Filled(pages) == {})
  {
  }

  lemma CachePage(media: Media, pages: Pages, resident: nat, s: nat, w: nat)
    requires CacheOk(media, pages, resident) && s < SETS && w < WAYS
    ensures Shaped(pages) && PageOk(media, s, pages[s][w])
  {
    hide PageOk;
  }

  /** Replacing one page by another that is sound and not cached elsewhere. */
  lemma PutOk(media: Media, pages: Pages, s: nat, w: nat, page: Page)
    requires Shaped(pages) && PagesOk(media, pages) && Once(pages) && s < SETS && w < WAYS
    requires PageOk(media, s, page)
    requires page.data.Some? ==> forall v :: 0 <= v < WAYS && v != w ==> !Holds(pages[s][v], page.disk, page.number)
    ensures var pages' := Put(pages, s, w, page); Shaped(pages') && PagesOk(media, pages') && Once(pages')
  {
    hide PageOk;
    var pages' := Put(pages, s, w, page);
    forall t, v | 0 <= t < SETS && 0 <= v < WAYS ensures PageOk(media, t, pages'[t][v]) {
      assert PageOk(media, t, pages[t][v]);
    }
  }

  lemma DropOk(media: Media, pages: Pages, resident: nat, s: nat, w: nat)
    requires CacheOk(media, pages, resident) && s < SETS && w < WAYS && Shaped(pages) && pages[s][w].data.Some?
    ensures resident > 0 && CacheOk(media, Put(pages, s, w, pages[s][w].(data := None)), resident - 1)
  {
    hide PagesOk, Once;
    var page := pages[s][w].(data := None);
    PutOk(media, pages, s, w, page);
    PutFilled(pages, s, w, page);
    assert (s, w) in Filled(pages);
  }

  lemma InsertOk(media: Media, pages: Pages, resident: nat, s: nat, w: nat, page: Page)
    requires CacheOk(media, pages, resident) && s < SETS && w < WAYS && Shaped(pages)
    requires page.data.Some? && PageOk(media, s, page)
    requires forall v :: 0 <= v < WAYS && v != w ==> !Holds(pages[s][v], page.disk, page.number)
    ensures CacheOk(media, Put(pages, s, w, page), if pages[s][w].data.Some? then resident else resident + 1)
  {
    hide PagesOk, Once, PageOk;
    PutOk(media, pages, s, w, page);
    PutFilled(pages, s, w, page);
    if pages[s][w].data.Some? {
      assert (s, w) in Filled(pages);
      assert Filled(pages) + {(s, w)} == Filled(pages);
    } else {
      assert (s, w) !in Filled(pages);
    }
  }

  /** Only one way can hold a page. */
  lemma OnlyWay(media: Media, pages: Pages, resident: nat, s: nat, w: nat, v: nat, disk: Disk, number: nat)
    requires CacheOk(media, pages, resident) && Shaped(pages) && s < SETS && w < WAYS && v < WAYS && v != w
    requires Holds(pages[s][w], disk, number)
    ensures !Holds(pages[s][v], disk, number)
  {
    hide PagesOk;
    if v < w {
      assert !(pages[s][v].data.Some? && pages[s][v].disk == disk && pages[s][v].number == number) by {
        assert pages[s][v] == pages[s][v] && pages[s][w] == pages[s][w];
      }
    }
  }

  // ------------------------------------------------------------- writing

  /** The media with one sector replaced. */
  ghost function SetSector(media: Media, disk: Disk, lba: nat, value: Sector): Media
    requires lba < SizeOf(media, disk)
  {
    var sectors: seq<Sector> := media[disk][lba := value];
    media[disk := sectors]
  }

  /** The media with the sectors from `lba` on replaced. */
  ghost function SetRun(media: Media, disk: Disk, lba: nat, data: seq<Sector>): (r: Media)
    requires lba + |data| <= SizeOf(media, disk)
    ensures SameElsewhere(media, r, disk, lba, |data|) && SizeOf(r, disk) == SizeOf(media, disk)
  {
    if data == [] then media else media[disk := PutRun(media[disk], lba, data)]
  }

  ghost function PutRun(s: seq<Sector>, lba: nat, data: seq<Sector>): (r: seq<Sector>)
    requires lba + |data| <= |s|
    ensures |r| == |s|
  {
    s[..lba] + data + s[lba + |data|..]
  }

  lemma SetRunStep(media: Media, disk: Disk, lba: nat, data: seq<Sector>, k: nat)
    requires lba + |data| <= SizeOf(media, disk) && k < |data|
    ensures SetRun(media, disk, lba, data[..k + 1]) == SetSector(SetRun(media, disk, lba, data[..k]), disk, lba + k, data[k])
  {
    var a := SetRun(media, disk, lba, data[..k + 1]);
    var b := SetSector(SetRun(media, disk, lba, data[..k]), disk, lba + k, data[k]);
    assert a[disk] == b[disk];
    assert a.Keys == b.Keys;
  }

  /** A page's data with the sector that lies in it replaced. */
  function Patched(page: Page, offset: nat, value: Sector): Page {
    if page.data.Some? && offset < |page.data.value|
    then
      var data: seq<Sector> := page.data.value[offset := value];
      page.(data := Some(data))
    else page
  }

  /** Writing a sector leaves every page sound except the one that holds it. */
  lemma OtherPageOk(media: Media, disk: Disk, lba: nat, value: Sector, s: nat, page: Page)
    requires lba < SizeOf(media, disk) && PageOk(media, s, page)
    requires !Holds(page, disk, lba / MAX_RUN)
    ensures PageOk(SetSector(media, disk, lba, value), s, page)
  {
    hide SetOf;
    if page.data.Some? && page.disk == disk {
      var first := MAX_RUN * page.number;
      assert media[disk][lba := value][first..first + MAX_RUN] == media[disk][first..first + MAX_RUN];
    }
  }

  lemma PatchedOk(media: Media, disk: Disk, lba: nat, value: Sector, s: nat, page: Page)
    requires lba < SizeOf(media, disk) && PageOk(media, s, page) && Holds(page, disk, lba / MAX_RUN)
    ensures PageOk(SetSector(media, disk, lba, value), s, Patched(page, lba % MAX_RUN, value))
  {
    hide SetOf;
    var first := MAX_RUN * page.number;
    assert media[disk][lba := value][first..first + MAX_RUN]
        == media[disk][first..first + MAX_RUN][lba % MAX_RUN := value];
  }

  /** Writing a sector that is not cached. */
  lemma UncachedOk(media: Media, pages: Pages, resident: nat, disk: Disk, lba: nat, value: Sector)
    requires CacheOk(media, pages, resident) && Shaped(pages) && lba < SizeOf(media, disk)
    requires forall w :: 0 <= w < WAYS ==> !Holds(pages[SetOf(disk, lba / MAX_RUN)][w], disk, lba / MAX_RUN)
    ensures CacheOk(SetSector(media, disk, lba, value), pages, resident)
  {
    hide SetSector, Once, Filled;
    forall s, w | 0 <= s < SETS && 0 <= w < WAYS ensures PageOk(SetSector(media, disk, lba, value), s, pages[s][w]) {
      assert PageOk(media, s, pages[s][w]);
      OtherPageOk(media, disk, lba, value, s, pages[s][w]);
    }
  }

  /** Writing a sector that is cached, together with its copy. */
  lemma CachedOk(media: Media, pages: Pages, resident: nat, disk: Disk, lba: nat, value: Sector, s: nat, w: nat)
    requires CacheOk(media, pages, resident) && Shaped(pages) && lba < SizeOf(media, disk)
    requires s < SETS && w < WAYS && Holds(pages[s][w], disk, lba / MAX_RUN)
    ensures CacheOk(SetSector(media, disk, lba, value), Put(pages, s, w, Patched(pages[s][w], lba % MAX_RUN, value)), resident)
  {
    hide SetSector, Filled, Patched, SetOf;
    var page := Patched(pages[s][w], lba % MAX_RUN, value);
    var media' := SetSector(media, disk, lba, value);
    var pages' := Put(pages, s, w, page);
    PatchedSame(pages[s][w], lba % MAX_RUN, value);
    forall t, v | 0 <= t < SETS && 0 <= v < WAYS ensures PageOk(media', t, pages'[t][v]) {
      assert PageOk(media, t, pages[t][v]);
      if t == s && v == w {
        PatchedOk(media, disk, lba, value, s, pages[s][w]);
      } else {
        HoldsOnce(media, pages, resident, s, w, t, v, disk, lba / MAX_RUN);
        OtherPageOk(media, disk, lba, value, t, pages[t][v]);
      }
    }
    PatchedFilled(pages, s, w, page);
  }

  lemma PatchedSame(page: Page, offset: nat, value: Sector)
    ensures var p := Patched(page, offset, value);
            p.disk == page.disk && p.number == page.number && (p.data.Some? <==> page.data.Some?)
  {
  }

  lemma PatchedFilled(pages: Pages, s: nat, w: nat, page: Page)
    requires Shaped(pages) && s < SETS && w < WAYS && (page.data.Some? <==> pages[s][w].data.Some?)
    ensures Shaped(Put(pages, s, w, page)) && Filled(Put(pages, s, w, page)) == Filled(pages)
  {
  }

  lemma HoldsOnce(media: Media, pages: Pages, resident: nat, s: nat, w: nat, t: nat, v: nat, disk: Disk, number: nat)
    requires CacheOk(media, pages, resident) && Shaped(pages)
    requires s < SETS && w < WAYS && t < SETS && v < WAYS && (s, w) != (t, v)
    requires Holds(pages[s][w], disk, number)
    ensures !Holds(pages[t][v], disk, number)
  {
    hide Once, Filled, SetOf, Run;
    if t == s {
      OnlyWay(media, pages, resident, s, w, v, disk, number);
    } else {
      assert PageOk(media, s, pages[s][w]);
      assert PageOk(media, t, pages[t][v]);
    }
  }

  /** A change of the media that no cached page overlaps. */
  lemma ElsewhereOk(media: Media, pages: Pages, resident: nat, media': Media, disk: Disk, lba: nat, count: nat)
    requires CacheOk(media, pages, resident) && Shaped(pages) && SameElsewhere(media, media', disk, lba, count)
    requires forall s, w, n: nat :: 0 <= s < SETS && 0 <= w < WAYS && Holds(pages[s][w], disk, n) ==>
               MAX_RUN * n + MAX_RUN <= lba || lba + count <= MAX_RUN * n
    ensures CacheOk(media', pages, resident)
  {
    hide Once, Filled, SetOf;
    forall s, w | 0 <= s < SETS && 0 <= w < WAYS ensures PageOk(media', s, pages[s][w]) {
      var page := pages[s][w];
      assert PageOk(media, s, page);
      if page.data.Some? {
        assert Holds(pages[s][w], page.disk, page.number);
        var first := MAX_RUN * page.number;
        assert Run(media', page.disk, first, MAX_RUN) == Run(media, page.disk, first, MAX_RUN);
      }
    }
  }

  class Cache {
    var media: Media
    var pages: Pages
    var clock: nat
    var resident: nat
    var limit: nat
    /** The page last missed on each disk. */
    var lastMiss: seq<nat>
    var readaheads: nat
    var reclaimed: nat
    /** Where the last command on each disk ended, and all commands so far. */
    var heads: seq<nat>
    ghost var commands: seq<Command>

    ghost predicate Located()
      reads this
    {
      heads == HeadsAfter(commands)
    }

    ghost predicate Coherent()
      reads this
    {
      CacheOk(media, pages, resident) && |lastMiss| == DISKS && Located() && Aged(pages, clock)
    }

    /** Commands on sectors that exist never fail. */
    const reliable: bool

    /** There is memory to keep pages in. */
    var calm: bool

    constructor (contents: Media, noFaults: bool)
      ensures Coherent() && media == contents && resident == 0 && reliable == noFaults
    {
      media := contents;
      reliable := noFaults;
      pages := seq(SETS, _ => seq(WAYS, _ => EMPTY_PAGE));
      clock, resident, limit, readaheads, reclaimed := 0, 0, CACHE_PAGES, 0, 0;
      lastMiss, calm := seq(DISKS, _ => 0xffff_ffff_ffff_ffff), true;
      heads, commands := seq(DISKS, _ => 0), [];
    }

    /** Where a page is, if it is cached. */
    method FindPage(disk: Disk, number: nat) returns (r: Option<(nat, nat)>)
      requires Shaped(pages)
      ensures r.Some? ==>
        && r.value.0 == SetOf(disk, number) && r.value.1 < WAYS
        && Holds(pages[r.value.0][r.value.1], disk, number)
      ensures r.None? ==> forall w :: 0 <= w < WAYS ==> !Holds(pages[SetOf(disk, number)][w], disk, number)
    {
      hide SetOf, HeadsAfter;
      var s := SetOf(disk, number);
      for w := 0 to WAYS
        invariant forall v :: 0 <= v < w ==> !Holds(pages[s][v], disk, number)
      {
        if Holds(pages[s][w], disk, number) {
          return Some((s, w));
        }
      }
      return None;
    }

    method Tick() returns (stamp: nat)
      modifies this`clock
      ensures stamp == clock == old(clock) + 1
    {
      clock := clock + 1;
      return clock;
    }

    method DropPage(s: nat, w: nat)
      requires Coherent() && s < SETS && w < WAYS
      modifies this`pages, this`resident
      ensures Coherent() && Shaped(pages) && Shaped(old(pages))
      ensures pages == Put(old(pages), s, w, old(pages)[s][w].(data := None))
      ensures old(pages)[s][w].data.Some? ==> resident == old(resident) - 1
    {
      hide CacheOk, Aged, HeadsAfter;
      CacheShape(media, pages, resident);
      if pages[s][w].data.Some? {
        DropOk(media, pages, resident, s, w);
        AgedAt(pages, clock, s, w);
        AgedPut(pages, clock, s, w, pages[s][w].(data := None), clock);
        pages := Put(pages, s, w, pages[s][w].(data := None));
        resident := resident - 1;
        CacheShape(media, pages, resident);
      } else {
        assert pages[s][w].(data := None) == pages[s][w];
        assert pages[s][w := pages[s][w]] == pages[s];
      }
    }

    /** Notes a use of a cached page. */
    method Touch(s: nat, w: nat)
      requires Coherent() && s < SETS && w < WAYS && Shaped(pages) && pages[s][w].data.Some?
      modifies this`pages, this`clock
      ensures Coherent() && Shaped(pages) && pages == Put(old(pages), s, w, old(pages)[s][w].(stamp := clock))
      ensures clock == old(clock) + 1
    {
      hide CacheOk, Aged, HeadsAfter;
      var stamp := Tick();
      AgedPut(pages, old(clock), s, w, pages[s][w].(stamp := clock), clock);
      var page := pages[s][w].(stamp := clock);
      CachePage(media, pages, resident, s, w);
      forall v | 0 <= v < WAYS && v != w ensures !Holds(pages[s][v], page.disk, page.number) {
        OnlyWay(media, pages, resident, s, w, v, page.disk, page.number);
      }
      InsertOk(media, pages, resident, s, w, page);
      pages := Put(pages, s, w, page);
      CacheShape(media, pages, resident);
    }

    /** Caches a page that is not cached yet: in an empty way if the cache may grow, or in place of the oldest of its set. */
    method Insert(disk: Disk, number: nat, data: seq<Sector>)
      requires Coherent() && Shaped(pages)
      requires forall w :: 0 <= w < WAYS ==> !Holds(pages[SetOf(disk, number)][w], disk, number)
      requires MAX_RUN * number + MAX_RUN <= SizeOf(media, disk) && data == Run(media, disk, MAX_RUN * number, MAX_RUN)
      modifies this`pages, this`clock, this`resident
      ensures Coherent()
      ensures Admitted(old(pages), old(resident) < limit, pages, Page(disk, number, Some(data), clock))
    {
      hide CacheOk, SetOf, Run, Aged, HeadsAfter;
      var s := SetOf(disk, number);
      for w := 0 to WAYS
        invariant pages == old(pages) && resident == old(resident) && clock == old(clock)
        invariant forall v :: 0 <= v < w ==> pages[s][v].data.Some?
      {
        if pages[s][w].data.None? {
          if resident >= limit {
            return;
          }
          var stamp := Tick();
          var page := Page(disk, number, Some(data), stamp);
          InsertOk(media, pages, resident, s, w, page);
          AgedPut(pages, old(clock), s, w, page, clock);
          pages := Put(pages, s, w, page);
          resident := resident + 1;
          assert InsertedAt(old(pages), pages, s, w, page);
          return;
        }
      }
      var victim := 0;
      for w := 1 to WAYS
        invariant 0 <= victim < w && forall v :: 0 <= v < w ==> pages[s][victim].stamp <= pages[s][v].stamp
      {
        if pages[s][w].stamp < pages[s][victim].stamp {
          victim := w;
        }
      }
      var stamp := Tick();
      var page := Page(disk, number, Some(data), stamp);
      InsertOk(media, pages, resident, s, victim, page);
      AgedPut(pages, old(clock), s, victim, page, clock);
      pages := Put(pages, s, victim, page);
      assert InsertedAt(old(pages), pages, s, victim, page);
    }

    // ------------------------------------------------------------- the device

    function Size(disk: Disk): nat
      reads this
    {
      if disk in media then |media[disk]| else 0
    }

    /** Notes a command and where it leaves the head of its disk. */
    method Account(disk: Disk, lba: nat, count: nat, write: bool)
      requires Located()
      modifies this`heads, this`commands
      ensures Located() && commands == old(commands) + [Command(disk, lba, count, write)]
    {
      heads := heads[disk.Index() := lba + count];
      commands := commands + [Command(disk, lba, count, write)];
      assert commands[..|commands| - 1] == old(commands);
    }

    /** Reads sectors past the cache. */
    method ReadRun(disk: Disk, lba: nat, count: nat) returns (ok: bool, data: seq<Sector>)
      requires Located()
      modifies this`heads, this`commands
      ensures Located() && commands == old(commands) + [Command(disk, lba, count, false)]
      ensures ok ==> lba + count <= SizeOf(media, disk) && data == Run(media, disk, lba, count)
      ensures reliable && lba + count <= SizeOf(media, disk) ==> ok
    {
      hide HeadsAfter;
      Account(disk, lba, count, false);
      if lba + count > Size(disk) {
        return false, [];
      }
      ok := *;
      ok := ok || reliable;
      data := if count == 0 then [] else media[disk][lba..lba + count];
    }

    /** Writes sectors past the cache; a failed write may leave anything in them. */
    method DeviceWrite(disk: Disk, lba: nat, data: seq<Sector>) returns (ok: bool)
      requires Located()
      modifies this`media, this`heads, this`commands
      ensures Located() && commands == old(commands) + [Command(disk, lba, |data|, true)]
      ensures SameElsewhere(old(media), media, disk, lba, |data|)
      ensures ok ==> lba + |data| <= SizeOf(old(media), disk) && media == SetRun(old(media), disk, lba, data)
      ensures reliable && lba + |data| <= SizeOf(old(media), disk) ==> ok
      ensures lba + |data| > SizeOf(old(media), disk) ==> !ok && media == old(media)
    {
      hide HeadsAfter;
      Account(disk, lba, |data|, true);
      if lba + |data| > Size(disk) {
        return false;
      }
      ok := *;
      ok := ok || reliable;
      if data == [] {
        return;
      }
      var written := data;
      if !ok {
        written :| |written| == |data|;
      }
      ghost var before := media;
      media := media[disk := media[disk][..lba] + written + media[disk][lba + |data|..]];
      assert media == SetRun(before, disk, lba, written);
    }

    // --------------------------------------------------------------- the cache

    /** Drops every page that overlaps the sectors given. */
    method CacheInvalidate(disk: Disk, lba: nat, count: nat, ghost before: Media)
      requires CacheOk(before, pages, resident) && |lastMiss| == DISKS && Located() && Aged(pages, clock)
      requires SameElsewhere(before, media, disk, lba, count)
      modifies this`pages, this`resident
      ensures Coherent() && Shaped(pages)
      ensures forall n: nat :: MAX_RUN * n < lba + count && lba < MAX_RUN * n + MAX_RUN ==> NotCached(pages, disk, n)
      ensures Dropped(old(pages), pages, disk, lba / MAX_RUN, PagesEnd(lba, count))
    {
      hide CacheOk, SetOf, SameElsewhere, Aged, NotCached, HeadsAfter, Dropped;
      var number := lba / MAX_RUN;
      var end := PagesEnd(lba, count);
      CacheShape(before, pages, resident);
      NoneDropped(pages, disk, number);
      while number < end
        invariant lba / MAX_RUN <= number <= end && CacheOk(before, pages, resident) && Shaped(pages) && Aged(pages, clock)
        invariant forall n :: lba / MAX_RUN <= n < number ==> NotCached(pages, disk, n)
        invariant Dropped(old(pages), pages, disk, lba / MAX_RUN, number)
      {
        var found := FindPage(disk, number);
        if found.Some? {
          var (s, w) := found.value;
          DropCached(before, pages, resident, s, w, disk, number);
          OnlyPlace(before, pages, resident, s, w, disk, number);
          DroppedMore(old(pages), pages, disk, lba / MAX_RUN, number, s, w);
          AgedAt(pages, clock, s, w);
          AgedPut(pages, clock, s, w, pages[s][w].(data := None), clock);
          pages := Put(pages, s, w, pages[s][w].(data := None));
          resident := resident - 1;
        } else {
          NotFound(before, pages, resident, disk, number);
          DroppedNone(old(pages), pages, disk, lba / MAX_RUN, number);
        }
        number := number + 1;
      }
      Cleared(before, pages, resident, media, disk, lba, count);
    }

    /** Brings cached copies up to date with the sectors just written. */
    method CacheStore(disk: Disk, lba: nat, data: seq<Sector>, ghost before: Media)
      requires CacheOk(before, pages, resident) && |lastMiss| == DISKS && Located() && Aged(pages, clock)
      requires lba + |data| <= SizeOf(before, disk) && media == SetRun(before, disk, lba, data)
      modifies this`pages, this`clock
      ensures Coherent() && Updated(old(pages), old(clock), pages, disk, lba, |data|)
    {
      hide CacheOk, SetOf, SetRun, SetSector, Patched, Aged, HeadsAfter, Updated, NotCached;
      ghost var written := before;
      CacheShape(before, pages, resident);
      NoneUpdated(pages, clock, disk, lba);
      assert SetRun(before, disk, lba, []) == before by { SetRunNone(before, disk, lba); }
      assert data[..0] == [];
      for index := 0 to |data|
        invariant written == SetRun(before, disk, lba, data[..index]) && CacheOk(written, pages, resident) && Aged(pages, clock)
        invariant clock >= old(clock) && Updated(old(pages), old(clock), pages, disk, lba, index)
      {
        SetRunStep(before, disk, lba, data, index);
        CacheShape(written, pages, resident);
        var sector := lba + index;
        var number := sector / MAX_RUN;
        var found := FindPage(disk, number);
        if found.Some? {
          var (s, w) := found.value;
          var stamp := Tick();
          var page := Patched(pages[s][w], sector % MAX_RUN, data[index]);
          PatchedSame(pages[s][w], sector % MAX_RUN, data[index]);
          CachedOk(written, pages, resident, disk, sector, data[index], s, w);
          Restamped(SetSector(written, disk, sector, data[index]), pages, resident, s, w, page, stamp);
          AgedPut(pages, stamp - 1, s, w, page.(stamp := stamp), stamp);
          OnlyPlace(written, pages, resident, s, w, disk, number);
          UpdatedMore(old(pages), old(clock), pages, disk, lba, index, number, s, w, page.(stamp := stamp));
          pages := Put(pages, s, w, page.(stamp := stamp));
        } else {
          NotFound(written, pages, resident, disk, number);
          UpdatedNone(old(pages), old(clock), pages, disk, lba, index);
          UncachedOk(written, pages, resident, disk, sector, data[index]);
        }
        written := SetSector(written, disk, sector, data[index]);
      }
      assert data[..|data|] == data;
    }

    /** Writes up to eight sectors to the device and keeps or drops their cached copies. */
    method WriteRun(disk: Disk, lba: nat, data: seq<Sector>) returns (ok: bool)
      requires Coherent()
      modifies this`media, this`pages, this`clock, this`resident, this`heads, this`commands
      ensures Coherent() && SameElsewhere(old(media), media, disk, lba, |data|)
      ensures commands == old(commands) + [Command(disk, lba, |data|, true)]
      ensures ok ==> lba + |data| <= SizeOf(old(media), disk) && media == SetRun(old(media), disk, lba, data)
      ensures reliable && lba + |data| <= SizeOf(old(media), disk) ==> ok
      ensures if ok then Updated(old(pages), old(clock), pages, disk, lba, |data|)
              else Dropped(old(pages), pages, disk, lba / MAX_RUN, PagesEnd(lba, |data|))
      ensures lba + |data| > SizeOf(old(media), disk) ==> !ok && media == old(media)
    {
      hide CacheOk, SameElsewhere, SetRun, Aged, HeadsAfter, Updated, Dropped;
      ghost var before := media;
      ok := DeviceWrite(disk, lba, data);
      if ok {
        CacheStore(disk, lba, data, before);
      } else {
        CacheInvalidate(disk, lba, |data|, before);
      }
    }

    /** How many sectors of a page the disk has. */
    function PageSectors(disk: Disk, number: nat): nat
      reads this
    {
      var first := number * MAX_RUN;
      if Size(disk) <= first then 0 else if Size(disk) - first <= MAX_RUN then Size(disk) - first else MAX_RUN
    }

    /** A page missed has come in, the one after it too if pages are read in turn; the miss is noted. */
    ghost predicate Loaded(before: Pages, space: bool, misses: seq<nat>, count: nat, filled: Pages, room: bool,
                           disk: Disk, number: nat)
      reads this
    {
      && Shaped(filled) && MAX_RUN * number + MAX_RUN <= SizeOf(media, disk)
      && disk.Index() < |misses| && lastMiss == misses[disk.Index() := number]
      && (exists stamp :: Admitted(before, space, filled, PageOf(media, disk, number, stamp)))
      && if NextTo(misses[disk.Index()], number)
         then ReadAheadOf(filled, room, count, disk, number + 1)
         else pages == filled && readaheads == count
    }

    /** Reads a whole page into the cache. */
    method ReadThrough(disk: Disk, number: nat)
      returns (ok: bool, page: seq<Sector>, ghost filled: Pages, ghost room: bool)
      requires Coherent() && NotCached(pages, disk, number) && PageSectors(disk, number) == MAX_RUN
      modifies this`pages, this`clock, this`resident, this`lastMiss, this`readaheads, this`heads, this`commands
      ensures Coherent() && (reliable ==> ok) && old(commands) <= commands
      ensures !ok ==> pages == old(pages) && lastMiss == old(lastMiss)
      ensures ok ==>
        && MAX_RUN * number + MAX_RUN <= SizeOf(media, disk) && page == Run(media, disk, MAX_RUN * number, MAX_RUN)
        && Loaded(old(pages), old(resident) < limit, old(lastMiss), old(readaheads), filled, room, disk, number)
    {
      hide CameIn, CacheOk, SetOf, Run, Aged, Admitted, ReadAheadOf, HeadsAfter;
      filled, room := pages, false;
      ok, page := ReadRun(disk, number * MAX_RUN, MAX_RUN);
      if !ok {
        return;
      }
      var previous := lastMiss[disk.Index()];
      lastMiss := lastMiss[disk.Index() := number];
      Insert(disk, number, page);
      filled, room := pages, resident < limit;
      CacheShape(media, pages, resident);
      assert Admitted(old(pages), old(resident) < limit, filled, PageOf(media, disk, number, clock));
      Follows(previous, number);
      if (previous + 1) % 0x1_0000_0000_0000_0000 == number {
        ReadAhead(disk, number + 1);
      }
    }

    /** Reads part of one page, from the cache or through it. */
    method ReadPagePart(disk: Disk, number: nat, within: nat, take: nat)
      returns (ok: bool, data: seq<Sector>, ghost filled: Pages, ghost room: bool)
      requires Coherent() && within + take <= MAX_RUN && take > 0
      modifies this`pages, this`clock, this`resident, this`lastMiss, this`readaheads, this`heads, this`commands
      ensures Coherent()
      ensures ok ==>
        && number * MAX_RUN + within + take <= SizeOf(media, disk)
        && data == Run(media, disk, number * MAX_RUN + within, take)
      ensures reliable && number * MAX_RUN + within + take <= SizeOf(media, disk) ==> ok
      ensures forall s, w :: 0 <= s < SETS && 0 <= w < WAYS && HeldAt(old(pages), s, w, disk, number) ==>
        ok && Renewed(old(pages), old(clock), pages, clock, s, w) && commands == old(commands)
      ensures old(commands) <= commands
      ensures !calm || PageSectors(disk, number) != MAX_RUN || !ok ==>
        (NotCached(old(pages), disk, number) ==> pages == old(pages)) && lastMiss == old(lastMiss)
      ensures calm && PageSectors(disk, number) == MAX_RUN && ok && NotCached(old(pages), disk, number) ==>
        Loaded(old(pages), old(resident) < limit, old(lastMiss), old(readaheads), filled, room, disk, number)
    {
      hide CameIn, CacheOk, SetOf, Run, Aged, Renewed, Loaded, HeadsAfter;
      filled, room := pages, false;
      CacheShape(media, pages, resident);
      var found := FindPage(disk, number);
      if found.Some? {
        var (s, w) := found.value;
        CachePage(media, pages, resident, s, w);
        OnlyPlace(media, pages, resident, s, w, disk, number);
        RenewedBy(pages, clock, s, w);
        data := pages[s][w].data.value[within..within + take];
        PartOfPage(media, disk, number, within, take);
        Touch(s, w);
        NotFree(old(pages), s, w, disk, number);
        return true, data, filled, room;
      }
      NotFound(media, pages, resident, disk, number);
      var sectors := PageSectors(disk, number);
      var first := number * MAX_RUN;
      if sectors == MAX_RUN && calm {
        var page;
        ok, page, filled, room := ReadThrough(disk, number);
        if !ok {
          return false, [], filled, room;
        }
        data := page[within..within + take];
        PartOfPage(media, disk, number, within, take);
        return true, data, filled, room;
      }
      ok, data := ReadRun(disk, first + within, take);
    }

    /** The page has come in, if there is memory, the disk has all of it, it is not here yet and the read does not fail. */
    ghost predicate ReadAheadOf(before: Pages, room: bool, count: nat, disk: Disk, number: nat)
      requires Shaped(before)
      reads this
    {
      var wanted := calm && PageSectors(disk, number) == MAX_RUN && NotCached(before, disk, number);
      && (wanted && reliable ==> readaheads == count + 1)
      && if readaheads == count then pages == before
         else
           && wanted && readaheads == count + 1
           && exists stamp :: Admitted(before, room, pages, PageOf(media, disk, number, stamp))
    }

    lemma CameAhead(before: Pages, room: bool, count: nat, disk: Disk, number: nat, stamp: nat)
      requires Shaped(before) && calm && PageSectors(disk, number) == MAX_RUN && NotCached(before, disk, number)
      requires readaheads == count + 1
      requires Admitted(before, room, pages, Page(disk, number, Some(Run(media, disk, MAX_RUN * number, MAX_RUN)), stamp))
      ensures ReadAheadOf(before, room, count, disk, number)
    {
      hide Admitted, NotCached, Run, HeadsAfter;
      assert Admitted(before, room, pages, PageOf(media, disk, number, stamp));
    }

    /** Loads the next page ahead of a sequential reader. */
    method ReadAhead(disk: Disk, number: nat)
      requires Coherent()
      modifies this`pages, this`clock, this`resident, this`readaheads, this`heads, this`commands
      ensures Coherent() && Shaped(old(pages)) && old(commands) <= commands
      ensures ReadAheadOf(old(pages), old(resident) < limit, old(readaheads), disk, number)
    {
      hide CameIn, CacheOk, SetOf, Aged, Admitted, NotCached, Run, Holds, PageOf, HeadsAfter;
      CacheShape(media, pages, resident);
      if PageSectors(disk, number) != MAX_RUN || !calm {
        return;
      }
      var found := FindPage(disk, number);
      if found.Some? {
        NotFree(pages, found.value.0, found.value.1, disk, number);
        return;
      }
      NotFound(media, pages, resident, disk, number);
      var ok, page := ReadRun(disk, number * MAX_RUN, MAX_RUN);
      if ok {
        Insert(disk, number, page);
        readaheads := readaheads + 1;
        CameAhead(old(pages), old(resident) < limit, old(readaheads), disk, number, clock);
      }
    }

    /** Reads sectors through the cache: what it returns is what the medium holds. */
    method Read(disk: Disk, lba: nat, count: nat) returns (ok: bool, buffer: seq<Sector>)
      requires Coherent()
      modifies this`pages, this`clock, this`resident, this`lastMiss, this`readaheads, this`heads, this`commands
      ensures Coherent() && old(commands) <= commands
      ensures ok && count > 0 ==> lba + count <= SizeOf(media, disk) && buffer == Run(media, disk, lba, count)
      ensures ok && count > 0 ==>
        disk in media && |buffer| == count && forall i :: 0 <= i < count ==> buffer[i] == media[disk][lba + i]
      ensures reliable && lba + count <= SizeOf(media, disk) ==> ok
    {
      hide CacheOk, Run, Aged, HeadsAfter;
      buffer := [];
      var done := 0;
      while done < count
        invariant done <= count && Coherent() && old(commands) <= commands
        invariant done > 0 ==> lba + done <= SizeOf(media, disk) && buffer == Run(media, disk, lba, done)
        invariant done == 0 ==> buffer == []
      {
        var sector := lba + done;
        var number := sector / MAX_RUN;
        var within := sector % MAX_RUN;
        var take := if count - done <= MAX_RUN - within then count - done else MAX_RUN - within;
        var part;
        ghost var filled, room;
        ok, part, filled, room := ReadPagePart(disk, number, within, take);
        if !ok {
          return;
        }
        if done > 0 {
          RunJoin(media, disk, lba, done, take);
        }
        buffer := buffer + part;
        done := done + take;
      }
      if count > 0 {
        RunIs(media, disk, lba, count);
      }
      ok := true;
    }

    /** Writes sectors through to the device. */
    method Write(disk: Disk, lba: nat, data: seq<Sector>) returns (ok: bool)
      requires Coherent()
      modifies this`media, this`pages, this`clock, this`resident, this`heads, this`commands
      ensures Coherent() && SameElsewhere(old(media), media, disk, lba, |data|)
      ensures ok && data != [] ==> lba + |data| <= SizeOf(old(media), disk) && media == SetRun(old(media), disk, lba, data)
      ensures ok && data != [] ==>
        && disk in media && lba + |data| <= |media[disk]|
        && forall i :: 0 <= i < |data| ==> media[disk][lba + i] == data[i]
      ensures reliable && lba + |data| <= SizeOf(old(media), disk) ==> ok
    {
      hide CacheOk, SetRun, SameElsewhere, Aged, HeadsAfter;
      var done := 0;
      ElsewhereSelf(media, disk, lba, |data|);
      SetRunNone(media, disk, 0);
      while done < |data|
        invariant done <= |data| && Coherent() && SameElsewhere(old(media), media, disk, lba, |data|)
        invariant done > 0 ==> lba + done <= SizeOf(old(media), disk) && media == SetRun(old(media), disk, lba, data[..done])
        invariant done == 0 ==> media == old(media)
      {
        var run := if |data| - done <= MAX_RUN then |data| - done else MAX_RUN;
        ghost var middle := media;
        ElsewhereSize(old(media), middle, disk, lba, |data|);
        ok := WriteRun(disk, lba + done, data[done..done + run]);
        ElsewhereJoin(old(media), middle, media, disk, lba, |data|, lba + done, run);
        if !ok {
          return;
        }
        SetRunJoin(old(media), disk, lba, data, done, run);
        done := done + run;
      }
      assert data[..|data|] == data;
      if data != [] {
        SetRunIs(old(media), disk, lba, data);
      }
      ok := true;
    }

    /** Drops every page of a disk. */
    method InvalidateDisk(disk: Disk)
      requires Coherent()
      modifies this`pages, this`resident
      ensures Coherent() && Shaped(pages)
      ensures forall n: nat :: NotCached(pages, disk, n)
      ensures Shaped(old(pages)) && OtherDisksKept(old(pages), pages, disk)
    {
      hide CacheOk, Aged, HeadsAfter;
      CacheShape(media, pages, resident);
      for s := 0 to SETS
        invariant Coherent() && Shaped(pages) && OtherDisksKept(old(pages), pages, disk)
        invariant forall t, v :: 0 <= t < s && 0 <= v < WAYS ==> pages[t][v].disk != disk || pages[t][v].data.None?
      {
        for w := 0 to WAYS
          invariant Coherent() && Shaped(pages) && OtherDisksKept(old(pages), pages, disk)
          invariant forall t, v :: 0 <= t < s && 0 <= v < WAYS ==> pages[t][v].disk != disk || pages[t][v].data.None?
          invariant forall v :: 0 <= v < w ==> pages[s][v].disk != disk || pages[s][v].data.None?
        {
          if pages[s][w].disk == disk {
            DropPage(s, w);
          }
        }
      }
    }

    /** The resident page used longest ago. */
    method Oldest() returns (r: Option<(nat, nat)>)
      requires Shaped(pages)
      ensures r.None? ==> Filled(pages) == {}
      ensures r.Some? ==>
        && r.value.0 < SETS && r.value.1 < WAYS && pages[r.value.0][r.value.1].data.Some?
        && forall t, v :: 0 <= t < SETS && 0 <= v < WAYS && pages[t][v].data.Some? ==>
             pages[r.value.0][r.value.1].stamp <= pages[t][v].stamp
    {
      r := None;
      for s := 0 to SETS
        invariant r.None? ==> forall t, v :: 0 <= t < s && 0 <= v < WAYS ==> pages[t][v].data.None?
        invariant r.Some? ==>
          && r.value.0 < SETS && r.value.1 < WAYS && pages[r.value.0][r.value.1].data.Some?
          && forall t, v :: 0 <= t < s && 0 <= v < WAYS && pages[t][v].data.Some? ==>
               pages[r.value.0][r.value.1].stamp <= pages[t][v].stamp
      {
        for w := 0 to WAYS
          invariant r.None? ==> forall t, v :: 0 <= t < s && 0 <= v < WAYS ==> pages[t][v].data.None?
          invariant r.None? ==> forall v :: 0 <= v < w ==> pages[s][v].data.None?
          invariant r.Some? ==>
            && r.value.0 < SETS && r.value.1 < WAYS && pages[r.value.0][r.value.1].data.Some?
            && (forall t, v :: 0 <= t < s && 0 <= v < WAYS && pages[t][v].data.Some? ==>
                  pages[r.value.0][r.value.1].stamp <= pages[t][v].stamp)
            && forall v :: 0 <= v < w && pages[s][v].data.Some? ==> pages[r.value.0][r.value.1].stamp <= pages[s][v].stamp
        {
          if pages[s][w].data.Some? && (r.None? || pages[s][w].stamp < pages[r.value.0][r.value.1].stamp) {
            r := Some((s, w));
          }
        }
      }
    }

    /** Gives cached pages back, least recently used first: as many as asked for, or all. */
    method Reclaim(target: nat) returns (released: nat)
      requires Coherent()
      modifies this`pages, this`resident, this`reclaimed
      ensures Coherent() && resident == old(resident) - released
      ensures released == if target <= old(resident) then target else old(resident)
      ensures OldestGone(old(pages), pages)
    {
      hide CacheOk, OldestGone, Aged, HeadsAfter;
      released := 0;
      OldestNone(pages);
      CacheShape(media, pages, resident);
      while released < target && resident > 0
        invariant released <= target && Coherent() && resident == old(resident) - released
        invariant OldestGone(old(pages), pages)
        decreases resident
      {
        CacheShape(media, pages, resident);
        var oldest := Oldest();
        if oldest.None? {
          break;
        }
        OldestStep(old(pages), pages, oldest.value.0, oldest.value.1);
        DropPage(oldest.value.0, oldest.value.1);
        released := released + 1;
      }
      reclaimed := reclaimed + released;
    }
  }

  lemma SetRunNone(media: Media, disk: Disk, lba: nat)
    requires lba <= SizeOf(media, disk)
    ensures SetRun(media, disk, lba, []) == media
  {
  }

  lemma JoinSectors(s: seq<Sector>, lba: nat, a: seq<Sector>, b: seq<Sector>)
    requires lba + |a| + |b| <= |s|
    ensures PutRun(PutRun(s, lba, a), lba + |a|, b) == PutRun(s, lba, a + b)
  {
  }

  lemma SetRunJoin(media: Media, disk: Disk, lba: nat, data: seq<Sector>, done: nat, run: nat)
    requires done + run <= |data| && lba + done + run <= SizeOf(media, disk)
    ensures SetRun(SetRun(media, disk, lba, data[..done]), disk, lba + done, data[done..done + run])
         == SetRun(media, disk, lba, data[..done + run])
  {
    hide SameElsewhere, PutRun;
    var a, b := data[..done], data[done..done + run];
    assert data[..done + run] == a + b;
    if done == 0 {
      assert a == [] && a + b == b;
    } else if run == 0 {
      assert b == [] && a + b == a;
    } else {
      JoinSectors(media[disk], lba, a, b);
    }
  }

  lemma RunJoin(media: Media, disk: Disk, lba: nat, done: nat, take: nat)
    requires lba + done + take <= SizeOf(media, disk)
    ensures Run(media, disk, lba, done) + Run(media, disk, lba + done, take) == Run(media, disk, lba, done + take)
  {
  }

  lemma EmptyRun(media: Media, disk: Disk, lba: nat)
    requires lba <= SizeOf(media, disk)
    ensures Run(media, disk, lba, 0) == []
  {
  }

  /** The next sector of a run, as the page that holds it has it. */
  lemma RunSector(media: Media, disk: Disk, lba: nat, index: nat)
    requires lba + index < SizeOf(media, disk)
    ensures disk in media && lba + index < |media[disk]|
    ensures Run(media, disk, lba, index + 1) == Run(media, disk, lba, index) + [media[disk][lba + index]]
  {
  }

  /** Every page of another disk is where it was. */
  ghost predicate OtherDisksKept(before: Pages, after: Pages, disk: Disk)
    requires Shaped(before) && Shaped(after)
  {
    forall t, v {:trigger after[t][v]} :: 0 <= t < SETS && 0 <= v < WAYS && before[t][v].disk != disk ==> after[t][v] == before[t][v]
  }

  /** A whole page as the disk has it. */
  ghost function PageOf(media: Media, disk: Disk, number: nat, stamp: nat): Page
    requires MAX_RUN * number + MAX_RUN <= SizeOf(media, disk)
  {
    Page(disk, number, Some(Run(media, disk, MAX_RUN * number, MAX_RUN)), stamp)
  }

  /** The second number follows the first, in 64 bits. */
  predicate NextTo(previous: nat, number: nat) {
    number < 0x1_0000_0000_0000_0000 && (previous + 1 - number) % 0x1_0000_0000_0000_0000 == 0
  }

  lemma Follows(previous: nat, number: nat)
    ensures (previous + 1) % 0x1_0000_0000_0000_0000 == number <==> NextTo(previous, number)
  {
  }

  /** A page has come in, unless its set has an empty way and there is no room for one page more. */
  ghost predicate Admitted(before: Pages, room: bool, after: Pages, page: Page) {
    var s := SetOf(page.disk, page.number);
    Shaped(before) &&
    if room || forall w :: 0 <= w < WAYS ==> before[s][w].data.Some? then CameIn(before, after, s, page) else after == before
  }

  lemma NotFree(pages: Pages, s: nat, w: nat, disk: Disk, number: nat)
    requires Shaped(pages) && s < SETS && w < WAYS && Holds(pages[s][w], disk, number)
    ensures !NotCached(pages, disk, number)
  {
  }

  ghost predicate CameIn(before: Pages, after: Pages, s: nat, page: Page) {
    exists w :: 0 <= w < WAYS && InsertedAt(before, after, s, w, page)
  }

  /** One page has come in: to an empty way, or in place of the one used longest ago in a full set. */
  ghost predicate InsertedAt(before: Pages, after: Pages, s: nat, w: nat, page: Page) {
    && Shaped(before) && s < SETS && w < WAYS && after == Put(before, s, w, page)
    && (before[s][w].data.None?
        || forall v :: 0 <= v < WAYS ==> before[s][v].data.Some? && before[s][w].stamp <= before[s][v].stamp)
  }

  lemma PageSector(media: Media, s: nat, page: Page, sector: nat)
    requires PageOk(media, s, page) && page.data.Some? && page.number == sector / MAX_RUN
    ensures page.disk in media && sector < |media[page.disk]|
    ensures |page.data.value| == MAX_RUN && page.data.value[sector % MAX_RUN] == media[page.disk][sector]
  {
  }

  lemma PartOfPage(media: Media, disk: Disk, number: nat, within: nat, take: nat)
    requires within + take <= MAX_RUN && take > 0 && MAX_RUN * number + MAX_RUN <= SizeOf(media, disk)
    ensures Run(media, disk, MAX_RUN * number, MAX_RUN)[within..within + take]
         == Run(media, disk, number * MAX_RUN + within, take)
  {
    PartOfPart(media[disk], MAX_RUN * number, MAX_RUN, within, take);
  }

  lemma PartOfPart(s: seq<Sector>, first: nat, n: nat, within: nat, take: nat)
    requires first + n <= |s| && within + take <= n
    ensures s[first..first + n][within..within + take] == s[first + within..first + within + take]
  {
    var page, part := s[first..first + n], s[first + within..first + within + take];
    forall i | 0 <= i < take ensures page[within..within + take][i] == part[i] {
    }
  }

  lemma ElsewhereSelf(media: Media, disk: Disk, lba: nat, count: nat)
    ensures SameElsewhere(media, media, disk, lba, count)
  {
  }

  lemma ElsewhereSize(a: Media, b: Media, disk: Disk, lba: nat, count: nat)
    requires SameElsewhere(a, b, disk, lba, count)
    ensures SizeOf(a, disk) == SizeOf(b, disk)
  {
  }

  lemma ElsewhereJoin(a: Media, b: Media, c: Media, disk: Disk, lba: nat, count: nat, at: nat, run: nat)
    requires SameElsewhere(a, b, disk, lba, count) && SameElsewhere(b, c, disk, at, run)
    requires lba <= at && at + run <= lba + count
    ensures SameElsewhere(a, c, disk, lba, count)
  {
  }

  lemma PutPut(pages: Pages, s: nat, w: nat, a: Page, b: Page)
    requires Shaped(pages) && s < SETS && w < WAYS
    ensures Put(Put(pages, s, w, a), s, w, b) == Put(pages, s, w, b)
  {
    var once := pages[s := pages[s][w := a]];
    assert once[s] == pages[s][w := a];
    assert pages[s][w := a][w := b] == pages[s][w := b];
    assert once[s := pages[s][w := b]] == pages[s := pages[s][w := b]];
  }

  ghost predicate HeldAt(pages: Pages, s: nat, w: nat, disk: Disk, number: nat) {
    s < |pages| && w < |pages[s]| && Holds(pages[s][w], disk, number)
  }

  /** One page has been used now, later than any; nothing else of the cache has changed. */
  ghost predicate Renewed(before: Pages, clock: nat, after: Pages, now: nat, s: nat, w: nat) {
    && s < |before| && w < |before[s]| && now == clock + 1
    && after == Put(before, s, w, before[s][w].(stamp := now))
    && forall t, v :: 0 <= t < |after| && 0 <= v < |after[t]| && (t, v) != (s, w) ==> after[t][v].stamp < after[s][w].stamp
  }

  lemma RenewedBy(pages: Pages, clock: nat, s: nat, w: nat)
    requires Aged(pages, clock) && s < |pages| && w < |pages[s]|
    ensures Renewed(pages, clock, Put(pages, s, w, pages[s][w].(stamp := clock + 1)), clock + 1, s, w)
  {
  }

  /** A page is in one place at most. */
  lemma OnlyPlace(media: Media, pages: Pages, resident: nat, s: nat, w: nat, disk: Disk, number: nat)
    requires CacheOk(media, pages, resident) && Shaped(pages) && s < SETS && w < WAYS && Holds(pages[s][w], disk, number)
    ensures forall t, v :: 0 <= t < SETS && 0 <= v < WAYS && HeldAt(pages, t, v, disk, number) ==> t == s && v == w
  {
    hide CacheOk;
    forall t, v | 0 <= t < SETS && 0 <= v < WAYS && (t, v) != (s, w) ensures !Holds(pages[t][v], disk, number) {
      HoldsOnce(media, pages, resident, s, w, t, v, disk, number);
    }
  }

  lemma RunIs(media: Media, disk: Disk, lba: nat, count: nat)
    requires count > 0 && lba + count <= SizeOf(media, disk)
    ensures disk in media && lba + count <= |media[disk]|
    ensures forall i :: 0 <= i < count ==> Run(media, disk, lba, count)[i] == media[disk][lba + i]
  {
  }

  lemma SetRunIs(media: Media, disk: Disk, lba: nat, data: seq<Sector>)
    requires data != [] && lba + |data| <= SizeOf(media, disk)
    ensures var after := SetRun(media, disk, lba, data);
            && disk in after && lba + |data| <= |after[disk]|
            && forall i :: 0 <= i < |data| ==> after[disk][lba + i] == data[i]
  {
  }

  /** The same page with another time of last use. */
  lemma Restamped(media: Media, pages: Pages, resident: nat, s: nat, w: nat, page: Page, stamp: nat)
    requires Shaped(pages) && s < SETS && w < WAYS && page.data.Some? && CacheOk(media, Put(pages, s, w, page), resident)
    ensures CacheOk(media, Put(pages, s, w, page.(stamp := stamp)), resident)
  {
    hide CacheOk;
    var pages' := Put(pages, s, w, page);
    CacheShape(media, pages', resident);
    assert pages'[s][w] == page;
    CachePage(media, pages', resident, s, w);
    forall v | 0 <= v < WAYS && v != w ensures !Holds(pages'[s][v], page.disk, page.number) {
      OnlyWay(media, pages', resident, s, w, v, page.disk, page.number);
    }
    InsertOk(media, pages', resident, s, w, page.(stamp := stamp));
    PutPut(pages, s, w, page, page.(stamp := stamp));
  }

  /** Pages have only been dropped, and none that is left was used before one that is gone. */
  ghost predicate OldestGone(before: Pages, after: Pages) {
    && Shaped(before) && Shaped(after)
    && (forall s, w :: 0 <= s < SETS && 0 <= w < WAYS && after[s][w].data.Some? ==> after[s][w] == before[s][w])
    && (forall s, w, t, v ::
          0 <= s < SETS && 0 <= w < WAYS && 0 <= t < SETS && 0 <= v < WAYS
          && before[s][w].data.Some? && after[s][w].data.None? && after[t][v].data.Some? ==>
            before[s][w].stamp <= after[t][v].stamp)
  }

  lemma OldestNone(pages: Pages)
    ensures Shaped(pages) ==> OldestGone(pages, pages)
  {
  }

  lemma OldestStep(before: Pages, after: Pages, s: nat, w: nat)
    requires OldestGone(before, after) && Shaped(after) && s < SETS && w < WAYS && after[s][w].data.Some?
    requires forall t, v :: 0 <= t < SETS && 0 <= v < WAYS && after[t][v].data.Some? ==> after[s][w].stamp <= after[t][v].stamp
    ensures OldestGone(before, Put(after, s, w, after[s][w].(data := None)))
  {
  }

  /** No way of any set holds the page. */
  ghost predicate NotCached(pages: Pages, disk: Disk, number: nat) {
    Shaped(pages) && forall s, w :: 0 <= s < SETS && 0 <= w < WAYS ==> !Holds(pages[s][w], disk, number)
  }

  lemma NotFound(media: Media, pages: Pages, resident: nat, disk: Disk, number: nat)
    requires CacheOk(media, pages, resident) && Shaped(pages)
    requires forall w :: 0 <= w < WAYS ==> !Holds(pages[SetOf(disk, number)][w], disk, number)
    ensures NotCached(pages, disk, number)
  {
    hide SetOf, Run, Once, Filled;
    forall s, w | 0 <= s < SETS && 0 <= w < WAYS ensures !Holds(pages[s][w], disk, number) {
      assert PageOk(media, s, pages[s][w]);
    }
  }

  /** One past the last page that sectors lie in; no sectors count as one. */
  function PagesEnd(lba: nat, count: nat): (r: nat)
    ensures r > lba / MAX_RUN
  {
    (lba + (if count == 0 then 1 else count) - 1) / MAX_RUN + 1
  }

  /** Of one disk the pages from `from` to `to` are gone, and every other page is as it was. */
  ghost predicate Dropped(before: Pages, after: Pages, disk: Disk, from: nat, to: nat) {
    && Shaped(before) && Shaped(after)
    && forall s, w :: 0 <= s < SETS && 0 <= w < WAYS ==>
         if before[s][w].data.Some? && before[s][w].disk == disk && from <= before[s][w].number < to
         then after[s][w].data.None? else after[s][w] == before[s][w]
  }

  lemma NoneDropped(pages: Pages, disk: Disk, from: nat)
    requires Shaped(pages)
    ensures Dropped(pages, pages, disk, from, from)
  {
  }

  lemma DroppedMore(before: Pages, pages: Pages, disk: Disk, from: nat, number: nat, s: nat, w: nat)
    requires Dropped(before, pages, disk, from, number) && from <= number
    requires s < SETS && w < WAYS && Holds(pages[s][w], disk, number)
    requires forall t, v :: 0 <= t < SETS && 0 <= v < WAYS && HeldAt(pages, t, v, disk, number) ==> t == s && v == w
    ensures Dropped(before, Put(pages, s, w, pages[s][w].(data := None)), disk, from, number + 1)
  {
    forall t, v | 0 <= t < SETS && 0 <= v < WAYS && (t, v) != (s, w) ensures !Holds(pages[t][v], disk, number) {
      assert !HeldAt(pages, t, v, disk, number);
    }
  }

  lemma DroppedNone(before: Pages, pages: Pages, disk: Disk, from: nat, number: nat)
    requires Dropped(before, pages, disk, from, number) && from <= number && NotCached(pages, disk, number)
    ensures Dropped(before, pages, disk, from, number + 1)
  {
    forall s, w | 0 <= s < SETS && 0 <= w < WAYS ensures !Holds(pages[s][w], disk, number) {
    }
  }

  /** The page has some of the sectors in it. */
  predicate Overlaps(number: nat, lba: nat, count: nat) {
    count > 0 && lba / MAX_RUN <= number <= (lba + count - 1) / MAX_RUN
  }

  /** The cached pages that the sectors lie in have been used, and no page has gone or come or changed otherwise. */
  ghost predicate Updated(before: Pages, clock: nat, after: Pages, disk: Disk, lba: nat, count: nat) {
    && Shaped(before) && Shaped(after)
    && forall s, w :: 0 <= s < SETS && 0 <= w < WAYS ==> UpdatedPage(before[s][w], clock, after[s][w], disk, lba, count)
  }

  predicate UpdatedPage(before: Page, clock: nat, after: Page, disk: Disk, lba: nat, count: nat) {
    && after.disk == before.disk && after.number == before.number && (after.data.Some? <==> before.data.Some?)
    && if before.data.Some? && before.disk == disk && Overlaps(before.number, lba, count)
       then after.stamp > clock else after == before
  }

  lemma NoneUpdated(pages: Pages, clock: nat, disk: Disk, lba: nat)
    requires Shaped(pages)
    ensures Updated(pages, clock, pages, disk, lba, 0)
  {
  }

  lemma OverlapsMore(number: nat, lba: nat, count: nat)
    ensures Overlaps(number, lba, count + 1) <==> Overlaps(number, lba, count) || number == (lba + count) / MAX_RUN
  {
  }

  lemma UpdatedMore(before: Pages, clock: nat, pages: Pages, disk: Disk, lba: nat, count: nat, number: nat, s: nat,
                    w: nat, page: Page)
    requires Updated(before, clock, pages, disk, lba, count) && s < SETS && w < WAYS
    requires number == (lba + count) / MAX_RUN
    requires Holds(pages[s][w], disk, number) && page.stamp > clock
    requires page.disk == pages[s][w].disk && page.number == pages[s][w].number && page.data.Some?
    requires forall t, v :: 0 <= t < SETS && 0 <= v < WAYS && HeldAt(pages, t, v, disk, number) ==> t == s && v == w
    ensures Updated(before, clock, Put(pages, s, w, page), disk, lba, count + 1)
  {
    hide Overlaps;
    var pages' := Put(pages, s, w, page);
    forall t, v | 0 <= t < SETS && 0 <= v < WAYS ensures UpdatedPage(before[t][v], clock, pages'[t][v], disk, lba, count + 1) {
      assert UpdatedPage(before[t][v], clock, pages[t][v], disk, lba, count);
      OverlapsMore(before[t][v].number, lba, count);
      if (t, v) != (s, w) {
        assert !HeldAt(pages, t, v, disk, number);
      }
    }
  }

  lemma UpdatedNone(before: Pages, clock: nat, pages: Pages, disk: Disk, lba: nat, count: nat)
    requires Updated(before, clock, pages, disk, lba, count) && NotCached(pages, disk, (lba + count) / MAX_RUN)
    ensures Updated(before, clock, pages, disk, lba, count + 1)
  {
    hide Overlaps;
    forall t, v | 0 <= t < SETS && 0 <= v < WAYS ensures UpdatedPage(before[t][v], clock, pages[t][v], disk, lba, count + 1) {
      assert UpdatedPage(before[t][v], clock, pages[t][v], disk, lba, count);
      assert !Holds(pages[t][v], disk, (lba + count) / MAX_RUN);
      OverlapsMore(before[t][v].number, lba, count);
    }
  }

  lemma Cleared(media: Media, pages: Pages, resident: nat, media': Media, disk: Disk, lba: nat, count: nat)
    requires CacheOk(media, pages, resident) && Shaped(pages) && SameElsewhere(media, media', disk, lba, count)
    requires forall n :: lba / MAX_RUN <= n < PagesEnd(lba, count) ==> NotCached(pages, disk, n)
    ensures CacheOk(media', pages, resident)
    ensures forall n: nat :: MAX_RUN * n < lba + count && lba < MAX_RUN * n + MAX_RUN ==> NotCached(pages, disk, n)
  {
    hide CacheOk, SameElsewhere;
    forall s, w, n: nat | 0 <= s < SETS && 0 <= w < WAYS && Holds(pages[s][w], disk, n)
      ensures MAX_RUN * n + MAX_RUN <= lba || lba + count <= MAX_RUN * n
    {
      assert lba / MAX_RUN <= n < PagesEnd(lba, count) ==> NotCached(pages, disk, n);
    }
    ElsewhereOk(media, pages, resident, media', disk, lba, count);
  }

  lemma DropCached(media: Media, pages: Pages, resident: nat, s: nat, w: nat, disk: Disk, number: nat)
    requires CacheOk(media, pages, resident) && Shaped(pages) && s < SETS && w < WAYS && Holds(pages[s][w], disk, number)
    ensures resident > 0
    ensures var pages' := Put(pages, s, w, pages[s][w].(data := None));
            && CacheOk(media, pages', resident - 1) && Shaped(pages') && NotCached(pages', disk, number)
            && forall n :: NotCached(pages, disk, n) ==> NotCached(pages', disk, n)
  {
    hide CacheOk;
    DropOk(media, pages, resident, s, w);
    var pages' := Put(pages, s, w, pages[s][w].(data := None));
    CacheShape(media, pages', resident - 1);
    forall t, v | 0 <= t < SETS && 0 <= v < WAYS ensures !Holds(pages'[t][v], disk, number) {
      if (t, v) != (s, w) {
        HoldsOnce(media, pages, resident, s, w, t, v, disk, number);
      }
    }
  }
}
