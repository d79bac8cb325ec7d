/** The compressed swap disk in RAM (compcache/ramzswap.c): a table with an entry for each page, and
    heap blocks that hold the pages, compressed where that makes them smaller. */
module Ramzswap {
  import opened Bytes

  const PAGE := 4096           // PAGE_SIZE
  const SECTOR := 512
  const SECTORS_PER_PAGE := 8

  datatype Flag = Uncompressed | InUse

  datatype Entry = Entry(pagepos: nat, flags: set<Flag>, size: nat)

  const EMPTY := Entry(0, {}, 0)

  /** A live heap block; the owner, the index of the page it was allocated for, is unknown to the
      heap. */
  datatype Block = Block(owner: nat, bytes: seq<Byte>)

  /** LZO: compression and decompression, either of which can fail. */
  datatype Codec = Codec(compress: seq<Byte> -> Option<seq<Byte>>, decompress: seq<Byte> -> Option<seq<Byte>>)

  ghost predicate Lossless(codec: Codec) {
    forall page :: codec.compress(page).Some? ==> codec.decompress(codec.compress(page).value) == Some(page)
  }

  function Zeros(): (page: seq<Byte>)
    ensures |page| == 4096 && forall k :: 0 <= k < 4096 ==> page[k] == 0
  {
    seq(PAGE, _ => 0)
  }

  // ----- the table and the heap ------------------------------------------------------------

  /** A kfree of what is not a live block makes the state bad for good. */
  datatype Store = Store(table: seq<Entry>, heap: map<nat, Block>, bad: bool)

  function Kfree(s: Store, a: nat): Store {
    if a == 0 then s else if a in s.heap then s.(heap := s.heap - {a}) else s.(bad := true)
  }

  /** The first part of a write: the block stored before is freed. */
  function Dropped(s: Store, i: nat): Store
    requires i < |s.table|
  {
    if InUse in s.table[i].flags then Kfree(s, s.table[i].pagepos) else s
  }

  /** The second part: the flags are cleared. */
  function Cleared(s: Store, i: nat): Store
    requires i < |s.table|
  {
    s.(table := s.table[i := s.table[i].(flags := s.table[i].flags - {InUse} - {Uncompressed})])
  }

  /** What a write stores: the compressed page, or the page itself where that is no longer. */
  function Stored(codec: Codec, page: seq<Byte>): Option<(seq<Byte>, set<Flag>)> {
    match codec.compress(page)
    case None => None
    case Some(c) => if |c| >= PAGE then Some((page, {InUse, Uncompressed})) else Some((c, {InUse}))
  }

  /** The third part, under the lock; mem is what kmalloc returns. */
  function Finished(s: Store, i: nat, page: seq<Byte>, codec: Codec, mem: Option<nat>): Store
    requires i < |s.table|
  {
    match Stored(codec, page)
    case None => Cleared(s, i)
    case Some((bytes, flags)) =>
      if mem.None? then Cleared(s.(table := s.table[i := s.table[i].(pagepos := 0)]), i)
      else s.(table := s.table[i := Entry(mem.value, s.table[i].flags + flags, |bytes|)],
              heap := s.heap[mem.value := Block(i, bytes)])
  }

  /** The page a read delivers; None is an I/O error. */
  function PageAt(s: Store, i: nat, codec: Codec): Option<seq<Byte>>
    requires i < |s.table|
  {
    var entry := s.table[i];
    if InUse !in entry.flags then Some(Zeros())
    else if entry.pagepos !in s.heap then None
    else
      var bytes := s.heap[entry.pagepos].bytes;
      if Uncompressed in entry.flags then if |bytes| < PAGE then None else Some(bytes[..PAGE])
      else if |bytes| < entry.size then None
      else codec.decompress(bytes[..entry.size])
  }

  // ----- requests in progress, and the array of pages --------------------------------------

  /** Writes in progress are between their first and second, or second and third part. */
  datatype Disk = Disk(store: Store, pages: seq<seq<Byte>>, dropped: set<nat>, cleared: set<nat>)

  datatype Event = Drop(i: nat) | Clear(i: nat) | Finish(i: nat, page: seq<Byte>, mem: Option<nat>) | Read(i: nat)

  predicate Idle(d: Disk, i: nat) {
    i < |d.store.table| && i !in d.dropped && i !in d.cleared
  }

  predicate Enabled(d: Disk, e: Event) {
    match e
    case Drop(i) => Idle(d, i)
    case Clear(i) => i in d.dropped && i < |d.store.table|
    case Finish(i, page, mem) =>
      && i in d.cleared && i < |d.store.table| && |page| == PAGE && i < |d.pages|
      && (mem.Some? ==> mem.value != 0 && mem.value !in d.store.heap)
    case Read(i) => Idle(d, i)
  }

  /** A write leaves its page, or zeros if it fails. */
  function After(codec: Codec, page: seq<Byte>, mem: Option<nat>): seq<Byte> {
    if codec.compress(page).Some? && mem.Some? then page else Zeros()
  }

  function Do(d: Disk, e: Event, codec: Codec): Disk
    requires Enabled(d, e)
  {
    match e
    case Drop(i) => d.(store := Dropped(d.store, i), dropped := d.dropped + {i})
    case Clear(i) => d.(store := Cleared(d.store, i), dropped := d.dropped - {i}, cleared := d.cleared + {i})
    case Finish(i, page, mem) =>
      d.(store := Finished(d.store, i, page, codec, mem), cleared := d.cleared - {i},
         pages := d.pages[i := After(codec, page, mem)])
    case Read(i) => d
  }

  predicate Owns(d: Disk, i: nat) {
    i < |d.store.table| && InUse in d.store.table[i].flags && i !in d.dropped
  }

  ghost predicate BlockOk(d: Disk, a: nat)
    requires a in d.store.heap
  {
    var i := d.store.heap[a].owner;
    a != 0 && Owns(d, i) && d.store.table[i].pagepos == a
  }

  ghost predicate EntryOk(d: Disk, i: nat, codec: Codec)
    requires i < |d.store.table| == |d.pages|
  {
    && (Owns(d, i) ==>
          var a := d.store.table[i].pagepos;
          a in d.store.heap && d.store.heap[a].owner == i)
    && (Idle(d, i) ==> PageAt(d.store, i, codec) == Some(d.pages[i]))
    && (i in d.cleared ==> d.store.table[i].flags == {} && i !in d.dropped)
  }

  ghost predicate Inv(d: Disk, codec: Codec) {
    && !d.store.bad && |d.pages| == |d.store.table|
    && (forall a :: a in d.store.heap ==> BlockOk(d, a))
    && (forall i: nat :: i < |d.store.table| ==> EntryOk(d, i, codec))
  }

  lemma DropKeeps(d: Disk, i: nat, codec: Codec)
    requires Inv(d, codec) && Idle(d, i)
    ensures Inv(Do(d, Drop(i), codec), codec)
  {
    var t := Do(d, Drop(i), codec);
    assert EntryOk(d, i, codec);
    forall a | a in t.store.heap ensures BlockOk(t, a) {
      assert BlockOk(d, a);
    }
    forall j: nat | j < |t.store.table| ensures EntryOk(t, j, codec) {
      assert EntryOk(d, j, codec);
    }
  }

  lemma NoOtherFlags(flags: set<Flag>)
    ensures flags - {InUse} - {Uncompressed} == {}
  {
    forall f | f in flags ensures f == InUse || f == Uncompressed {}
  }

  lemma ClearKeeps(d: Disk, i: nat, codec: Codec)
    requires Inv(d, codec) && Enabled(d, Clear(i))
    ensures Inv(Do(d, Clear(i), codec), codec)
  {
    var t := Do(d, Clear(i), codec);
    NoOtherFlags(d.store.table[i].flags);
    forall a | a in t.store.heap ensures BlockOk(t, a) {
      assert BlockOk(d, a);
    }
    forall j: nat | j < |t.store.table| ensures EntryOk(t, j, codec) {
      assert EntryOk(d, j, codec);
    }
  }

  lemma StoredReads(s: Store, i: nat, page: seq<Byte>, codec: Codec, mem: nat)
    requires i < |s.table| && s.table[i].flags == {} && |page| == PAGE && Lossless(codec)
    requires codec.compress(page).Some?
    ensures PageAt(Finished(s, i, page, codec, Some(mem)), i, codec) == Some(page)
  {
    assert page[..PAGE] == page;
    var c := codec.compress(page).value;
    assert c[..|c|] == c;
  }

  lemma FinishKeeps(d: Disk, i: nat, page: seq<Byte>, mem: Option<nat>, codec: Codec)
    requires Inv(d, codec) && Lossless(codec) && Enabled(d, Finish(i, page, mem))
    ensures Inv(Do(d, Finish(i, page, mem), codec), codec)
  {
    var t := Do(d, Finish(i, page, mem), codec);
    assert EntryOk(d, i, codec);
    if codec.compress(page).Some? && mem.Some? {
      StoredReads(d.store, i, page, codec, mem.value);
    }
    forall a | a in t.store.heap ensures BlockOk(t, a) {
      if a in d.store.heap {
        assert BlockOk(d, a);
      }
    }
    forall j: nat | j < |t.store.table| ensures EntryOk(t, j, codec) {
      assert EntryOk(d, j, codec);
    }
  }

  lemma DoKeeps(d: Disk, e: Event, codec: Codec)
    requires Inv(d, codec) && Lossless(codec) && Enabled(d, e)
    ensures Inv(Do(d, e, codec), codec)
  {
    match e {
      case Drop(i) => DropKeeps(d, i, codec);
      case Clear(i) => ClearKeeps(d, i, codec);
      case Finish(i, page, mem) => FinishKeeps(d, i, page, mem, codec);
      case Read(i) =>
    }
  }

  // ----- whole runs ----------------------------------------------------------------------

  /** The disk as ramzswap_init leaves it: the swap header in page 0, in a block of its own. */
  predicate Start(d: Disk, header: seq<Byte>) {
    && |d.store.table| == |d.pages| > 0 && |header| == PAGE && d.dropped == {} && d.cleared == {} && !d.store.bad
    && d.store.table[0].flags == {Uncompressed, InUse} && d.store.table[0].pagepos != 0
    && d.store.heap == map[d.store.table[0].pagepos := Block(0, header)] && d.pages[0] == header
    && forall i :: 1 <= i < |d.pages| ==> d.store.table[i] == EMPTY && d.pages[i] == Zeros()
  }

  lemma StartHolds(d: Disk, header: seq<Byte>, codec: Codec)
    requires Start(d, header)
    ensures Inv(d, codec)
  {
    assert header[..PAGE] == header;
    forall i: nat | i < |d.store.table| ensures EntryOk(d, i, codec) {
      if i > 0 {
        assert d.store.table[i] == EMPTY;
      }
    }
  }

  ghost predicate IsRun(disks: seq<Disk>, events: seq<Event>, header: seq<Byte>, codec: Codec) {
    && |disks| == |events| + 1 && Start(disks[0], header)
    && forall k :: 0 <= k < |events| ==> Follows(disks, events, codec, k)
  }

  ghost predicate Follows(disks: seq<Disk>, events: seq<Event>, codec: Codec, k: nat)
    requires k < |events| && |disks| == |events| + 1
  {
    Enabled(disks[k], events[k]) && disks[k + 1] == Do(disks[k], events[k], codec)
  }

  /** What a page of the disk should hold after some events, said without the disk: what the last write
      to it left, or what it held at the beginning. */
  function Latest(events: seq<Event>, i: nat, header: seq<Byte>, codec: Codec): seq<Byte> {
    if events == [] then
      if i == 0 then header else Zeros()
    else
      var e := events[|events| - 1];
      if e.Finish? && e.i == i then After(codec, e.page, e.mem)
      else Latest(events[..|events| - 1], i, header, codec)
  }

  lemma {:induction false} RunKeeps(disks: seq<Disk>, events: seq<Event>, header: seq<Byte>, codec: Codec, k: nat)
    requires IsRun(disks, events, header, codec) && Lossless(codec) && k <= |events|
    ensures Inv(disks[k], codec) && |disks[k].pages| == |disks[0].pages|
  {
    if k == 0 {
      StartHolds(disks[0], header, codec);
    } else {
      RunKeeps(disks, events, header, codec, k - 1);
      assert Follows(disks, events, codec, k - 1);
      DoKeeps(disks[k - 1], events[k - 1], codec);
    }
  }

  lemma {:induction false} PagesAreLatest(
      disks: seq<Disk>, events: seq<Event>, header: seq<Byte>, codec: Codec, k: nat, i: nat)
    requires IsRun(disks, events, header, codec) && Lossless(codec) && k <= |events| && i < |disks[0].pages|
    ensures i < |disks[k].pages| && disks[k].pages[i] == Latest(events[..k], i, header, codec)
  {
    if k > 0 {
      PagesAreLatest(disks, events, header, codec, k - 1, i);
      RunKeeps(disks, events, header, codec, k - 1);
      assert Follows(disks, events, codec, k - 1);
      assert events[..k][..k - 1] == events[..k - 1];
    }
  }

  /** Over any interleaving of requests, one at a time for each page: a read gives the page that the
      last write to it left, or zeros where there was none or it failed; no block is freed twice; and an
      entry that no write is about to clear is in use exactly when one live block was allocated for its
      page, which is the one it points at. */
  lemma DiskIsAnArrayOfPages(
      disks: seq<Disk>, events: seq<Event>, header: seq<Byte>, codec: Codec, k: nat, i: nat)
    requires IsRun(disks, events, header, codec) && Lossless(codec) && k <= |events| && i < |disks[0].pages|
    ensures var d := disks[k];
            && i < |d.store.table|
            && (Idle(d, i) ==> PageAt(d.store, i, codec) == Some(Latest(events[..k], i, header, codec)))
            && !d.store.bad
            && forall a :: a in d.store.heap && d.store.heap[a].owner == i <==> Owns(d, i) && a == d.store.table[i].pagepos
  {
    RunKeeps(disks, events, header, codec, k);
    PagesAreLatest(disks, events, header, codec, k, i);
    var d := disks[k];
    assert EntryOk(d, i, codec);
    forall a
      ensures a in d.store.heap && d.store.heap[a].owner == i <==> Owns(d, i) && a == d.store.table[i].pagepos
    {
      if a in d.store.heap && d.store.heap[a].owner == i {
        assert BlockOk(d, a);
      }
    }
  }

  // ----- the pages in bytes ----------------------------------------------------------------

  predicate WritesTo(e: Event, i: nat) {
    e.Finish? && e.i == i
  }

  lemma {:induction false} LatestIsWritten(events: seq<Event>, i: nat, header: seq<Byte>, codec: Codec, j: nat)
    requires j < |events| && WritesTo(events[j], i)
    requires forall m :: j < m < |events| ==> !WritesTo(events[m], i)
    ensures Latest(events, i, header, codec) == After(codec, events[j].page, events[j].mem)
    decreases |events|
  {
    if j < |events| - 1 {
      LatestIsWritten(events[..|events| - 1], i, header, codec, j);
    }
  }

  lemma {:induction false} LatestIsFirst(events: seq<Event>, i: nat, header: seq<Byte>, codec: Codec)
    requires forall m :: 0 <= m < |events| ==> !WritesTo(events[m], i)
    ensures Latest(events, i, header, codec) == if i == 0 then header else Zeros()
    decreases |events|
  {
    if events != [] {
      LatestIsFirst(events[..|events| - 1], i, header, codec);
    }
  }

  predicate AllZero(page: Option<seq<Byte>>) {
    page.Some? && |page.value| == 4096 && forall b :: 0 <= b < 4096 ==> page.value[b] == 0
  }

  /** What a read gives in any run, said of the write that was the page's last, the j-th event: its page if it
      could be compressed and there was memory for it, and otherwise 4096 bytes of 0. */
  lemma ReadsWhatWasWritten(disks: seq<Disk>, events: seq<Event>, header: seq<Byte>, codec: Codec, k: nat, i: nat, j: nat)
    requires IsRun(disks, events, header, codec) && Lossless(codec) && k <= |events| && i < |disks[0].pages|
    requires j < k && WritesTo(events[j], i) && forall m :: j < m < k ==> !WritesTo(events[m], i)
    ensures Idle(disks[k], i) ==>
              var page, e := PageAt(disks[k].store, i, codec), events[j];
              if codec.compress(e.page).Some? && e.mem.Some? then page == Some(e.page) else AllZero(page)
  {
    DiskIsAnArrayOfPages(disks, events, header, codec, k, i);
    LatestIsWritten(events[..k], i, header, codec, j);
  }

  /** And of a page never written: 4096 bytes of 0, but for the header in page 0. */
  lemma ReadsZeros(disks: seq<Disk>, events: seq<Event>, header: seq<Byte>, codec: Codec, k: nat, i: nat)
    requires IsRun(disks, events, header, codec) && Lossless(codec) && k <= |events| && i < |disks[0].pages|
    requires forall m :: 0 <= m < k ==> !WritesTo(events[m], i)
    ensures Idle(disks[k], i) ==>
              var page := PageAt(disks[k].store, i, codec);
              if i == 0 then page == Some(header) else AllZero(page)
  {
    DiskIsAnArrayOfPages(disks, events, header, codec, k, i);
    LatestIsFirst(events[..k], i, header, codec);
  }

  // ----- the end -------------------------------------------------------------------------

  /** ramzswap_exit frees the blocks of the entries in use. */
  function Freed(s: Store, k: nat): Store
    requires k <= |s.table|
  {
    if k == 0 then s
    else if InUse in s.table[k - 1].flags then Kfree(Freed(s, k - 1), s.table[k - 1].pagepos)
    else Freed(s, k - 1)
  }

  lemma {:induction false} FreedSoFar(d: Disk, codec: Codec, k: nat)
    requires Inv(d, codec) && d.dropped == {} && k <= |d.store.table|
    ensures var f := Freed(d.store, k);
            && !f.bad && f.table == d.store.table
            && forall a :: a in f.heap <==> a in d.store.heap && d.store.heap[a].owner >= k
  {
    if k > 0 {
      FreedSoFar(d, codec, k - 1);
      assert EntryOk(d, k - 1, codec);
      forall a | a in d.store.heap ensures BlockOk(d, a) {}
    }
  }

  /** With no write in progress, every block is freed, none of them twice. */
  lemma ExitFreesAll(d: Disk, codec: Codec)
    requires Inv(d, codec) && d.dropped == {}
    ensures var f := Freed(d.store, |d.store.table|); f.heap == map[] && !f.bad
  {
    FreedSoFar(d, codec, |d.store.table|);
    var f := Freed(d.store, |d.store.table|);
    forall a ensures a !in f.heap {
      if a in d.store.heap {
        assert BlockOk(d, a);
      }
    }
    assert f.heap.Keys == {};
  }

  // ----- requests ------------------------------------------------------------------------

  datatype Bio = Bio(sector: nat, vcnt: nat, size: nat, offset: nat)

  predicate ValidSwapRequest(b: Bio, disksize: nat) {
    !(|| b.sector >= disksize / SECTOR || b.sector % SECTORS_PER_PAGE != 0
      || b.vcnt != 1 || b.size != PAGE || b.offset != 0)
  }

  /** The valid requests are those for one whole page of the disk, and the index computed for them is
      that page's. */
  lemma ValidRequestsAreWholePages(b: Bio, disksize: nat)
    requires disksize % PAGE == 0
    ensures ValidSwapRequest(b, disksize) <==> exists i: nat :: i < disksize / 4096 && b == Bio(8 * i, 1, 4096, 0)
    ensures ValidSwapRequest(b, disksize) ==>
              b.sector / SECTORS_PER_PAGE < disksize / PAGE && b == Bio(8 * (b.sector / SECTORS_PER_PAGE), 1, 4096, 0)
  {
    assert disksize / SECTOR == SECTORS_PER_PAGE * (disksize / PAGE);
    if ValidSwapRequest(b, disksize) {
      var i := b.sector / SECTORS_PER_PAGE;
      assert b == Bio(8 * i, 1, 4096, 0);
    }
  }

  // ----- the driver ----------------------------------------------------------------------

  class Device {
    const table: array<Entry>
    var heap: map<nat, Block>
    var bad: bool
    const disksize: nat
    const codec: Codec
    ghost var disk: Disk

    ghost predicate Mirrors()
      reads this, table
    {
      && disk.store == Store(table[..], heap, bad) && Lossless(codec)
      && disksize == PAGE * table.Length
    }

    ghost predicate Valid()
      reads this, table
    {
      Mirrors() && Inv(disk, codec) && disk.dropped == {} && disk.cleared == {}
    }

    /** The part of ramzswap_init that concerns the table: kmalloc gave the header's block. */
    constructor (numPages: nat, header: seq<Byte>, block: nat, codec: Codec)
      requires numPages > 0 && |header| == PAGE && block != 0 && Lossless(codec)
      ensures Valid() && Start(disk, header) && |disk.pages| == numPages && fresh(table)
      ensures disksize == 4096 * numPages
    {
      disksize := PAGE * numPages;
      this.codec := codec;
      table := new Entry[numPages](_ => EMPTY);
      heap, bad := map[block := Block(0, header)], false;
      new;
      table[0] := Entry(block, {Uncompressed, InUse}, 0);
      disk := Disk(Store(table[..], heap, bad), seq(numPages, i => if i == 0 then header else Zeros()), {}, {});
      StartHolds(disk, header, codec);
    }

    method TestFlag(index: nat, flag: Flag) returns (up: bool)
      requires index < table.Length
      ensures up == (flag in table[index].flags)
    {
      up := flag in table[index].flags;
    }

    method SetFlag(index: nat, flag: Flag)
      requires index < table.Length
      modifies table
      ensures table[..] == old(table[..])[index := old(table[index]).(flags := old(table[index]).flags + {flag})]
    {
      table[index] := table[index].(flags := table[index].flags + {flag});
    }

    method ClearFlag(index: nat, flag: Flag)
      requires index < table.Length
      modifies table
      ensures table[..] == old(table[..])[index := old(table[index]).(flags := old(table[index]).flags - {flag})]
    {
      table[index] := table[index].(flags := table[index].flags - {flag});
    }

    method FreeBlock(a: nat)
      modifies this`heap, this`bad
      ensures Store(table[..], heap, bad) == Kfree(Store(table[..], old(heap), old(bad)), a)
    {
      if a != 0 {
        if a in heap {
          heap := heap - {a};
        } else {
          bad := true;
        }
      }
    }

    /** The parts of ramzswap_write; mem is what kmalloc is going to return. */
    method DropBlock(index: nat)
      requires Valid() && index < table.Length
      modifies this`heap, this`bad, this`disk
      ensures Mirrors() && Inv(disk, codec) && disk == Do(old(disk), Drop(index), codec)
    {
      DropKeeps(disk, index, codec);
      var inUse := TestFlag(index, InUse);
      if inUse {
        FreeBlock(table[index].pagepos);
      }
      disk := Do(disk, Drop(index), codec);
    }

    method ClearFlags(index: nat)
      requires index < table.Length
      modifies table
      ensures Store(table[..], heap, bad) == Cleared(Store(old(table[..]), heap, bad), index)
    {
      ClearFlag(index, InUse);
      ClearFlag(index, Uncompressed);
    }

    method ClearEntry(index: nat)
      requires Mirrors() && Inv(disk, codec) && Enabled(disk, Clear(index))
      modifies this`disk, table
      ensures Mirrors() && Inv(disk, codec) && disk == Do(old(disk), Clear(index), codec)
    {
      ClearKeeps(disk, index, codec);
      ClearFlags(index);
      disk := Do(disk, Clear(index), codec);
    }

    method StorePage(index: nat, page: seq<Byte>, mem: Option<nat>) returns (ok: bool)
      requires index < table.Length
      requires mem.Some? ==> mem.value !in heap
      modifies this`heap, table
      ensures Store(table[..], heap, bad)
              == Finished(Store(old(table[..]), old(heap), bad), index, page, codec, mem)
      ensures ok == (codec.compress(page).Some? && mem.Some?)
      ensures ok ==>
                var c, entry := codec.compress(page).value, table[index];
                && entry.pagepos == mem.value && mem.value in heap
                && InUse in entry.flags && entry.size == |heap[mem.value].bytes|
                && heap[mem.value].bytes == (if |c| < 4096 then c else page)
                && (|c| >= 4096 ==> Uncompressed in entry.flags)
      ensures !ok ==> table[index].flags == {} && heap == old(heap)
    {
      NoOtherFlags(table[index].flags);
      ghost var flags := table[index].flags;
      assert flags + {Uncompressed} - {InUse} - {Uncompressed} == flags - {InUse} - {Uncompressed};
      assert flags + {Uncompressed} + {InUse} == flags + {InUse, Uncompressed};
      var compressed := codec.compress(page);
      if compressed.None? {
        ClearFlags(index);
        return false;
      }
      var lzopage := compressed.value;
      var incompressible := |lzopage| >= PAGE;
      if incompressible {
        SetFlag(index, Uncompressed);
        lzopage := page;
      }
      table[index] := table[index].(pagepos := if mem.Some? then mem.value else 0);
      if mem.None? {
        ClearFlags(index);
        return false;
      }
      SetFlag(index, InUse);
      table[index] := table[index].(size := |lzopage|);
      heap := heap[mem.value := Block(index, lzopage)];
      ok := true;
    }

    /** ramzswap_write: the page is there afterwards, or, if that failed, zeros. */
    method Write(index: nat, page: seq<Byte>, mem: Option<nat>) returns (ok: bool)
      requires Valid() && index < table.Length && |page| == PAGE
      requires mem.Some? ==> mem.value != 0 && mem.value !in heap
      modifies this`heap, this`bad, this`disk, table
      ensures Valid() && disk.pages == old(disk.pages)[index := if ok then page else Zeros()]
      ensures ok <==> InUse in table[index].flags
      ensures ok <==> codec.compress(page).Some? && mem.Some?
    {
      DropBlock(index);
      ClearEntry(index);
      FinishKeeps(disk, index, page, mem, codec);
      ok := StorePage(index, page, mem);
      disk := Do(disk, Finish(index, page, mem), codec);
    }

    /** ramzswap_read. The error path for a page that does not decompress is never taken. */
    method Read(index: nat) returns (page: Option<seq<Byte>>)
      requires Valid() && index < table.Length
      ensures page == Some(disk.pages[index])
      ensures InUse !in table[index].flags ==> page.Some? && |page.value| == 4096 && forall k :: 0 <= k < 4096 ==> page.value[k] == 0
    {
      assert EntryOk(disk, index, codec);
      var inUse := TestFlag(index, InUse);
      if !inUse {
        return Some(Zeros());                                     // handle_ramzswap_fault
      }
      var entry := table[index];
      var uncompressed := TestFlag(index, Uncompressed);
      if uncompressed {
        page := Some(heap[entry.pagepos].bytes[..PAGE]);
      } else {
        page := codec.decompress(heap[entry.pagepos].bytes[..entry.size]);
      }
    }

    /** ramzswap_make_request; None is an I/O error. A write that succeeds gives its page back. */
    method MakeRequest(b: Bio, write: bool, page: seq<Byte>, mem: Option<nat>) returns (r: Option<seq<Byte>>)
      requires Valid() && |page| == PAGE
      requires mem.Some? ==> mem.value != 0 && mem.value !in heap
      modifies this`heap, this`bad, this`disk, table
      ensures Valid()
      ensures !ValidSwapRequest(b, disksize) ==> r == None && disk == old(disk)
      ensures forall i: nat :: i < disksize / 4096 && b == Bio(8 * i, 1, 4096, 0) ==>
                if write then
                  && (r.Some? <==> codec.compress(page).Some? && mem.Some?)
                  && disk.pages == old(disk.pages)[i := if r.Some? then page else Zeros()]
                else r == Some(old(disk).pages[i]) && disk == old(disk)
    {
      ValidRequestsAreWholePages(b, disksize);
      if b.sector >= disksize / SECTOR || b.sector % SECTORS_PER_PAGE != 0
         || b.vcnt != 1 || b.size != PAGE || b.offset != 0 {
        return None;
      }
      var index := b.sector / SECTORS_PER_PAGE;
      if write {
        var ok := Write(index, page, mem);
        r := if ok then Some(page) else None;
      } else {
        r := Read(index);
      }
    }

    /** ramzswap_exit */
    method Exit()
      requires Valid()
      modifies this`heap, this`bad
      ensures heap == map[] && !bad
    {
      ghost var s := disk.store;
      ExitFreesAll(disk, codec);
      var index := 0;
      while index < table.Length
        invariant index <= table.Length && Store(table[..], heap, bad) == Freed(s, index)
      {
        var inUse := TestFlag(index, InUse);
        if inUse {
          FreeBlock(table[index].pagepos);
        }
        index := index + 1;
      }
    }
  }
}
