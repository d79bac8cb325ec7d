/** Two writes to one page at once (compcache/ramzswap.c). The lock is taken late: a write tests the flag,
    frees the block, and clears the flags outside it. */
module RamzswapRace {
  import opened Bytes
  import opened Ramzswap

  datatype Request = Request(page: seq<Byte>, mem: Option<nat>)

  predicate Succeeds(w: Request, codec: Codec) {
    codec.compress(w.page).Some? && w.mem.Some?
  }

  predicate StoresItself(w: Request, codec: Codec) {
    Succeeds(w, codec) && |codec.compress(w.page).value| >= PAGE
  }

  // ----- the parts of two writes -----------------------------------------------------------

  /** The store, and what the flag tests of the two writes have found. The one that finishes last is
      `last`, the other one `first`. */
  datatype Race = Race(store: Store, first: bool, last: bool)

  function Saw(r: Race, last: bool): bool {
    if last then r.last else r.first
  }

  /** The four parts of a write: the flag is tested, the block freed if it was up, the flags are cleared,
      and the page is stored under the lock. */
  function Part(r: Race, n: nat, last: bool, i: nat, w: Request, codec: Codec): (t: Race)
    requires i < |r.store.table|
  {
    if n == 0 then
      var found := InUse in r.store.table[i].flags;
      if last then r.(last := found) else r.(first := found)
    else if n == 1 then
      if Saw(r, last) then r.(store := Kfree(r.store, r.store.table[i].pagepos)) else r
    else if n == 2 then r.(store := Cleared(r.store, i))
    else r.(store := Finished(r.store, i, w.page, codec, w.mem))
  }

  /** How many of the first k parts are of the write that finishes first. */
  function PartsOfFirst(order: seq<bool>, k: nat): (n: nat)
    requires k <= |order|
    ensures n <= k
  {
    if k == 0 then 0 else PartsOfFirst(order, k - 1) + if order[k - 1] then 0 else 1
  }

  /** An order of the eight parts; true stands for the write that finishes last. */
  predicate Interleaving(order: seq<bool>) {
    |order| == 8 && order[7] && PartsOfFirst(order, 8) == 4
  }

  /** At some moment the one has done x of its parts, and the other one y. */
  predicate Meet(order: seq<bool>, x: nat, y: nat) {
    x + y <= |order| && PartsOfFirst(order, x + y) == x
  }

  /** Both have tested the flag before either clears it. */
  predicate BothTest(order: seq<bool>) {
    Meet(order, 1, 2) || Meet(order, 2, 1)
  }

  /** What kmalloc returns is no live block then. */
  predicate Leads(r: Race, n: nat, last: bool, i: nat, w: Request, t: Race, codec: Codec) {
    && i < |r.store.table| && t == Part(r, n, last, i, w, codec)
    && (n >= 3 && w.mem.Some? ==> w.mem.value != 0 && w.mem.value !in r.store.heap)
  }

  predicate Follows(races: seq<Race>, order: seq<bool>, i: nat, first: Request, last: Request, codec: Codec, k: nat)
    requires k < |order| && |races| == |order| + 1
  {
    var n := PartsOfFirst(order, k);
    Leads(races[k], if order[k] then k - n else n, order[k], i, if order[k] then last else first, races[k + 1], codec)
  }

  predicate IsRace(races: seq<Race>, order: seq<bool>, i: nat, first: Request, last: Request, codec: Codec) {
    && |races| == |order| + 1
    && forall k :: 0 <= k < |order| ==> Follows(races, order, i, first, last, codec, k)
  }

  lemma {:induction false} PartsGrow(order: seq<bool>, k: nat, m: nat)
    requires k <= m <= |order|
    ensures PartsOfFirst(order, k) <= PartsOfFirst(order, m) <= PartsOfFirst(order, k) + (m - k)
    decreases m
  {
    if k < m {
      PartsGrow(order, k, m - 1);
    }
  }

  /** A live block of the page that its entry does not lead to: exit will not free it. */
  predicate Lost(s: Store, i: nat, a: nat)
    requires i < |s.table|
  {
    && a in s.heap && s.heap[a].owner == i
    && !(InUse in s.table[i].flags && s.table[i].pagepos == a)
  }

  /** A lost block stays: exit frees only what entries in use point at. */
  lemma {:induction false} ExitLeavesTheLost(s: Store, i: nat, a: nat, k: nat)
    requires i < |s.table| && Lost(s, i, a) && k <= |s.table|
    requires forall j :: 0 <= j < |s.table| && j != i && InUse in s.table[j].flags ==> s.table[j].pagepos != a
    ensures a in Freed(s, k).heap
  {
    if k > 0 {
      ExitLeavesTheLost(s, i, a, k - 1);
    }
  }

  // ----- before one of them has finished -----------------------------------------------------

  /** Why a page must have one request at a time: the lock is taken only after the block is freed and
      the flags are cleared. Two writes that both come to free before either clears free twice, exactly
      when there was something to free. */
  lemma OverlappingWritesFreeTwice(d: Disk, i: nat, codec: Codec)
    requires Inv(d, codec) && Idle(d, i)
    ensures Dropped(Dropped(d.store, i), i)
            == Dropped(d.store, i).(bad := InUse in d.store.table[i].flags)
  {
    assert EntryOk(d, i, codec);
    if InUse in d.store.table[i].flags {
      assert BlockOk(d, d.store.table[i].pagepos);
    }
  }

  /** A page whose block has been freed and whose flags have been cleared. */
  predicate Vacant(s: Store, i: nat) {
    && i < |s.table| && s.table[i].flags == {}
    && forall a :: a in s.heap ==> s.heap[a].owner != i
  }

  lemma VacantStays(s: Store, i: nat)
    requires Vacant(s, i)
    ensures Cleared(s, i) == s
  {
    var flags := s.table[i].flags;
    assert flags - {InUse} - {Uncompressed} == flags;
    assert s.table[i := s.table[i]] == s.table;
  }

  function Times(nf: nat, nl: nat): nat {
    (if nf >= 2 then 1 else 0) + if nl >= 2 then 1 else 0
  }

  function DroppedTimes(s: Store, i: nat, n: nat): Store
    requires i < |s.table| && n <= 2
  {
    if n == 0 then s else if n == 1 then Dropped(s, i) else Dropped(Dropped(s, i), i)
  }

  /** Nobody has cleared the flags: whoever has tested them has found what there was at the beginning. */
  predicate Unclear(s: Store, i: nat, r: Race, nf: nat, nl: nat) {
    && i < |s.table| && nf < 3 && nl < 3
    && r.store == DroppedTimes(s, i, Times(nf, nl))
    && (nf >= 1 ==> r.first == (InUse in s.table[i].flags))
    && (nl >= 1 ==> r.last == (InUse in s.table[i].flags))
  }

  /** Somebody has: a write that has tested the flag and still has to free found it up only where both
      tested it before. */
  predicate Clear(s: Store, i: nat, r: Race, nf: nat, nl: nat, both: bool) {
    && i < |s.table| && Vacant(r.store, i) && (nf >= 3 || nl >= 3)
    && var inUse := InUse in s.table[i].flags;
    && (inUse ==> r.store.table[i].pagepos != 0 && r.store.table[i].pagepos !in r.store.heap)
    && (both ==> nf >= 1 && nl >= 1)
    && (r.store.bad <==> inUse && both && Times(nf, nl) == 2)
    && (nf == 1 ==> r.first == (inUse && both))
    && (nl == 1 ==> r.last == (inUse && both))
    && (nl == 0 ==> r.store == Cleared(Dropped(s, i), i))
  }

  predicate Before(s: Store, i: nat, r: Race, nf: nat, nl: nat, both: bool) {
    if nf < 3 && nl < 3 then Unclear(s, i, r, nf, nl) else Clear(s, i, r, nf, nl, both)
  }

  lemma VacantOnce(d: Disk, i: nat, codec: Codec)
    requires Inv(d, codec) && Idle(d, i)
    ensures var t := Cleared(Dropped(d.store, i), i);
            && Vacant(t, i) && !t.bad && t.table[i].pagepos == d.store.table[i].pagepos
            && (InUse in d.store.table[i].flags ==> t.table[i].pagepos != 0 && t.table[i].pagepos !in t.heap)
  {
    assert EntryOk(d, i, codec);
    if InUse in d.store.table[i].flags {
      assert BlockOk(d, d.store.table[i].pagepos);
    }
    DropKeeps(d, i, codec);
    var e := Do(d, Drop(i), codec);
    ClearKeeps(e, i, codec);
    var t := Do(e, Ramzswap.Clear(i), codec);
    assert EntryOk(t, i, codec);
    forall a | a in t.store.heap ensures t.store.heap[a].owner != i {
      assert BlockOk(t, a);
    }
  }

  /** The counts once a write has done its n-th part. */
  function With(last: bool, nf: nat, nl: nat): (nat, nat) {
    if last then (nf, nl + 1) else (nf + 1, nl)
  }

  lemma TestKeeps(s: Store, i: nat, r: Race, nf: nat, nl: nat, both: bool, last: bool, w: Request, codec: Codec)
    requires Before(s, i, r, nf, nl, both) && (if last then nl else nf) == 0 && i < |r.store.table|
    ensures var (nf', nl') := With(last, nf, nl); Before(s, i, Part(r, 0, last, i, w, codec), nf', nl', both)
  {
  }

  lemma FreeKeeps(s: Store, i: nat, r: Race, nf: nat, nl: nat, both: bool, last: bool, w: Request, codec: Codec)
    requires Before(s, i, r, nf, nl, both) && (if last then nl else nf) == 1 && i < |r.store.table|
    ensures var (nf', nl') := With(last, nf, nl); Before(s, i, Part(r, 1, last, i, w, codec), nf', nl', both)
  {
  }

  lemma ClearKeepsUnclear(d: Disk, i: nat, r: Race, nf: nat, nl: nat, both: bool, last: bool, w: Request, codec: Codec)
    requires Inv(d, codec) && Idle(d, i)
    requires Unclear(d.store, i, r, nf, nl) && (if last then nl else nf) == 2 && i < |r.store.table|
    requires both == ((if last then nf else nl) >= 1)
    ensures var (nf', nl') := With(last, nf, nl); Before(d.store, i, Part(r, 2, last, i, w, codec), nf', nl', both)
  {
    VacantOnce(d, i, codec);
    OverlappingWritesFreeTwice(d, i, codec);
  }

  lemma ClearKeepsClear(s: Store, i: nat, r: Race, nf: nat, nl: nat, both: bool, last: bool, w: Request, codec: Codec)
    requires Clear(s, i, r, nf, nl, both) && (if last then nl else nf) == 2 && nf <= 3 && nl <= 3 && i < |r.store.table|
    ensures var (nf', nl') := With(last, nf, nl); Before(s, i, Part(r, 2, last, i, w, codec), nf', nl', both)
  {
    VacantStays(r.store, i);
  }

  /** Where nobody has cleared the flags yet, what both have done tells whether both will have tested. */
  lemma BothAre(order: seq<bool>, k: nat)
    requires Interleaving(order) && k < 8
    requires var n := PartsOfFirst(order, k); n < 3 && k - n < 3 && (if order[k] then k - n else n) == 2
    ensures BothTest(order) <==> (if order[k] then PartsOfFirst(order, k) else k - PartsOfFirst(order, k)) >= 1
  {
    var n := PartsOfFirst(order, k);
    if k == 2 {
      assert PartsOfFirst(order, 3) == n + if order[2] then 0 else 1;
    } else {
      PartsGrow(order, 3, k);
    }
  }

  lemma PartKeeps(d: Disk, i: nat, races: seq<Race>, order: seq<bool>, first: Request, last: Request, k: nat, codec: Codec)
    requires Inv(d, codec) && Idle(d, i) && Interleaving(order) && IsRace(races, order, i, first, last, codec) && k < 8
    requires var n := PartsOfFirst(order, k + 1); n <= 3 && k + 1 - n <= 3
    requires var n := PartsOfFirst(order, k); Before(d.store, i, races[k], n, k - n, BothTest(order))
    ensures var n := PartsOfFirst(order, k + 1); Before(d.store, i, races[k + 1], n, k + 1 - n, BothTest(order))
  {
    assert Follows(races, order, i, first, last, codec, k);
    var who, both, r, nf := order[k], BothTest(order), races[k], PartsOfFirst(order, k);
    var nl, w := k - nf, if who then last else first;
    var n := if who then nl else nf;
    if n == 0 {
      TestKeeps(d.store, i, r, nf, nl, both, who, w, codec);
    } else if n == 1 {
      FreeKeeps(d.store, i, r, nf, nl, both, who, w, codec);
    } else if nf < 3 && nl < 3 {
      BothAre(order, k);
      ClearKeepsUnclear(d, i, r, nf, nl, both, who, w, codec);
    } else {
      ClearKeepsClear(d.store, i, r, nf, nl, both, who, w, codec);
    }
  }

  lemma {:induction false} BeforeTheFirst(d: Disk, i: nat, races: seq<Race>, order: seq<bool>, first: Request, last: Request,
                                          k: nat, codec: Codec)
    requires Inv(d, codec) && Idle(d, i) && Interleaving(order) && IsRace(races, order, i, first, last, codec)
    requires races[0].store == d.store
    requires k <= 8 && PartsOfFirst(order, k) <= 3 && k - PartsOfFirst(order, k) <= 3
    ensures var n := PartsOfFirst(order, k); Before(d.store, i, races[k], n, k - n, BothTest(order))
    decreases k
  {
    if k > 0 {
      PartsGrow(order, k - 1, k);
      BeforeTheFirst(d, i, races, order, first, last, k - 1, codec);
      PartKeeps(d, i, races, order, first, last, k - 1, codec);
    }
  }

  // ----- the end of both -------------------------------------------------------------------

  /** What kmalloc returns is no live block. */
  predicate Allocates(s: Store, w: Request) {
    w.mem.Some? ==> w.mem.value != 0 && w.mem.value !in s.heap
  }

  function Stores(s: Store, i: nat, w: Request, codec: Codec): Store
    requires i < |s.table|
  {
    Finished(s, i, w.page, codec, w.mem)
  }

  /** The stores after a finish on a vacant page, its flags cleared again or not, and another finish. */
  predicate BothFinish(s: Store, i: nat, first: Request, last: Request, again: bool, t: Store, codec: Codec) {
    && Vacant(s, i) && |first.page| == |last.page| == PAGE && Allocates(s, first)
    && var f := Stores(s, i, first, codec);
    && var g := if again then Cleared(f, i) else f;
    && Allocates(g, last) && t == Stores(g, i, last, codec)
  }

  /** The block of the one that finishes first is lost, whatever becomes of the other. */
  lemma FirstBlockIsLost(s: Store, i: nat, first: Request, last: Request, again: bool, t: Store, codec: Codec)
    requires BothFinish(s, i, first, last, again, t, codec)
    ensures t.bad == s.bad && |t.table| == |s.table|
    ensures (exists a :: Lost(t, i, a)) <==> Succeeds(first, codec)
  {
    if Succeeds(first, codec) {
      assert Lost(t, i, first.mem.value);
    }
  }

  /** The page of the one that finishes last is there, or zeros, unless the flag that the first one has
      left says that it is not compressed. */
  lemma LastPageIsRead(s: Store, i: nat, first: Request, last: Request, again: bool, t: Store, codec: Codec)
    requires BothFinish(s, i, first, last, again, t, codec) && Lossless(codec)
    ensures i < |t.table|
    ensures PageAt(t, i, codec) == Some(After(codec, last.page, last.mem)) <==>
            !(!again && StoresItself(first, codec) && Succeeds(last, codec) && !StoresItself(last, codec))
  {
    assert last.page[..PAGE] == last.page;
    if Succeeds(last, codec) {
      var c := codec.compress(last.page).value;
      assert c[..|c|] == c;
    }
  }

  /** What one write leaves of a vacant page. */
  lemma OneFinishes(s: Store, i: nat, w: Request, codec: Codec)
    requires Vacant(s, i) && Lossless(codec) && |w.page| == PAGE && Allocates(s, w)
    ensures var t := Stores(s, i, w, codec);
            && i < |t.table| && t.bad == s.bad && (forall a :: !Lost(t, i, a))
            && PageAt(t, i, codec) == Some(After(codec, w.page, w.mem))
  {
    assert w.page[..PAGE] == w.page;
    if Succeeds(w, codec) {
      var c := codec.compress(w.page).value;
      assert c[..|c|] == c;
    }
  }

  /** The late free of a write that has found the flag up: it takes the block of the one that has just
      finished, or nothing, or, where the old address is still there, is a second free. */
  lemma LateFree(s: Store, i: nat, first: Request, codec: Codec)
    requires Vacant(s, i) && Allocates(s, first) && s.table[i].pagepos != 0 && s.table[i].pagepos !in s.heap
    ensures var f := Stores(s, i, first, codec);
            var g := Cleared(Kfree(f, f.table[i].pagepos), i);
            Vacant(g, i) && (g.bad <==> s.bad || codec.compress(first.page).None?)
  {
    var f := Stores(s, i, first, codec);
    NoOtherFlags(f.table[i].flags);
  }

  /** A whole write, on a page without requests. */
  lemma OneWrite(d: Disk, i: nat, w: Request, codec: Codec) returns (t: Disk)
    requires Inv(d, codec) && Lossless(codec) && Idle(d, i) && |w.page| == PAGE
    requires Allocates(Cleared(Dropped(d.store, i), i), w)
    ensures Inv(t, codec) && Idle(t, i) && t.store == Stores(Cleared(Dropped(d.store, i), i), i, w, codec)
    ensures i < |t.pages| && t.pages[i] == After(codec, w.page, w.mem)
  {
    DropKeeps(d, i, codec);
    var d1 := Do(d, Drop(i), codec);
    ClearKeeps(d1, i, codec);
    var d2 := Do(d1, Ramzswap.Clear(i), codec);
    FinishKeeps(d2, i, w.page, w.mem, codec);
    t := Do(d2, Finish(i, w.page, w.mem), codec);
  }

  lemma FirstFinishes(races: seq<Race>, order: seq<bool>, i: nat, first: Request, last: Request, codec: Codec, k: nat)
    requires IsRace(races, order, i, first, last, codec) && k < |order|
    requires PartsOfFirst(order, k) == 3 && PartsOfFirst(order, k + 1) == 4
    ensures Leads(races[k], 3, false, i, first, races[k + 1], codec)
  {
    assert Follows(races, order, i, first, last, codec, k);
  }

  /** From there on there are only parts of the other one. */
  lemma LastGoesOn(races: seq<Race>, order: seq<bool>, i: nat, first: Request, last: Request, codec: Codec, k: nat)
    requires IsRace(races, order, i, first, last, codec) && Interleaving(order) && 4 <= k < 8
    requires PartsOfFirst(order, k) == 4
    ensures PartsOfFirst(order, k + 1) == 4 && Leads(races[k], k - 4, true, i, last, races[k + 1], codec)
  {
    PartsGrow(order, k + 1, 8);
    assert Follows(races, order, i, first, last, codec, k);
  }

  /** What goes wrong, by the order of the parts. */
  ghost predicate Outcome(s: Store, i: nat, first: Request, last: Request, order: seq<bool>, t: Store, codec: Codec)
    requires i < |s.table|
  {
    var twice := InUse in s.table[i].flags && BothTest(order);
    && i < |t.table|
    && (t.bad <==> twice && !(Meet(order, 4, 1) && codec.compress(first.page).Some?))
    && ((exists a :: Lost(t, i, a)) <==>
        Succeeds(first, codec) && !Meet(order, 4, 0) && !(twice && Meet(order, 4, 1)))
    && (PageAt(t, i, codec) == Some(After(codec, last.page, last.mem)) <==>
        !(Meet(order, 3, 3) && StoresItself(first, codec) && Succeeds(last, codec) && !StoresItself(last, codec)))
  }

  /** The second write of two whole ones. */
  lemma WholeWrites(races: seq<Race>, order: seq<bool>, i: nat, first: Request, last: Request, codec: Codec)
    requires IsRace(races, order, i, first, last, codec) && Interleaving(order) && PartsOfFirst(order, 4) == 4
    ensures i < |races[4].store.table|
    ensures var s := Cleared(Dropped(races[4].store, i), i);
            Allocates(s, last) && races[8].store == Stores(s, i, last, codec)
  {
    LastGoesOn(races, order, i, first, last, codec, 4);
    LastGoesOn(races, order, i, first, last, codec, 5);
    LastGoesOn(races, order, i, first, last, codec, 6);
    LastGoesOn(races, order, i, first, last, codec, 7);
    assert races[6].store == Dropped(races[4].store, i);
  }

  lemma NothingLost(d: Disk, i: nat, codec: Codec)
    requires Inv(d, codec) && Idle(d, i)
    ensures PageAt(d.store, i, codec) == Some(d.pages[i]) && forall a :: !Lost(d.store, i, a)
  {
    assert EntryOk(d, i, codec);
    forall a ensures !Lost(d.store, i, a) {
      if a in d.store.heap {
        assert BlockOk(d, a);
      }
    }
  }

  lemma OneAfterTheOther(d: Disk, i: nat, first: Request, last: Request, order: seq<bool>, races: seq<Race>, codec: Codec)
    requires Inv(d, codec) && Lossless(codec) && Idle(d, i) && |first.page| == |last.page| == PAGE
    requires Interleaving(order) && IsRace(races, order, i, first, last, codec) && races[0].store == d.store
    requires Meet(order, 4, 0)
    ensures Outcome(d.store, i, first, last, order, races[8].store, codec)
  {
    PartsGrow(order, 3, 4);
    PartsGrow(order, 4, 6);
    BeforeTheFirst(d, i, races, order, first, last, 3, codec);
    FirstFinishes(races, order, i, first, last, codec, 3);
    var d1 := OneWrite(d, i, first, codec);
    WholeWrites(races, order, i, first, last, codec);
    var d2 := OneWrite(d1, i, last, codec);
    NothingLost(d2, i, codec);
  }

  /** The other one has cleared the flags too, or does so next. */
  lemma LastHasFreed(d: Disk, i: nat, first: Request, last: Request, order: seq<bool>, races: seq<Race>, codec: Codec)
    requires Inv(d, codec) && Lossless(codec) && Idle(d, i) && |first.page| == |last.page| == PAGE
    requires Interleaving(order) && IsRace(races, order, i, first, last, codec) && races[0].store == d.store
    requires !Meet(order, 4, 1)
    ensures Outcome(d.store, i, first, last, order, races[8].store, codec)
  {
    var k := if Meet(order, 4, 2) then 5 else 6;
    PartsGrow(order, 5, 6);
    PartsGrow(order, 6, 7);
    PartsGrow(order, 4, 5);
    assert PartsOfFirst(order, 7) == 4;
    BeforeTheFirst(d, i, races, order, first, last, k, codec);
    FirstFinishes(races, order, i, first, last, codec, k);
    if k == 5 {
      LastGoesOn(races, order, i, first, last, codec, 6);
    }
    LastGoesOn(races, order, i, first, last, codec, 7);
    FirstBlockIsLost(races[k].store, i, first, last, k == 5, races[8].store, codec);
    LastPageIsRead(races[k].store, i, first, last, k == 5, races[8].store, codec);
  }

  /** The other one has tested the flag, and has still to free. */
  lemma LastHasTested(d: Disk, i: nat, first: Request, last: Request, order: seq<bool>, races: seq<Race>, codec: Codec)
    requires Inv(d, codec) && Lossless(codec) && Idle(d, i) && |first.page| == |last.page| == PAGE
    requires Interleaving(order) && IsRace(races, order, i, first, last, codec) && races[0].store == d.store
    requires Meet(order, 4, 1) && !Meet(order, 4, 0)
    ensures Outcome(d.store, i, first, last, order, races[8].store, codec)
  {
    PartsGrow(order, 4, 5);
    PartsGrow(order, 5, 6);
    BeforeTheFirst(d, i, races, order, first, last, 4, codec);
    FirstFinishes(races, order, i, first, last, codec, 4);
    LastGoesOn(races, order, i, first, last, codec, 5);
    LastGoesOn(races, order, i, first, last, codec, 6);
    LastGoesOn(races, order, i, first, last, codec, 7);
    var s := races[4].store;
    if races[4].last {
      LateFree(s, i, first, codec);
      OneFinishes(races[7].store, i, last, codec);
    } else {
      FirstBlockIsLost(s, i, first, last, true, races[8].store, codec);
      LastPageIsRead(s, i, first, last, true, races[8].store, codec);
    }
  }

  /** Two writes to one page whose parts come in any order, on any disk.
      A block is freed twice exactly when there was one, both tested the flag before either cleared it, and
      the second free did not come only after the first finish, behind a compression that succeeded.
      A block is lost, so that exit does not free it, exactly when the one that finished first succeeded, the
      other one had tested the flag by then, and did not find it up with its free still to come.
      The page is that of the write that finished last, or zeros if it failed, except exactly when both had
      cleared the flags before the first one finished, that one stored its page uncompressed, and the last
      one stores a compressed one, which is then read as if it were not. */
  lemma TwoWritesToOnePage(d: Disk, i: nat, first: Request, last: Request, order: seq<bool>, races: seq<Race>, codec: Codec)
    requires Inv(d, codec) && Lossless(codec) && Idle(d, i) && |first.page| == |last.page| == PAGE
    requires Interleaving(order) && IsRace(races, order, i, first, last, codec) && races[0].store == d.store
    ensures Outcome(d.store, i, first, last, order, races[8].store, codec)
  {
    if Meet(order, 4, 0) {
      OneAfterTheOther(d, i, first, last, order, races, codec);
    } else if Meet(order, 4, 1) {
      LastHasTested(d, i, first, last, order, races, codec);
    } else {
      LastHasFreed(d, i, first, last, order, races, codec);
    }
  }
}
