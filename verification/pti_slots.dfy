/** The PID slots of the transport-stream driver (pti/pti_main.c, lines 160-174 and 965-1092):
    32 slots on the driver's side, a PID table and its length in the memory of the firmware,
    which reads both at any time. */
module PtiSlots {
  const SLOTS := 32
  const SLOT_HANDLE_OFFSET := 20000
  const NO_PID := 0xffff

  // Cells (16 bits) of the firmware's data memory, from its label map.
  const PIDTABLE := 16413         // byte address 32826
  const NUM_PIDS := 16405         // byte address 32810
  const WORDS := 16384

  type U16 = x: int | 0 <= x < 0x1_0000
  type U32 = x: int | 0 <= x < 0x1_0000_0000

  // ----- firmware memory -----------------------------------------------------------------

  /** The memory is made of 32-bit words; a cell with bit 1 of its byte address set is the upper half. */
  function Cell(words: seq<U32>, c: nat): U16
    requires c / 2 < |words|
  {
    if c % 2 == 1 then words[c / 2] / 0x1_0000 else words[c / 2] % 0x1_0000
  }

  /** The first n entries of the PID table. */
  function Table(words: seq<U32>, n: nat): (t: seq<int>)
    requires |words| == WORDS && n <= SLOTS
    ensures |t| == n
  {
    seq(n, i requires 0 <= i < n => Cell(words, PIDTABLE + i))
  }

  predicate LengthOk(words: seq<U32>) {
    |words| == WORDS && Cell(words, NUM_PIDS) <= SLOTS
  }

  /** The PIDs the firmware collects when it looks now. */
  function Visible(words: seq<U32>): set<int>
    requires LengthOk(words)
  {
    set p | p in Table(words, Cell(words, NUM_PIDS))
  }

  /** A byte of the memory, which has the lowest byte of a word first, and two of them as a number. */
  function ByteAt(words: seq<U32>, a: nat): int
    requires a / 4 < |words|
  {
    var shift := if a % 4 == 0 then 1 else if a % 4 == 1 then 0x100 else if a % 4 == 2 then 0x1_0000 else 0x100_0000;
    words[a / 4] / shift % 0x100
  }

  function HalfAt(words: seq<U32>, a: nat): int
    requires a % 2 == 0 && a / 4 < |words|
  {
    ByteAt(words, a) + 0x100 * ByteAt(words, a + 1)
  }

  lemma ThreeParts(h: nat, b: nat, r: nat)
    requires b < 0x100 && r < 0x100
    ensures var w := 0x1_0000 * h + 0x100 * b + r; w % 0x100 == r && w / 0x100 == 0x100 * h + b
  {}

  lemma LowerHalf(w: U32)
    ensures w % 0x1_0000 == w % 0x100 + 0x100 * (w / 0x100 % 0x100)
  {
    var h, m := w / 0x1_0000, w % 0x1_0000;
    var b, r := m / 0x100, m % 0x100;
    ThreeParts(h, b, r);
    assert (0x100 * h + b) % 0x100 == b;
  }

  lemma UpperHalf(w: U32)
    ensures w / 0x1_0000 == w / 0x1_0000 % 0x100 + 0x100 * (w / 0x100_0000 % 0x100)
  {
    var q := w / 0x1_0000;
    assert w / 0x100_0000 == q / 0x100;
  }

  lemma CellInBytes(words: seq<U32>, c: nat)
    requires c / 2 < |words|
    ensures Cell(words, c) == HalfAt(words, 2 * c)
  {
    var a := 2 * c;
    assert a / 4 == (a + 1) / 4 == c / 2 && a % 4 == c % 2 * 2;
    if c % 2 == 0 {
      LowerHalf(words[c / 2]);
    } else {
      UpperHalf(words[c / 2]);
    }
  }

  /** By the addresses of the firmware's label map: the number of PIDs is at 32810, and they are from 32826
      on, two bytes each. */
  predicate Listed(words: seq<U32>, i: nat, p: int)
    requires |words| == WORDS && i < 32
  {
    i < HalfAt(words, 32810) && p == HalfAt(words, 32826 + 2 * i)
  }

  lemma ListedInTable(words: seq<U32>, i: nat, p: int)
    requires LengthOk(words) && i < 32
    ensures Listed(words, i, p) <==> i < Cell(words, NUM_PIDS) && Table(words, Cell(words, NUM_PIDS))[i] == p
  {
    CellInBytes(words, NUM_PIDS);
    CellInBytes(words, PIDTABLE + i);
  }

  /** What the firmware collects is what is listed there. */
  lemma VisibleInBytes(words: seq<U32>, p: int)
    requires LengthOk(words)
    ensures p in Visible(words) <==> exists i: nat :: i < 32 && Listed(words, i, p)
  {
    var n := Cell(words, NUM_PIDS);
    if p in Table(words, n) {
      var i: nat :| i < n && Table(words, n)[i] == p;
      ListedInTable(words, i, p);
    }
    if i: nat :| i < 32 && Listed(words, i, p) {
      ListedInTable(words, i, p);
      assert Table(words, n)[i] in Table(words, n);
    }
  }

  /** The read-modify-write of PtiWrite: one half replaced, the other kept. */
  function Merged(word: U32, upper: bool, value: U16): U32 {
    if upper then word % 0x1_0000 + value * 0x1_0000 else word / 0x1_0000 * 0x1_0000 + value
  }

  function Written(words: seq<U32>, c: nat, value: U16): (words': seq<U32>)
    requires c / 2 < |words|
    ensures |words'| == |words|
  {
    words[c / 2 := Merged(words[c / 2], c % 2 == 1, value)]
  }

  /** Writing a cell changes that cell and no other. */
  lemma WrittenChangesOneCell(words: seq<U32>, c: nat, value: U16, d: nat)
    requires c / 2 < |words| && d / 2 < |words|
    ensures Cell(Written(words, c, value), d) == if d == c then value else Cell(words, d)
  {
  }

  lemma WrittenTable(words: seq<U32>, k: nat, value: U16, n: nat)
    requires |words| == WORDS && k < SLOTS && n <= SLOTS
    ensures Table(Written(words, PIDTABLE + k, value), n) == if k < n then Table(words, n)[k := value] else Table(words, n)
    ensures Cell(Written(words, PIDTABLE + k, value), NUM_PIDS) == Cell(words, NUM_PIDS)
  {
    var words' := Written(words, PIDTABLE + k, value);
    forall i | 0 <= i < n
      ensures Table(words', n)[i] == if i == k then value else Table(words, n)[i]
    {
      WrittenChangesOneCell(words, PIDTABLE + k, value, PIDTABLE + i);
    }
    WrittenChangesOneCell(words, PIDTABLE + k, value, NUM_PIDS);
  }

  lemma WrittenLength(words: seq<U32>, value: U16, n: nat)
    requires |words| == WORDS && n <= SLOTS
    ensures Table(Written(words, NUM_PIDS, value), n) == Table(words, n)
    ensures Cell(Written(words, NUM_PIDS, value), NUM_PIDS) == value
  {
    var words' := Written(words, NUM_PIDS, value);
    forall i | 0 <= i < n
      ensures Table(words', n)[i] == Table(words, n)[i]
    {
      WrittenChangesOneCell(words, NUM_PIDS, value, PIDTABLE + i);
    }
    WrittenChangesOneCell(words, NUM_PIDS, value, NUM_PIDS);
  }

  // ----- the slots -----------------------------------------------------------------------

  datatype Slot = Slot(handle: int, inUse: int, tcIndex: int, pid: U16)

  /** The table cell k belongs to the slot owner[k], and to no other. */
  predicate Owned(slots: seq<Slot>, table: seq<int>, owner: seq<nat>, k: nat)
    requires |slots| == SLOTS && k < |table| == |owner|
  {
    owner[k] < SLOTS && slots[owner[k]].tcIndex == k && slots[owner[k]].pid == table[k]
  }

  predicate SlotOk(slots: seq<Slot>, owner: seq<nat>, i: nat)
    requires |slots| == SLOTS && i < SLOTS
  {
    var s := slots[i];
    && s.handle == SLOT_HANDLE_OFFSET + i
    && (s.inUse == 0 || s.inUse == 1)
    && -1 <= s.tcIndex < |owner|
    && (s.tcIndex >= 0 ==> s.inUse == 1 && s.pid != NO_PID && owner[s.tcIndex] == i)
  }

  /** The slots with a table index and the entries of the table correspond one to one, and every
      entry is its slot's PID. */
  ghost predicate Bijection(slots: seq<Slot>, table: seq<int>, owner: seq<nat>) {
    && |slots| == SLOTS && |table| == |owner| <= SLOTS
    && (forall i :: 0 <= i < SLOTS ==> SlotOk(slots, owner, i))
    && (forall k :: 0 <= k < |table| ==> Owned(slots, table, owner, k))
    && (forall k, l :: 0 <= k < l < |table| ==> table[k] != table[l])
  }

  /** The table as the client sees it: which slot collects which PID. */
  function Pids(slots: seq<Slot>): map<nat, int>
    requires |slots| == SLOTS
  {
    map i: nat | i < SLOTS && slots[i].tcIndex >= 0 :: slots[i].pid
  }

  function InUse(slots: seq<Slot>): set<nat>
    requires |slots| == SLOTS
  {
    set i: nat | i < SLOTS && slots[i].inUse == 1
  }

  // ----- counting ------------------------------------------------------------------------

  lemma {:induction false} SetBound(s: set<nat>, bound: nat)
    requires forall x :: x in s ==> x < bound
    ensures |s| <= bound
    decreases bound
  {
    if bound > 0 {
      SetBound(s - {bound - 1}, bound - 1);
      assert s <= (s - {bound - 1}) + {bound - 1};
    } else {
      assert s == {};
    }
  }

  function Members(s: seq<nat>): (m: set<nat>)
    ensures forall x :: x in m <==> x in s
  {
    if s == [] then {} else Members(s[..|s| - 1]) + {s[|s| - 1]}
  }

  lemma {:induction false} DistinctSize(s: seq<nat>)
    requires forall k, l :: 0 <= k < l < |s| ==> s[k] != s[l]
    ensures |Members(s)| == |s|
    decreases |s|
  {
    if s != [] {
      DistinctSize(s[..|s| - 1]);
    }
  }

  /** A slot without a table index leaves room in the table. */
  lemma RoomForOneMore(slots: seq<Slot>, table: seq<int>, owner: seq<nat>, i: nat)
    requires Bijection(slots, table, owner) && i < SLOTS && slots[i].tcIndex == -1
    ensures |table| < SLOTS
  {
    forall k, l | 0 <= k < l < |owner|
      ensures owner[k] != owner[l]
    {
      assert Owned(slots, table, owner, k) && Owned(slots, table, owner, l);
    }
    DistinctSize(owner);
    forall x | x in Members(owner)
      ensures x < SLOTS && x != i
    {
      var k :| 0 <= k < |owner| && owner[k] == x;
      assert Owned(slots, table, owner, k);
    }
    SetBound(Members(owner) + {i}, SLOTS);
  }

  // ----- set and clear, on values --------------------------------------------------------

  function SlotsAfterSet(slots: seq<Slot>, i: nat, num: nat, pid: U16): seq<Slot>
    requires i < |slots|
  {
    slots[i := slots[i].(pid := pid, tcIndex := num)]
  }

  lemma SetKeeps(slots: seq<Slot>, table: seq<int>, owner: seq<nat>, i: nat, pid: U16)
    requires Bijection(slots, table, owner) && i < SLOTS
    requires slots[i].inUse == 1 && slots[i].tcIndex == -1 && pid != NO_PID && pid !in table
    ensures var slots' := SlotsAfterSet(slots, i, |table|, pid);
            Bijection(slots', table + [pid], owner + [i]) && Pids(slots') == Pids(slots)[i := pid]
  {
    RoomForOneMore(slots, table, owner, i);
    var slots', table', owner' := SlotsAfterSet(slots, i, |table|, pid), table + [pid], owner + [i];
    forall k | 0 <= k < |table'|
      ensures Owned(slots', table', owner', k)
    {
      if k < |table| {
        assert Owned(slots, table, owner, k);
      }
    }
    forall j | 0 <= j < SLOTS
      ensures SlotOk(slots', owner', j)
    {
      assert SlotOk(slots, owner, j);
    }
  }

  /** The caller's duty in full: given a slot in use and a PID not collected yet, the bijection
      survives exactly when the slot has no table index. */
  lemma SetKeepsExactlyWhenFree(slots: seq<Slot>, table: seq<int>, owner: seq<nat>, i: nat, pid: U16)
    requires Bijection(slots, table, owner) && i < SLOTS
    requires slots[i].inUse == 1 && pid != NO_PID && pid !in table
    ensures (exists owner' :: Bijection(SlotsAfterSet(slots, i, |table|, pid), table + [pid], owner')) <==> slots[i].tcIndex == -1
  {
    var slots', table' := SlotsAfterSet(slots, i, |table|, pid), table + [pid];
    if slots[i].tcIndex == -1 {
      SetKeeps(slots, table, owner, i, pid);
    } else {
      assert SlotOk(slots, owner, i);
      var k := slots[i].tcIndex;
      forall j | 0 <= j < SLOTS && slots[j].tcIndex == k
        ensures j == i
      {
        assert SlotOk(slots, owner, j);
      }
      forall owner': seq<nat> | |owner'| == |table'|
        ensures !Owned(slots', table', owner', k)
      {
      }
    }
  }

  function TableAfterClear(table: seq<int>, k: nat): (t: seq<int>)
    requires k < |table|
    ensures |t| == |table| - 1
  {
    table[k := table[|table| - 1]][..|table| - 1]
  }

  /** The slot j of the moved entry takes over the index, the cleared slot i loses its own. */
  function SlotsAfterClear(slots: seq<Slot>, i: nat, j: nat): seq<Slot>
    requires i < |slots| && j < |slots|
  {
    var moved := slots[j := slots[j].(tcIndex := slots[i].tcIndex)];
    moved[i := moved[i].(tcIndex := -1)]
  }

  lemma ClearKeeps(slots: seq<Slot>, table: seq<int>, owner: seq<nat>, i: nat)
    requires Bijection(slots, table, owner) && i < SLOTS && slots[i].tcIndex >= 0
    ensures SlotOk(slots, owner, i) && Owned(slots, table, owner, |table| - 1)
    ensures slots[i].pid == table[slots[i].tcIndex] && slots[i].pid != NO_PID
    ensures forall m :: 0 <= m < SLOTS && m != owner[|table| - 1] ==> slots[m].tcIndex != |table| - 1
    ensures var k, last := slots[i].tcIndex, |table| - 1;
            var j := owner[last];
            var slots' := SlotsAfterClear(slots, i, j);
            && Bijection(slots', TableAfterClear(table, k), owner[k := j][..last])
            && Pids(slots') == Pids(slots) - {i} && InUse(slots') == InUse(slots)
  {
    assert SlotOk(slots, owner, i);
    var k, last := slots[i].tcIndex, |table| - 1;
    assert Owned(slots, table, owner, last) && Owned(slots, table, owner, k);
    var j := owner[last];
    forall m | 0 <= m < SLOTS && m != j
      ensures slots[m].tcIndex != last
    {
      assert SlotOk(slots, owner, m);
    }
    var slots', table', owner' := SlotsAfterClear(slots, i, j), TableAfterClear(table, k), owner[k := j][..last];
    forall m | 0 <= m < |table'|
      ensures Owned(slots', table', owner', m)
    {
      assert Owned(slots, table, owner, m);
    }
    forall m | 0 <= m < SLOTS
      ensures SlotOk(slots', owner', m)
    {
      assert SlotOk(slots, owner, m);
    }
  }

  /** What the firmware collects after the swap, while the length is still the old one, and after
      the length has changed: the old PIDs without the cleared one, both times. */
  lemma SwapShowsNewSet(table: seq<int>, k: nat)
    requires k < |table|
    requires forall m, n :: 0 <= m < n < |table| ==> table[m] != table[n]
    ensures var swapped := table[k := table[|table| - 1]];
            var old', new' := (set p | p in table), (set p | p in TableAfterClear(table, k));
            && new' == old' - {table[k]}
            && (set p | p in swapped) == if k == |table| - 1 then old' else new'
  {
    var last := |table| - 1;
    var swapped, after := table[k := table[last]], TableAfterClear(table, k);
    forall p
      ensures p in after <==> p in table && p != table[k]
    {
      if p in table && p != table[k] {
        var m :| 0 <= m < |table| && table[m] == p;
        assert after[if m == last then k else m] == p;
      }
      if p in after {
        var m :| 0 <= m < |after| && after[m] == p;
        assert p == table[if m == k then last else m];
      }
    }
    forall p
      ensures p in swapped <==> p in after || p == table[last]
    {
      if p in after {
        var m :| 0 <= m < |after| && after[m] == p;
        assert swapped[m] == p;
      }
      if p in swapped {
        var m :| 0 <= m < |swapped| && swapped[m] == p;
        assert m < last ==> after[m] == p;
      }
      assert swapped[last] == table[last];
    }
  }

  /** A firmware scan that runs beside a clear, each entry read before or after the swap: whatever
      the interleaving, it finds every PID that stays and none that was not there. */
  lemma ScanBesideClear(table: seq<int>, k: nat, seen: seq<int>)
    requires k < |table|
    requires forall m, n :: 0 <= m < n < |table| ==> table[m] != table[n]
    requires var swapped := table[k := table[|table| - 1]];
             || (|seen| == |table| && forall m :: 0 <= m < |seen| ==> seen[m] == table[m] || seen[m] == swapped[m])
             || seen == swapped[..|table| - 1]
    ensures (set p | p in table) - {table[k]} <= (set p | p in seen) <= (set p | p in table)
  {
    var last := |table| - 1;
    forall p | p in table && p != table[k]
      ensures p in seen
    {
      var m :| 0 <= m < |table| && table[m] == p;
      assert |seen| == |table| ==> seen[m] == p;
      assert |seen| == last ==> seen[if m == last then k else m] == p;
    }
    forall p | p in seen
      ensures p in table
    {
      var m :| 0 <= m < |seen| && seen[m] == p;
      assert p == table[m] || p == table[last];
    }
  }

  // ----- the driver ----------------------------------------------------------------------

  class SlotTable {
    const vSlots: array<Slot>
    const words: array<U32>           // the firmware's data memory
    var errCount: nat
    ghost var owner: seq<nat>
    ghost var shown: seq<set<int>>    // the PIDs visible after each single write of this call

    ghost predicate Stored()
      reads this, vSlots, words
    {
      words.Length == WORDS && vSlots.Length == SLOTS && LengthOk(words[..])
    }

    ghost function Num(): nat
      requires Stored()
      reads this, vSlots, words
    {
      Cell(words[..], NUM_PIDS)
    }

    ghost function PidTable(): seq<int>
      requires Stored()
      reads this, vSlots, words
    {
      Table(words[..], Num())
    }

    ghost predicate Valid()
      reads this, vSlots, words
    {
      Stored() && Bijection(vSlots[..], PidTable(), owner)
    }

    /** The slots and the table as pti_hal_init leaves them. */
    constructor (memory: array<U32>)
      requires memory.Length == WORDS && Cell(memory[..], NUM_PIDS) == 0
      ensures Valid() && words == memory && fresh(vSlots)
      ensures Pids(vSlots[..]) == map[] && InUse(vSlots[..]) == {}
      ensures vSlots.Length == 32 && forall i :: 0 <= i < 32 ==> vSlots[i] == Slot(20000 + i, 0, -1, 0xffff)
    {
      vSlots := new Slot[SLOTS](i => Slot(SLOT_HANDLE_OFFSET + i, 0, -1, NO_PID));
      words := memory;
      errCount, owner, shown := 0, [], [];
    }

    function ReadCell(c: nat): (value: U16)
      requires c / 2 < words.Length
      reads words
      ensures value == Cell(words[..], c)
    {
      if c % 2 == 1 then words[c / 2] / 0x1_0000 else words[c / 2] % 0x1_0000
    }

    method PtiWrite(c: nat, value: U16)
      requires Stored() && c / 2 < WORDS
      requires c == NUM_PIDS ==> value <= SLOTS
      modifies words, this`shown
      ensures Stored() && words[..] == Written(old(words[..]), c, value)
      ensures var w := old(words[..])[c / 2];
              words[..] == old(words[..])[c / 2 := if c % 2 == 1 then w % 0x1_0000 + value * 0x1_0000
                                                   else w - w % 0x1_0000 + value]
      ensures shown == old(shown) + [Visible(words[..])]
    {
      WrittenChangesOneCell(words[..], c, value, NUM_PIDS);
      words[c / 2] := Merged(words[c / 2], c % 2 == 1, value);
      shown := shown + [Visible(words[..])];
    }

    /** The first slot not in use, with no table index; -1 when all are taken. */
    method GetNewSlotHandle() returns (handle: int)
      requires Valid()
      modifies vSlots
      ensures Valid()
      ensures handle == -1 <==> forall j :: 0 <= j < SLOTS ==> j in old(InUse(vSlots[..]))
      ensures handle == -1 ==> vSlots[..] == old(vSlots[..])
      ensures handle != -1 ==>
        && 20000 <= handle < 20032
        && var i := handle - 20000;
           && i !in old(InUse(vSlots[..])) && (forall j :: 0 <= j < i ==> j in old(InUse(vSlots[..])))
           && InUse(vSlots[..]) == old(InUse(vSlots[..])) + {i}
      ensures Pids(vSlots[..]) == old(Pids(vSlots[..]))
    {
      var i := 0;
      while i < SLOTS
        invariant 0 <= i <= SLOTS
        invariant forall j :: 0 <= j < i ==> vSlots[j].inUse == 1
        invariant vSlots[..] == old(vSlots[..])
      {
        assert SlotOk(vSlots[..], owner, i);
        if vSlots[i].inUse == 0 {
          vSlots[i] := vSlots[i].(inUse := 1, tcIndex := -1);
          handle := vSlots[i].handle;
          UseKeeps(old(vSlots[..]), PidTable(), owner, i);
          return;
        }
        i := i + 1;
      }
      handle := -1;
    }

    /** A PID for a slot in use: 0 exactly when the handle is one of a slot in use and the PID is
        not collected yet. Every single write shows the firmware the old or the new PIDs. */
    method SetPid(handle: int, pid: U16) returns (r: int)
      requires Valid() && pid != NO_PID
      requires forall i :: 0 <= i < SLOTS && vSlots[i].handle == handle ==> vSlots[i].tcIndex == -1
      modifies this, vSlots, words
      ensures Valid()
      ensures r == 0 || r == -1
      ensures r == 0 <==> handle - SLOT_HANDLE_OFFSET in old(InUse(vSlots[..])) && pid !in old(PidTable())
      ensures r == -1 ==> vSlots[..] == old(vSlots[..]) && words[..] == old(words[..])
      ensures r == 0 ==> Pids(vSlots[..]) == old(Pids(vSlots[..]))[handle - SLOT_HANDLE_OFFSET := pid]
      ensures r == 0 ==> Visible(words[..]) == old(Visible(words[..])) + {pid}
      ensures InUse(vSlots[..]) == old(InUse(vSlots[..])) && errCount == old(errCount)
      ensures forall j :: 0 <= j < SLOTS && j != handle - 20000 ==> vSlots[j] == old(vSlots[j])
      ensures forall v :: v in shown ==> v == old(Visible(words[..])) || v == Visible(words[..])
    {
      shown := [];
      var i := 0;
      while i < ReadCell(NUM_PIDS)
        invariant 0 <= i <= Num()
        invariant forall j :: 0 <= j < i ==> PidTable()[j] != pid
      {
        if ReadCell(PIDTABLE + i) == pid {
          assert PidTable()[i] == pid;
          return -1;
        }
        i := i + 1;
      }
      i := 0;
      while i < SLOTS
        invariant 0 <= i <= SLOTS
        invariant forall j :: 0 <= j < i ==> vSlots[j].handle != handle
      {
        assert SlotOk(vSlots[..], owner, i);
        if vSlots[i].handle == handle {
          if vSlots[i].inUse == 1 {
            EnterPid(i, pid);
            return 0;
          } else {
            return -1;
          }
        }
        i := i + 1;
      }
      assert 0 <= handle - SLOT_HANDLE_OFFSET < SLOTS ==> SlotOk(vSlots[..], owner, handle - SLOT_HANDLE_OFFSET);
      return -1;
    }

    method EnterPid(i: nat, pid: U16)
      requires Valid() && pid != NO_PID && pid !in PidTable() && shown == []
      requires i < SLOTS && vSlots[i].inUse == 1 && vSlots[i].tcIndex == -1
      modifies this, vSlots, words
      ensures Valid()
      ensures Pids(vSlots[..]) == old(Pids(vSlots[..]))[i := pid]
      ensures Visible(words[..]) == old(Visible(words[..])) + {pid}
      ensures InUse(vSlots[..]) == old(InUse(vSlots[..])) && errCount == old(errCount)
      ensures forall j :: 0 <= j < SLOTS && j != i ==> vSlots[j] == old(vSlots[j])
      ensures forall v :: v in shown ==> v == old(Visible(words[..])) || v == Visible(words[..])
    {
      ghost var slots0, w0, n := vSlots[..], words[..], Num();
      RoomForOneMore(slots0, PidTable(), owner, i);
      SetKeeps(slots0, PidTable(), owner, i, pid);
      vSlots[i] := vSlots[i].(pid := pid, tcIndex := ReadCell(NUM_PIDS));
      assert vSlots[..] == SlotsAfterSet(slots0, i, n, pid);
      EntryThenLength(w0, n, pid);
      PtiWrite(PIDTABLE + ReadCell(NUM_PIDS), pid);
      PtiWrite(NUM_PIDS, ReadCell(NUM_PIDS) + 1);
      owner := owner + [i];
    }

    /** Takes a slot's PID out of the table: 0 exactly when the slot has one. Every single write
        shows the firmware the old or the new PIDs. */
    method ClearPid(handle: int) returns (r: int)
      requires Valid() && SLOT_HANDLE_OFFSET <= handle < SLOT_HANDLE_OFFSET + SLOTS
      modifies this, vSlots, words
      ensures Valid()
      ensures var i := handle - SLOT_HANDLE_OFFSET;
              && r == (if i in old(Pids(vSlots[..])) then 0 else -1)
              && Pids(vSlots[..]) == old(Pids(vSlots[..])) - {i}
              && Visible(words[..]) == old(Visible(words[..]) - if r == 0 then {vSlots[i].pid} else {})
      ensures r == -1 ==> vSlots[..] == old(vSlots[..]) && words[..] == old(words[..])
      ensures InUse(vSlots[..]) == old(InUse(vSlots[..])) && errCount == if r == 0 then 0 else old(errCount)
      ensures forall j :: 0 <= j < SLOTS ==> vSlots[j] == old(vSlots[j]).(tcIndex := vSlots[j].tcIndex)
      ensures forall v :: v in shown ==> v == old(Visible(words[..])) || v == Visible(words[..])
    {
      shown := [];
      var slot := handle - SLOT_HANDLE_OFFSET;
      assert SlotOk(vSlots[..], owner, slot);
      if vSlots[slot].tcIndex < 0 || vSlots[slot].pid == NO_PID {
        return -1;
      }
      RemoveEntry(slot);
      errCount := 0;
      return 0;
    }

    method RemoveEntry(slot: nat)
      requires Valid() && slot < SLOTS && vSlots[slot].tcIndex >= 0 && shown == []
      modifies this, vSlots, words
      ensures Valid()
      ensures Pids(vSlots[..]) == old(Pids(vSlots[..])) - {slot}
      ensures Visible(words[..]) == old(Visible(words[..]) - {vSlots[slot].pid})
      ensures InUse(vSlots[..]) == old(InUse(vSlots[..]))
      ensures forall j :: 0 <= j < SLOTS ==> vSlots[j] == old(vSlots[j]).(tcIndex := vSlots[j].tcIndex)
      ensures forall v :: v in shown ==> v == old(Visible(words[..])) || v == Visible(words[..])
    {
      ghost var k, last := vSlots[slot].tcIndex, |PidTable()| - 1;
      ClearKeeps(vSlots[..], PidTable(), owner, slot);
      SwapOut(vSlots[slot].tcIndex);
      MoveIndex(slot, owner[last]);
      owner := owner[k := owner[last]][..last];
    }

    /** The two writes: the last entry over the one to be cleared, then the length. */
    method SwapOut(k: nat)
      requires Stored() && k < Num() && shown == []
      requires var t := PidTable(); forall a, b :: 0 <= a < b < |t| ==> t[a] != t[b]
      modifies words, this`shown
      ensures Stored() && PidTable() == TableAfterClear(old(PidTable()), k) && Num() == old(Num()) - 1
      ensures Visible(words[..]) == old(Visible(words[..]) - {PidTable()[k]})
      ensures forall v :: v in shown ==> v == old(Visible(words[..])) || v == Visible(words[..])
    {
      ghost var n := Num();
      assert PidTable() == Table(words[..], n);
      SwapThenLength(words[..], n, k);
      PtiWrite(PIDTABLE + k, ReadCell(PIDTABLE + ReadCell(NUM_PIDS) - 1));
      PtiWrite(NUM_PIDS, ReadCell(NUM_PIDS) - 1);
    }

    /** The slot of the moved entry takes over the index, the cleared one loses its own. */
    method MoveIndex(slot: nat, ghost j: nat)
      requires words.Length == WORDS && vSlots.Length == SLOTS && slot < SLOTS && j < SLOTS
      requires vSlots[j].tcIndex == Cell(words[..], NUM_PIDS)
      requires forall i :: 0 <= i < SLOTS && i != j ==> vSlots[i].tcIndex != vSlots[j].tcIndex
      modifies vSlots
      ensures vSlots[..] == SlotsAfterClear(old(vSlots[..]), slot, j)
    {
      var i := 0;
      while i < SLOTS
        invariant 0 <= i <= j && vSlots[..] == old(vSlots[..])
      {
        if ReadCell(NUM_PIDS) == vSlots[i].tcIndex {
          vSlots[i] := vSlots[i].(tcIndex := vSlots[slot].tcIndex);
          break;
        }
        i := i + 1;
      }
      vSlots[slot] := vSlots[slot].(tcIndex := -1);
    }

    /** Gives a slot back; its PID goes with it. */
    method Free(handle: int) returns (r: int)
      requires Valid() && SLOT_HANDLE_OFFSET <= handle < SLOT_HANDLE_OFFSET + SLOTS
      modifies this, vSlots, words
      ensures Valid() && r == 0 && errCount == 0
      ensures vSlots[handle - 20000] == Slot(handle, 0, -1, 0xFFFF)
      ensures var i := handle - SLOT_HANDLE_OFFSET;
              && Pids(vSlots[..]) == old(Pids(vSlots[..])) - {i}
              && InUse(vSlots[..]) == old(InUse(vSlots[..])) - {i}
              && Visible(words[..])
                 == old(Visible(words[..]) - if i in Pids(vSlots[..]) then {vSlots[i].pid} else {})
    {
      var slot := handle - SLOT_HANDLE_OFFSET;
      assert SlotOk(vSlots[..], owner, slot);
      if vSlots[slot].tcIndex != -1 {
        var _ := ClearPid(handle);
        assert SlotOk(vSlots[..], owner, slot) && slot !in Pids(vSlots[..]);
      }
      FreeKeeps(vSlots[..], PidTable(), owner, slot);
      vSlots[slot] := vSlots[slot].(inUse := 0, pid := NO_PID, tcIndex := -1);
      errCount := 0;
      r := 0;
    }
  }

  lemma FreeKeeps(slots: seq<Slot>, table: seq<int>, owner: seq<nat>, i: nat)
    requires Bijection(slots, table, owner) && i < SLOTS && slots[i].tcIndex == -1
    ensures var slots' := slots[i := slots[i].(inUse := 0, pid := NO_PID, tcIndex := -1)];
            Bijection(slots', table, owner) && Pids(slots') == Pids(slots) && InUse(slots') == InUse(slots) - {i}
  {
    var slots' := slots[i := slots[i].(inUse := 0, pid := NO_PID, tcIndex := -1)];
    assert SlotOk(slots, owner, i);
    forall j | 0 <= j < SLOTS
      ensures SlotOk(slots', owner, j)
    {
      assert SlotOk(slots, owner, j);
    }
    forall k | 0 <= k < |table|
      ensures Owned(slots', table, owner, k)
    {
      assert Owned(slots, table, owner, k);
    }
  }

  /** The two writes of clear_pid: each shows the old PIDs or the old ones without the cleared one. */
  lemma SwapThenLength(words: seq<U32>, n: nat, k: nat)
    requires |words| == WORDS && Cell(words, NUM_PIDS) == n <= SLOTS && k < n
    requires forall a, b :: 0 <= a < b < n ==> Table(words, n)[a] != Table(words, n)[b]
    ensures var table := Table(words, n);
            var w1 := Written(words, PIDTABLE + k, Cell(words, PIDTABLE + n - 1));
            var w2 := Written(w1, NUM_PIDS, n - 1);
            && Cell(w1, NUM_PIDS) == n && Cell(w2, NUM_PIDS) == n - 1
            && Table(w2, n - 1) == TableAfterClear(table, k)
            && (Visible(w1) == Visible(words) || Visible(w1) == Visible(w2))
            && Visible(w2) == Visible(words) - {table[k]}
  {
    var table, moved := Table(words, n), Cell(words, PIDTABLE + n - 1);
    assert moved == table[n - 1];
    var w1 := Written(words, PIDTABLE + k, moved);
    WrittenTable(words, k, moved, n);
    WrittenLength(w1, n - 1, n - 1);
    assert Table(w1, n)[..n - 1] == Table(w1, n - 1);
    SwapShowsNewSet(table, k);
  }

  /** The two writes of set_pid: the first is invisible, the second shows the new PID. */
  lemma EntryThenLength(words: seq<U32>, n: nat, pid: U16)
    requires |words| == WORDS && Cell(words, NUM_PIDS) == n < SLOTS
    ensures var w1 := Written(words, PIDTABLE + n, pid);
            var w2 := Written(w1, NUM_PIDS, n + 1);
            && Cell(w1, NUM_PIDS) == n && Table(w1, n) == Table(words, n) && Visible(w1) == Visible(words)
            && Cell(w2, NUM_PIDS) == n + 1 && Table(w2, n + 1) == Table(words, n) + [pid]
            && Visible(w2) == Visible(words) + {pid}
  {
    var w1 := Written(words, PIDTABLE + n, pid);
    WrittenTable(words, n, pid, n);
    WrittenTable(words, n, pid, n + 1);
    WrittenLength(w1, n + 1, n + 1);
    assert Table(words, n + 1)[..n] == Table(words, n);
  }

  lemma UseKeeps(slots: seq<Slot>, table: seq<int>, owner: seq<nat>, i: nat)
    requires Bijection(slots, table, owner) && i < SLOTS && slots[i].inUse == 0
    ensures var slots' := slots[i := slots[i].(inUse := 1, tcIndex := -1)];
            Bijection(slots', table, owner) && Pids(slots') == Pids(slots) && InUse(slots') == InUse(slots) + {i}
  {
    var slots' := slots[i := slots[i].(inUse := 1, tcIndex := -1)];
    assert SlotOk(slots, owner, i);
    forall j | 0 <= j < SLOTS
      ensures SlotOk(slots', owner, j)
    {
      assert SlotOk(slots, owner, j);
    }
    forall k | 0 <= k < |table|
      ensures Owned(slots', table, owner, k)
    {
      assert Owned(slots, table, owner, k);
    }
  }
}
