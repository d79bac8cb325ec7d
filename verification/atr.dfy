/** The Answer-to-Reset of a smart card (smartcard/atr.c; section 8.2 of ISO/IEC 7816-3:2006):
    parsed from bytes and printed again. */
module Atr {
  import opened Bytes

  const MAX_SIZE := 33
  const MAX_HISTORICAL := 15
  const MAX_PROTOCOLS := 7

  const FS_TABLE: seq<int> :=
    [3570000, 5000000, 6000000, 8000000, 12000000, 16000000, 20000000, 0,
     0, 5000000, 7500000, 10000000, 15000000, 20000000, 0, 0]
  const NUM_IB_TABLE: seq<int> := [0, 1, 1, 2, 1, 2, 2, 3, 1, 2, 2, 3, 2, 3, 3, 4]

  // ----- records -------------------------------------------------------------------------

  /** The interface bytes announced by one presence nibble. */
  datatype Group = Group(ta: Option<Byte>, tb: Option<Byte>, tc: Option<Byte>, td: Option<Byte>)

  datatype Record = Record(ts: Byte, t0: Byte, groups: seq<Group>, historical: seq<Byte>, tck: Option<Byte>)

  /** Which interface bytes are present. */
  datatype Presence = Presence(a: bool, b: bool, c: bool, d: bool)

  /** The upper nibble of T0 and of the TD bytes. */
  function PresenceIn(td: Byte): Presence {
    Presence(td / 16 % 2 == 1, td / 32 % 2 == 1, td / 64 % 2 == 1, td / 128 == 1)
  }

  function PresenceOf(g: Group): Presence {
    Presence(g.ta.Some?, g.tb.Some?, g.tc.Some?, g.td.Some?)
  }

  /** Every group is announced by the byte before it, T0 or the TD of the group before, and the
      last one announces no other. */
  predicate Chained(td: Byte, groups: seq<Group>)
    decreases |groups|
  {
    && groups != []
    && PresenceOf(groups[0]) == PresenceIn(td)
    && if groups[0].td.Some? then Chained(groups[0].td.value, groups[1..]) else |groups| == 1
  }

  /** A check byte follows when the last TD names a protocol other than T=0. */
  predicate TckExpected(groups: seq<Group>) {
    |groups| >= 2 && groups[|groups| - 2].td.Some? && groups[|groups| - 2].td.value % 16 != 0
  }

  /** With a single group, TA1 must name a clock rate and TB1 must not exceed 0x80. */
  predicate FirstGroupOk(groups: seq<Group>) {
    |groups| == 1 ==>
      && (groups[0].ta.Some? ==> FS_TABLE[groups[0].ta.value / 16] != 0)
      && (groups[0].tb.Some? ==> groups[0].tb.value <= 0x80)
  }

  predicate WellFormed(r: Record) {
    && |r.groups| <= MAX_PROTOCOLS
    && Chained(r.t0, r.groups)
    && |r.historical| == r.t0 % 16
    && (r.tck.Some? <==> TckExpected(r.groups))
    && FirstGroupOk(r.groups)
  }

  // ----- printing ------------------------------------------------------------------------

  function One(b: Option<Byte>): seq<Byte> {
    if b.Some? then [b.value] else []
  }

  /** A group printed in front of some bytes. */
  function PrintGroup(g: Group, tail: seq<Byte>): seq<Byte> {
    One(g.ta) + (One(g.tb) + (One(g.tc) + (One(g.td) + tail)))
  }

  function PrintGroups(groups: seq<Group>, tail: seq<Byte>): seq<Byte>
    decreases |groups|
  {
    if groups == [] then tail else PrintGroup(groups[0], PrintGroups(groups[1..], tail))
  }

  /** A record printed in front of some bytes. */
  function PrintOnto(r: Record, tail: seq<Byte>): seq<Byte> {
    [r.ts, r.t0] + PrintGroups(r.groups, r.historical + (One(r.tck) + tail))
  }

  function Print(r: Record): seq<Byte> { PrintOnto(r, []) }

  // ----- parsing, on values --------------------------------------------------------------

  /** `Overrun` stands for an eighth group: the source goes on with a row its table does not have. */
  datatype Outcome = Parsed(record: Record) | Malformed | Overrun

  datatype GroupsRead = Groups(groups: seq<Group>, rest: seq<Byte>) | GroupsMalformed | GroupsOverrun

  function CountIf(b: bool): nat { if b then 1 else 0 }

  function Count(p: Presence): nat {
    CountIf(p.a) + CountIf(p.b) + CountIf(p.c) + CountIf(p.d)
  }

  /** The count table says how many presence bits are set. */
  lemma CountTable(td: Byte)
    ensures NUM_IB_TABLE[td / 16] == Count(PresenceIn(td))
  {
    var n := td / 16;
    assert PresenceIn(td) == Presence(n % 2 == 1, n / 2 % 2 == 1, n / 4 % 2 == 1, n / 8 == 1);
    if n < 8 {
      if n == 0 {} else if n == 1 {} else if n == 2 {} else if n == 3 {} else if n == 4 {} else if n == 5 {} else if n == 6 {}
    } else {
      if n == 8 {} else if n == 9 {} else if n == 10 {} else if n == 11 {} else if n == 12 {} else if n == 13 {} else if n == 14 {}
    }
  }

  /** The first byte taken if it is due, and the bytes left. */
  function Taken(due: bool, s: seq<Byte>): Option<Byte>
    requires due ==> s != []
  {
    if due then Some(s[0]) else None
  }

  function Left(due: bool, s: seq<Byte>): (r: seq<Byte>)
    requires due ==> s != []
    ensures |r| == |s| - CountIf(due)
  {
    if due then s[1..] else s
  }

  /** The group at the front of some bytes. */
  function GroupIn(s: seq<Byte>, p: Presence): Group
    requires Count(p) <= |s|
  {
    var s1 := Left(p.a, s);
    var s2 := Left(p.b, s1);
    var s3 := Left(p.c, s2);
    Group(Taken(p.a, s), Taken(p.b, s1), Taken(p.c, s2), Taken(p.d, s3))
  }

  function AfterGroup(s: seq<Byte>, p: Presence): (r: seq<Byte>)
    requires Count(p) <= |s|
    ensures |r| == |s| - Count(p)
  {
    Left(p.d, Left(p.c, Left(p.b, Left(p.a, s))))
  }

  /** The groups before a given outcome. */
  function Prepend(groups: seq<Group>, r: GroupsRead): GroupsRead {
    if r.Groups? then Groups(groups + r.groups, r.rest) else r
  }

  /** The chain of groups at the front of some bytes; td announces the first, room are the rows left. */
  function ReadGroups(s: seq<Byte>, td: Byte, room: nat): GroupsRead
    decreases room
  {
    var p := PresenceIn(td);
    if Count(p) > |s| then GroupsMalformed
    else if room == 0 then GroupsOverrun
    else
      var g := GroupIn(s, p);
      if g.td.Some? then Prepend([g], ReadGroups(AfterGroup(s, p), g.td.value, room - 1))
      else Groups([g], AfterGroup(s, p))
  }

  /** The bytes in the convention of the card. */
  function Converted(input: seq<Byte>): (buf: seq<Byte>)
    ensures |buf| == |input|
  {
    if input != [] && input[0] == 0x03 then InvertedAll(input) else input
  }

  /** Historical bytes and check byte, after the groups. */
  function ReadTail(ts: Byte, t0: Byte, groups: seq<Group>, s: seq<Byte>): Outcome {
    var hbn := t0 % 16;
    var tck := TckExpected(groups);
    if hbn + CountIf(tck) > |s| then Malformed
    else if !FirstGroupOk(groups) then Malformed
    else Parsed(Record(ts, t0, groups, s[..hbn], if tck then Some(s[hbn]) else None))
  }

  function ParseConverted(buf: seq<Byte>): Outcome
    requires |buf| >= 2
  {
    match ReadGroups(buf[2..], buf[1], MAX_PROTOCOLS)
    case GroupsMalformed => Malformed
    case GroupsOverrun => Overrun
    case Groups(groups, rest) => ReadTail(buf[0], buf[1], groups, rest)
  }

  function Parse(input: seq<Byte>): Outcome {
    if |input| < 2 then Malformed else ParseConverted(Converted(input))
  }

  // ----- parsing and printing ------------------------------------------------------------

  lemma TakenThenLeft(due: bool, s: seq<Byte>)
    requires due ==> s != []
    ensures One(Taken(due, s)) + Left(due, s) == s
  {
  }

  lemma PrintedThenTaken(b: Option<Byte>, s: seq<Byte>)
    ensures Taken(b.Some?, One(b) + s) == b && Left(b.Some?, One(b) + s) == s
  {
  }

  /** What a group is read from is what it prints. */
  lemma GroupPrinted(s: seq<Byte>, p: Presence)
    requires Count(p) <= |s|
    ensures PresenceOf(GroupIn(s, p)) == p
    ensures PrintGroup(GroupIn(s, p), AfterGroup(s, p)) == s
  {
    var s1 := Left(p.a, s);
    var s2 := Left(p.b, s1);
    var s3 := Left(p.c, s2);
    TakenThenLeft(p.a, s);
    TakenThenLeft(p.b, s1);
    TakenThenLeft(p.c, s2);
    TakenThenLeft(p.d, s3);
  }

  /** A printed group is read back, and the bytes behind it are left. */
  lemma GroupParsed(g: Group, tail: seq<Byte>)
    ensures var s, p := PrintGroup(g, tail), PresenceOf(g);
            Count(p) <= |s| && GroupIn(s, p) == g && AfterGroup(s, p) == tail
  {
    var s3 := One(g.td) + tail;
    var s2 := One(g.tc) + s3;
    var s1 := One(g.tb) + s2;
    PrintedThenTaken(g.td, tail);
    PrintedThenTaken(g.tc, s3);
    PrintedThenTaken(g.tb, s2);
    PrintedThenTaken(g.ta, s1);
  }

  lemma {:induction false} GroupsPrinted(s: seq<Byte>, td: Byte, room: nat)
    ensures match ReadGroups(s, td, room)
            case Groups(groups, rest) => |groups| <= room && Chained(td, groups) && PrintGroups(groups, rest) == s
            case _ => true
    decreases room
  {
    var p := PresenceIn(td);
    if Count(p) <= |s| && room > 0 {
      GroupPrinted(s, p);
      var g, s' := GroupIn(s, p), AfterGroup(s, p);
      if g.td.Some? {
        GroupsPrinted(s', g.td.value, room - 1);
        var r := ReadGroups(s', g.td.value, room - 1);
        if r.Groups? {
          assert ([g] + r.groups)[1..] == r.groups;
        }
      } else {
        assert [g][1..] == [];
      }
    }
  }

  /** The first group of a chain is read, and what is read of the rest follows it. */
  lemma FirstParsed(g: Group, td: Byte, rest: seq<Byte>, room: nat)
    requires PresenceOf(g) == PresenceIn(td) && room > 0
    ensures ReadGroups(PrintGroup(g, rest), td, room)
            == if g.td.Some? then Prepend([g], ReadGroups(rest, g.td.value, room - 1)) else Groups([g], rest)
  {
    GroupParsed(g, rest);
  }

  lemma OneMoreParsed(g: Group, others: seq<Group>, td: Byte, tail: seq<Byte>, room: nat)
    requires PresenceOf(g) == PresenceIn(td) && room > 0
    requires if g.td.Some? then ReadGroups(PrintGroups(others, tail), g.td.value, room - 1) == Groups(others, tail)
             else others == []
    ensures ReadGroups(PrintGroups([g] + others, tail), td, room) == Groups([g] + others, tail)
  {
    var groups := [g] + others;
    assert groups[1..] == others;
    FirstParsed(g, td, PrintGroups(others, tail), room);
  }

  lemma {:induction false} GroupsParsed(groups: seq<Group>, td: Byte, tail: seq<Byte>, room: nat)
    requires Chained(td, groups) && |groups| <= room
    ensures ReadGroups(PrintGroups(groups, tail), td, room) == Groups(groups, tail)
    decreases |groups|
  {
    var g, others := groups[0], groups[1..];
    if g.td.Some? {
      GroupsParsed(others, g.td.value, tail, room - 1);
    }
    OneMoreParsed(g, others, td, tail, room);
    assert groups == [g] + others;
  }

  lemma TailPrinted(ts: Byte, t0: Byte, groups: seq<Group>, s: seq<Byte>) returns (rest: seq<Byte>)
    requires ReadTail(ts, t0, groups, s).Parsed?
    ensures var r := ReadTail(ts, t0, groups, s).record; s == r.historical + (One(r.tck) + rest)
    ensures |rest| == |s| - t0 % 16 - CountIf(TckExpected(groups))
  {
    var hbn, tck := t0 % 16, TckExpected(groups);
    rest := s[hbn + CountIf(tck)..];
    assert s[hbn..] == (if tck then [s[hbn]] else []) + rest;
    assert s == s[..hbn] + s[hbn..];
  }

  lemma FirstTwo(buf: seq<Byte>)
    requires |buf| >= 2
    ensures [buf[0], buf[1]] + buf[2..] == buf
  {
  }

  /** What the parser accepts begins with the printed record. */
  lemma ParsedIsPrinted(buf: seq<Byte>) returns (rest: seq<Byte>)
    requires |buf| >= 2 && ParseConverted(buf).Parsed?
    ensures var r := ParseConverted(buf).record; WellFormed(r) && buf == PrintOnto(r, rest)
    ensures |rest| == |ReadGroups(buf[2..], buf[1], MAX_PROTOCOLS).rest| - buf[1] % 16
                      - CountIf(TckExpected(ReadGroups(buf[2..], buf[1], MAX_PROTOCOLS).groups))
  {
    GroupsPrinted(buf[2..], buf[1], MAX_PROTOCOLS);
    var read := ReadGroups(buf[2..], buf[1], MAX_PROTOCOLS);
    rest := TailPrinted(buf[0], buf[1], read.groups, read.rest);
    FirstTwo(buf);
  }

  lemma TailParsed(r: Record, rest: seq<Byte>)
    requires WellFormed(r)
    ensures ReadTail(r.ts, r.t0, r.groups, r.historical + (One(r.tck) + rest)) == Parsed(r)
  {
    var s := r.historical + (One(r.tck) + rest);
    assert s[..|r.historical|] == r.historical;
    assert r.tck.Some? ==> s[|r.historical|] == r.tck.value;
  }

  /** Printing a well-formed record and parsing it again gives the record back. */
  lemma PrintedIsParsed(r: Record, rest: seq<Byte>)
    requires WellFormed(r)
    ensures |PrintOnto(r, rest)| >= 2 && ParseConverted(PrintOnto(r, rest)) == Parsed(r)
  {
    var buf, s := PrintOnto(r, rest), r.historical + (One(r.tck) + rest);
    assert buf[2..] == PrintGroups(r.groups, s) && buf[0] == r.ts && buf[1] == r.t0;
    GroupsParsed(r.groups, r.t0, s, MAX_PROTOCOLS);
    TailParsed(r, rest);
  }

  // ----- what the bytes of an answer mean ---------------------------------------------------

  /** A presence bit: TA, TB, TC and TD from the lowest to the highest, above the four bits of a count or a
      protocol. */
  lemma PresenceBits(a: bool, b: bool, c: bool, d: bool, k: nat)
    requires k < 16
    ensures PresenceIn(16 * CountIf(a) + 32 * CountIf(b) + 64 * CountIf(c) + 128 * CountIf(d) + k) == Presence(a, b, c, d)
  {
    var x := 16 * CountIf(a) + 32 * CountIf(b) + 64 * CountIf(c) + 128 * CountIf(d) + k;
    assert x / 16 == CountIf(a) + 2 * CountIf(b) + 4 * CountIf(c) + 8 * CountIf(d);
  }

  function Announcement(g: Group): nat {
    (if g.ta.Some? then 1 else 0) + (if g.tb.Some? then 2 else 0) + (if g.tc.Some? then 4 else 0)
    + if g.td.Some? then 8 else 0
  }

  lemma AnnouncedBy(g: Group, td: Byte)
    ensures PresenceOf(g) == PresenceIn(td) <==> td / 16 == Announcement(g)
  {
    var n := td / 16;
    NibbleIs(n);
    UpperNibble(td);
    assert PresenceIn(td) == Presence(n % 2 == 1, n / 2 % 2 == 1, n / 4 % 2 == 1, n / 8 == 1);
  }

  lemma UpperNibble(td: Byte)
    ensures td / 32 == td / 16 / 2 && td / 64 == td / 16 / 4 && td / 128 == td / 16 / 8
  {}

  lemma NibbleIs(n: nat)
    ensures n < 16 ==> n == n % 2 + 2 * (n / 2 % 2) + 4 * (n / 4 % 2) + 8 * (n / 8)
  {}

  /** A chain of groups, group by group: the byte before announces it, T0 or the TD byte of the group before,
      and all but the last have a TD byte. */
  predicate ChainedInBytes(td: Byte, groups: seq<Group>) {
    && groups != [] && td / 16 == Announcement(groups[0])
    && (forall i :: 0 <= i < |groups| ==> (groups[i].td.Some? <==> i + 1 < |groups|))
    && forall i: nat :: i + 1 < |groups| ==> Announces(groups, i)
  }

  predicate Announces(groups: seq<Group>, i: nat)
    requires i + 1 < |groups|
  {
    groups[i].td.Some? && groups[i].td.value / 16 == Announcement(groups[i + 1])
  }

  lemma {:induction false} ChainIsInBytes(td: Byte, groups: seq<Group>)
    ensures Chained(td, groups) <==> ChainedInBytes(td, groups)
    decreases |groups|
  {
    if groups != [] {
      AnnouncedBy(groups[0], td);
      if groups[0].td.Some? {
        var rest := groups[1..];
        ChainIsInBytes(groups[0].td.value, rest);
        if ChainedInBytes(groups[0].td.value, rest) && td / 16 == Announcement(groups[0]) {
          forall i | 0 <= i < |groups| ensures groups[i].td.Some? <==> i + 1 < |groups| {
            if i > 0 { assert groups[i] == rest[i - 1]; }
          }
          forall i: nat | i + 1 < |groups| ensures Announces(groups, i) {
            if i > 0 { assert Announces(rest, i - 1); }
          }
        }
        if ChainedInBytes(td, groups) {
          assert Announces(groups, 0);
          forall i: nat | i + 1 < |rest| ensures Announces(rest, i) {
            assert Announces(groups, i + 1);
          }
          forall i | 0 <= i < |rest| ensures rest[i].td.Some? <==> i + 1 < |rest| {
            assert rest[i] == groups[i + 1];
          }
        }
      }
    }
  }

  /** What a record that is read has: the bits of T0 and of each TD byte announce the group that follows,
      the lower half of T0 counts the historical bytes, a check byte is there exactly when the last TD byte
      names a protocol other than 0, and of a single group TA1 does not name the rates 7, 8, 14 and 15, nor
      exceeds TB1 0x80. */
  lemma WellFormedInBytes(r: Record)
    ensures WellFormed(r) <==>
            && 1 <= |r.groups| <= 7
            && ChainedInBytes(r.t0, r.groups)
            && r.t0 % 16 == |r.historical|
            && (r.tck.Some? <==> |r.groups| > 1 && r.groups[|r.groups| - 2].td.value % 16 != 0)
            && (|r.groups| == 1 && r.groups[0].ta.Some? ==> r.groups[0].ta.value / 16 !in {7, 8, 14, 15})
            && (|r.groups| == 1 && r.groups[0].tb.Some? ==> r.groups[0].tb.value <= 0x80)
  {
    ChainIsInBytes(r.t0, r.groups);
  }

  /** The bytes of a group come in the order TA, TB, TC, TD. */
  lemma GroupInOrder(a: Byte, b: Byte, c: Byte, d: Byte, tail: seq<Byte>)
    ensures PrintGroup(Group(Some(a), Some(b), Some(c), Some(d)), tail) == [a, b, c, d] + tail
  {}

  /** An answer with TA1 alone. */
  lemma OneInterfaceByte()
    ensures Parse([0x3B, 0x10, 0x11]) == Parsed(Record(0x3B, 0x10, [Group(Some(0x11), None, None, None)], [], None))
  {
    var r := Record(0x3B, 0x10, [Group(Some(0x11), None, None, None)], [], None);
    WellFormedInBytes(r);
    PrintedIsParsed(r, []);
    assert r.groups[1..] == [];
    assert PrintOnto(r, []) == [0x3B, 0x10, 0x11];
  }

  const THREE := Record(0x3B, 0xF2,
                        [Group(Some(0x11), Some(0x40), Some(0x05), Some(0x81)),
                         Group(None, None, None, Some(0x31)),
                         Group(Some(0x20), Some(0x45), None, None)],
                        [0xA1, 0xA2], Some(0xCC))

  /** And one with three groups, two historical bytes and a check byte. */
  lemma ThreeGroups(r: Record)
    requires r == THREE
    ensures Parse([0x3B, 0xF2, 0x11, 0x40, 0x05, 0x81, 0x31, 0x20, 0x45, 0xA1, 0xA2, 0xCC]) == Parsed(r)
  {
    ThreeAreWellFormed(r);
    ThreeArePrinted(r);
    PrintedIsParsed(r, []);
  }

  lemma ThreeAreWellFormed(r: Record)
    requires r == THREE
    ensures WellFormed(r)
  {
    var g := r.groups;
    assert Announcement(g[0]) == 15 && Announcement(g[1]) == 8 && Announcement(g[2]) == 3;
    assert g[0].td.value / 16 == 8 && g[1].td.value / 16 == 3 && r.t0 / 16 == 15;
    WellFormedInBytes(r);
  }

  lemma ThreeArePrinted(r: Record)
    requires r == THREE
    ensures PrintOnto(r, []) == [0x3B, 0xF2, 0x11, 0x40, 0x05, 0x81, 0x31, 0x20, 0x45, 0xA1, 0xA2, 0xCC]
  {
    var g1, g2, g3 := r.groups[0], r.groups[1], r.groups[2];
    var tail: seq<Byte> := [0xA1, 0xA2, 0xCC];
    assert r.historical + (One(r.tck) + []) == tail;
    assert r.groups[1..] == [g2, g3] && [g2, g3][1..] == [g3] && [g3][1..] == [];
    var s3, s2 := PrintGroup(g3, tail), PrintGroup(g2, PrintGroup(g3, tail));
    assert PrintGroups([g3], tail) == s3 && PrintGroups([g2, g3], tail) == s2;
    assert s3 == [0x20, 0x45] + tail;
    assert s2 == [0x31] + s3;
    GroupInOrder(0x11, 0x40, 0x05, 0x81, s2);
  }

  // ----- the printed form is a prefix ----------------------------------------------------

  lemma GroupOnto(g: Group, a: seq<Byte>, b: seq<Byte>)
    ensures PrintGroup(g, a + b) == PrintGroup(g, a) + b
  {
    Onto(One(g.td), a, b);
    Onto(One(g.tc), One(g.td) + a, b);
    Onto(One(g.tb), One(g.tc) + (One(g.td) + a), b);
    Onto(One(g.ta), One(g.tb) + (One(g.tc) + (One(g.td) + a)), b);
  }

  lemma Onto(x: seq<Byte>, a: seq<Byte>, b: seq<Byte>)
    ensures x + (a + b) == (x + a) + b
  {
  }

  lemma {:induction false} GroupsOnto(groups: seq<Group>, a: seq<Byte>, b: seq<Byte>)
    ensures PrintGroups(groups, a + b) == PrintGroups(groups, a) + b
    decreases |groups|
  {
    if groups != [] {
      GroupsOnto(groups[1..], a, b);
      GroupOnto(groups[0], PrintGroups(groups[1..], a), b);
    }
  }

  lemma PrintOntoIs(r: Record, rest: seq<Byte>)
    ensures PrintOnto(r, rest) == Print(r) + rest
  {
    var h := r.historical;
    assert One(r.tck) + [] == One(r.tck);
    Onto(h, One(r.tck), rest);
    GroupsOnto(r.groups, h + One(r.tck), rest);
    Onto([r.ts, r.t0], PrintGroups(r.groups, h + One(r.tck)), rest);
  }

  // ----- the main results ----------------------------------------------------------------

  lemma PrintedPrefixIsParsed(buf: seq<Byte>, r: Record)
    requires WellFormed(r) && Print(r) <= buf
    ensures |buf| >= 2 && buf[0] == r.ts && ParseConverted(buf) == Parsed(r)
  {
    var rest := buf[|Print(r)|..];
    assert buf == Print(r) + rest;
    PrintOntoIs(r, rest);
    PrintedIsParsed(r, rest);
    assert PrintOnto(r, rest)[0] == r.ts;
  }

  lemma ParsedIsPrefix(buf: seq<Byte>, r: Record)
    requires |buf| >= 2 && ParseConverted(buf) == Parsed(r)
    ensures WellFormed(r) && Print(r) <= buf
  {
    var rest := ParsedIsPrinted(buf);
    PrintOntoIs(r, rest);
  }

  /** Given at least two bytes, a record comes out of the parser exactly when it is well formed and
      the bytes, read in the card's convention, begin with its printed form. */
  lemma ParsedExactlyWhenPrinted(input: seq<Byte>, r: Record)
    requires |input| >= 2
    ensures Parse(input) == Parsed(r) <==> WellFormed(r) && Print(r) <= Converted(input)
  {
    if ParseConverted(Converted(input)) == Parsed(r) {
      ParsedIsPrefix(Converted(input), r);
    } else if WellFormed(r) && Print(r) <= Converted(input) {
      PrintedPrefixIsParsed(Converted(input), r);
    }
  }

  /** What a card sends for some bytes: inverted when the first one is 0x3F. */
  lemma SentIsConverted(s: seq<Byte>)
    requires s != []
    ensures s[0] != 0x03 ==> Converted(s) == s
    ensures s[0] == 0x3F ==> Converted(InvertedAll(s)) == s
  {
    InvertedAllTwice(s);
    InvertedAllAt(s, 0);
    TheInverseStart();
  }

  lemma TheInverseStart()
    ensures Inverted(0x3F) == 0x03
  {
    InvertedNibbles(3, 15, 0x3F);
  }

  /** A well-formed record, sent in either convention with anything behind it, is read back. A card
      of direct convention sends the printed bytes; one of inverse convention, whose first
      character reads 0x3F, sends them inverted. */
  lemma RoundTrip(r: Record, s: seq<Byte>)
    requires WellFormed(r) && Print(r) <= s
    ensures r.ts != 0x03 ==> Parse(s) == Parsed(r)
    ensures r.ts == 0x3F ==> Parse(InvertedAll(s)) == Parsed(r)
  {
    PrintedPrefixIsParsed(s, r);
    SentIsConverted(s);
  }

  /** How long the printed record is, seen from where the groups ended. */
  lemma PrintedLength(buf: seq<Byte>, groups: seq<Group>, s: seq<Byte>, r: Record)
    requires |buf| >= 2 && ReadGroups(buf[2..], buf[1], MAX_PROTOCOLS) == Groups(groups, s)
    requires ParseConverted(buf) == Parsed(r)
    ensures |Print(r)| == |buf| - |s| + buf[1] % 16 + CountIf(TckExpected(groups))
    ensures Print(r) == buf[..|Print(r)|]
  {
    var rest := ParsedIsPrinted(buf);
    PrintOntoIs(r, rest);
  }

  /** Two records that print alike are the same. */
  lemma PrintIsInjective(a: Record, b: Record)
    requires WellFormed(a) && WellFormed(b) && Print(a) == Print(b)
    ensures a == b
  {
    PrintedIsParsed(a, []);
    PrintedIsParsed(b, []);
  }

  /** A chain of groups each of which announces another one. */
  predicate Open(td: Byte, groups: seq<Group>)
    decreases |groups|
  {
    groups != [] ==>
      && PresenceOf(groups[0]) == PresenceIn(td) && groups[0].td.Some?
      && Open(groups[0].td.value, groups[1..])
  }

  /** The byte that announces what follows an open chain. */
  function Announcing(td: Byte, groups: seq<Group>): Byte
    requires Open(td, groups)
    decreases |groups|
  {
    if groups == [] then td else Announcing(groups[0].td.value, groups[1..])
  }

  /** Seven groups, and all the bytes of an eighth one. */
  predicate EighthGroup(buf: seq<Byte>, groups: seq<Group>, rest: seq<Byte>) {
    && |buf| >= 2 && |groups| == MAX_PROTOCOLS && Open(buf[1], groups)
    && buf[2..] == PrintGroups(groups, rest)
    && Count(PresenceIn(Announcing(buf[1], groups))) <= |rest|
  }

  lemma {:induction false} OpenOverruns(td: Byte, groups: seq<Group>, rest: seq<Byte>)
    requires Open(td, groups) && Count(PresenceIn(Announcing(td, groups))) <= |rest|
    ensures ReadGroups(PrintGroups(groups, rest), td, |groups|) == GroupsOverrun
    decreases |groups|
  {
    if groups != [] {
      GroupParsed(groups[0], PrintGroups(groups[1..], rest));
      OpenOverruns(groups[0].td.value, groups[1..], rest);
    }
  }

  lemma {:induction false} OverrunIsOpen(s: seq<Byte>, td: Byte, room: nat) returns (groups: seq<Group>, rest: seq<Byte>)
    requires ReadGroups(s, td, room) == GroupsOverrun
    ensures |groups| == room && Open(td, groups) && s == PrintGroups(groups, rest)
    ensures Count(PresenceIn(Announcing(td, groups))) <= |rest|
    decreases room
  {
    if room == 0 {
      groups, rest := [], s;
    } else {
      var p := PresenceIn(td);
      GroupPrinted(s, p);
      var g, more := GroupIn(s, p), [];
      more, rest := OverrunIsOpen(AfterGroup(s, p), g.td.value, room - 1);
      groups := [g] + more;
      assert groups[1..] == more;
    }
  }

  /** The table of groups is left exactly by bytes that hold an eighth group. */
  lemma OverrunsExactlyWhenEighthGroup(input: seq<Byte>)
    requires |input| >= 2
    ensures Parse(input) == Overrun <==> exists groups, rest :: EighthGroup(Converted(input), groups, rest)
  {
    var buf := Converted(input);
    if Parse(input) == Overrun {
      var groups, rest := OverrunIsOpen(buf[2..], buf[1], MAX_PROTOCOLS);
      assert EighthGroup(buf, groups, rest);
    }
    forall groups, rest | EighthGroup(buf, groups, rest)
      ensures Parse(input) == Overrun
    {
      OpenOverruns(buf[1], groups, rest);
    }
  }

  function Repeat(b: Byte, n: nat): (s: seq<Byte>)
    ensures |s| == n && forall k :: 0 <= k < n ==> s[k] == b
  {
    if n == 0 then [] else [b] + Repeat(b, n - 1)
  }

  lemma {:induction false} LongChainOverruns(n: nat)
    ensures ReadGroups(Repeat(0x80, n + 1), 0x80, n) == GroupsOverrun
    decreases n
  {
    var s, p := Repeat(0x80, n + 1), PresenceIn(0x80);
    assert p == Presence(false, false, false, true);
    if n > 0 {
      assert AfterGroup(s, p) == Repeat(0x80, n);
      LongChainOverruns(n - 1);
    }
  }

  /** Ten bytes, far below the longest answer allowed, that announce an eighth group. */
  lemma EightGroupsAnnounced()
    ensures Parse([0x3B, 0x80] + Repeat(0x80, MAX_PROTOCOLS + 1)) == Overrun
  {
    var buf := [0x3B, 0x80] + Repeat(0x80, MAX_PROTOCOLS + 1);
    assert buf[2..] == Repeat(0x80, MAX_PROTOCOLS + 1);
    LongChainOverruns(MAX_PROTOCOLS);
  }

  // ----- the structure the driver fills --------------------------------------------------

  datatype InterfaceByte = InterfaceByte(value: Byte, present: bool)

  datatype Status = AtrOk | AtrNotFound | AtrMalformed | AtrOverrun

  function Present(b: InterfaceByte): Option<Byte> {
    if b.present then Some(b.value) else None
  }

  /** The outcome of the chain is the groups read so far, followed by what the rest gives. */
  predicate ChainAt(whole: GroupsRead, groups: seq<Group>, rest: seq<Byte>, td: Byte) {
    |groups| <= MAX_PROTOCOLS && whole == Prepend(groups, ReadGroups(rest, td, MAX_PROTOCOLS - |groups|))
  }

  lemma ChainStart(rest: seq<Byte>, td: Byte)
    ensures ChainAt(ReadGroups(rest, td, MAX_PROTOCOLS), [], rest, td)
  {
    var r := ReadGroups(rest, td, MAX_PROTOCOLS);
    if r.Groups? {
      assert [] + r.groups == r.groups;
    }
  }

  lemma ChainEnds(whole: GroupsRead, groups: seq<Group>, rest: seq<Byte>, td: Byte)
    requires ChainAt(whole, groups, rest, td)
    ensures Count(PresenceIn(td)) > |rest| ==> whole.GroupsMalformed?
    ensures Count(PresenceIn(td)) <= |rest| && |groups| == MAX_PROTOCOLS ==> whole.GroupsOverrun?
  {
  }

  lemma ChainStep(whole: GroupsRead, groups: seq<Group>, rest: seq<Byte>, td: Byte)
    requires ChainAt(whole, groups, rest, td)
    requires Count(PresenceIn(td)) <= |rest| && |groups| < MAX_PROTOCOLS
    ensures var g, left := GroupIn(rest, PresenceIn(td)), AfterGroup(rest, PresenceIn(td));
            if g.td.Some? then ChainAt(whole, groups + [g], left, g.td.value) else whole == Groups(groups + [g], left)
  {
    var g, left := GroupIn(rest, PresenceIn(td)), AfterGroup(rest, PresenceIn(td));
    if g.td.Some? {
      PrependTwo(groups, g, ReadGroups(left, g.td.value, MAX_PROTOCOLS - |groups| - 1));
    }
  }

  lemma PrependTwo(a: seq<Group>, g: Group, r: GroupsRead)
    ensures Prepend(a, Prepend([g], r)) == Prepend(a + [g], r)
  {
    if r.Groups? {
      assert a + ([g] + r.groups) == (a + [g]) + r.groups;
    }
  }

  class Answer {
    var length: nat
    var ts: Byte
    var t0: Byte
    const ib: array2<InterfaceByte>
    var tck: InterfaceByte
    var pn: nat
    const hb: array<Byte>
    var hbn: nat

    ghost predicate Shaped() {
      ib.Length0 == MAX_PROTOCOLS && ib.Length1 == 4 && hb.Length == MAX_HISTORICAL
    }

    constructor ()
      ensures Shaped() && fresh(ib) && fresh(hb)
    {
      ib := new InterfaceByte[MAX_PROTOCOLS, 4]((_, _) => InterfaceByte(0, false));
      hb := new Byte[MAX_HISTORICAL](_ => 0);
      length, ts, t0, tck, pn, hbn := 0, 0, 0, InterfaceByte(0, false), 0, 0;
    }

    ghost function Row(i: nat): Group
      requires Shaped() && i < MAX_PROTOCOLS
      reads ib
    {
      Group(Present(ib[i, 0]), Present(ib[i, 1]), Present(ib[i, 2]), Present(ib[i, 3]))
    }

    ghost predicate Rows(groups: seq<Group>)
      reads ib
    {
      Shaped() && |groups| <= MAX_PROTOCOLS && forall i :: 0 <= i < |groups| ==> Row(i) == groups[i]
    }

    /** The structure holds the record. */
    ghost predicate Holds(r: Record)
      reads this, ib, hb
    {
      && ts == r.ts && t0 == r.t0
      && pn == |r.groups| && Rows(r.groups)
      && hbn == |r.historical| <= MAX_HISTORICAL && hb[..hbn] == r.historical
      && Present(tck) == r.tck
    }

    /** The status says how the parse ended; a record read is held, with its printed length. */
    ghost predicate Filled(o: Outcome, status: Status, limit: nat)
      reads this, ib, hb
    {
      match o
      case Parsed(r) => status == AtrOk && Holds(r) && length == |Print(r)| <= limit
      case Malformed => status == AtrMalformed
      case Overrun => status == AtrOverrun
    }

    /** Reads interface byte k of a row, if it is due. */
    method ReadByte(buffer: array<Byte>, pointer: nat, due: bool, row: nat, k: nat) returns (next: nat)
      requires Shaped() && row < MAX_PROTOCOLS && k < 4
      requires pointer + CountIf(due) < buffer.Length
      modifies ib
      ensures next == pointer + CountIf(due) < buffer.Length
      ensures Present(ib[row, k]) == Taken(due, buffer[pointer + 1..])
      ensures Left(due, buffer[pointer + 1..]) == buffer[next + 1..]
      ensures forall i, j :: 0 <= i < MAX_PROTOCOLS && 0 <= j < 4 && (i != row || j != k) ==> ib[i, j] == old(ib[i, j])
    {
      next := pointer;
      if due {
        next := next + 1;
        ib[row, k] := InterfaceByte(buffer[next], true);
      } else {
        ib[row, k] := InterfaceByte(ib[row, k].value, false);
      }
    }

    /** Reads the interface bytes of one group into a row. */
    method ReadRow(buffer: array<Byte>, pointer: nat, td: Byte, row: nat) returns (next: nat)
      requires Shaped() && row < MAX_PROTOCOLS
      requires pointer + Count(PresenceIn(td)) < buffer.Length
      modifies ib
      ensures next == pointer + Count(PresenceIn(td)) < buffer.Length
      ensures Row(row) == GroupIn(buffer[pointer + 1..], PresenceIn(td))
      ensures AfterGroup(buffer[pointer + 1..], PresenceIn(td)) == buffer[next + 1..]
      ensures forall i :: 0 <= i < MAX_PROTOCOLS && i != row ==> Row(i) == old(Row(i))
    {
      var p := PresenceIn(td);
      next := ReadByte(buffer, pointer, p.a, row, 0);
      next := ReadByte(buffer, next, p.b, row, 1);
      next := ReadByte(buffer, next, p.c, row, 2);
      next := ReadByte(buffer, next, p.d, row, 3);
    }

    /** Copies the bytes given, converted when the first one shows the inverse convention. The copy
        has exactly the given length, so every later read is one below that length. */
    method Convert(input: array<Byte>, length: nat) returns (buffer: array<Byte>)
      requires 2 <= length <= input.Length
      ensures fresh(buffer) && buffer[..] == Converted(input[..length])
    {
      buffer := new Byte[length];
      ghost var given := input[..length];
      if input[0] == 0x03 {
        var pointer := 0;
        while pointer < length
          invariant 0 <= pointer <= length
          invariant forall k :: 0 <= k < pointer ==> buffer[k] == InvertedAll(given)[k]
        {
          InvertedAllAt(given, pointer);
          buffer[pointer] := Inverted(input[pointer]);
          pointer := pointer + 1;
        }
        assert buffer[..] == InvertedAll(given);
      } else {
        forall k | 0 <= k < length {
          buffer[k] := input[k];
        }
        assert buffer[..] == given;
      }
    }

    static method InterfaceByteCount(td: Byte) returns (n: nat)
      ensures n == Count(PresenceIn(td))
    {
      CountTable(td);
      n := NUM_IB_TABLE[td / 16];
    }

    /** One turn of the loop over the groups, past its two checks. */
    method ReadNext(buffer: array<Byte>, pointer: nat, td: Byte, n: nat, ghost groups: seq<Group>, ghost whole: GroupsRead)
      returns (next: nat, ghost groups': seq<Group>)
      requires pointer + Count(PresenceIn(td)) < buffer.Length
      requires n == |groups| < MAX_PROTOCOLS && Rows(groups)
      requires ChainAt(whole, groups, buffer[pointer + 1..], td)
      modifies ib
      ensures pointer <= next < buffer.Length && |groups'| == n + 1 && groups'[..n] == groups && Rows(groups')
      ensures ib[n, 3].present ==>
        groups'[n].td == Some(ib[n, 3].value) && ChainAt(whole, groups', buffer[next + 1..], ib[n, 3].value)
      ensures !ib[n, 3].present ==> groups'[n].td == None && whole == Groups(groups', buffer[next + 1..])
      ensures n > 0 ==> groups'[n - 1] == groups[n - 1]
    {
      ChainStep(whole, groups, buffer[pointer + 1..], td);
      groups' := groups + [GroupIn(buffer[pointer + 1..], PresenceIn(td))];
      next := ReadRow(buffer, pointer, td, n);
    }

    /** The state at the head of the loop. */
    ghost predicate InChain(buffer: array<Byte>, pointer: nat, td: Byte, groups: seq<Group>, tckDue: bool, whole: GroupsRead)
      reads buffer, ib
    {
      && 1 <= pointer < buffer.Length && Rows(groups)
      && ChainAt(whole, groups, buffer[pointer + 1..], td)
      && (groups != [] ==> groups[|groups| - 1].td == Some(td))
      && tckDue == (groups != [] && td % 16 != 0)
    }

    /** The state behind the loop. */
    ghost predicate Ends(buffer: array<Byte>, status: Status, pointer: nat, n: nat, tckDue: bool, groups: seq<Group>,
                         whole: GroupsRead)
      reads buffer, ib
    {
      match status
      case AtrOk =>
        && n == |groups| && pointer < buffer.Length && whole == Groups(groups, buffer[pointer + 1..])
        && Rows(groups) && tckDue == TckExpected(groups)
      case AtrMalformed => whole.GroupsMalformed?
      case AtrOverrun => whole.GroupsOverrun?
      case AtrNotFound => false
    }

    /** A group is read, and its TD byte says whether there is another one. */
    method GoOn(buffer: array<Byte>, pointer: nat, td: Byte, tckDue: bool, ghost groups: seq<Group>, n: nat, ghost whole: GroupsRead)
      returns (more: bool, next: nat, td': Byte, tckDue': bool, ghost groups': seq<Group>)
      requires InChain(buffer, pointer, td, groups, tckDue, whole) && n == |groups| < MAX_PROTOCOLS
      requires pointer + Count(PresenceIn(td)) < buffer.Length
      modifies ib
      ensures |groups'| == n + 1
      ensures more ==> InChain(buffer, next, td', groups', tckDue', whole)
      ensures !more ==>
        && next < buffer.Length && whole == Groups(groups', buffer[next + 1..])
        && Rows(groups') && tckDue' == TckExpected(groups')
    {
      next, groups' := ReadNext(buffer, pointer, td, n, groups, whole);
      more, td', tckDue' := ib[n, 3].present, td, tckDue;
      if more {
        td' := ib[n, 3].value;
        tckDue' := td' % 16 != 0;
      }
    }

    /** One turn of the loop: it goes on with another group, or ends. */
    method Turn(buffer: array<Byte>, pointer: nat, td: Byte, tckDue: bool, ghost groups: seq<Group>, n: nat, ghost whole: GroupsRead)
      returns (status: Status, more: bool, next: nat, td': Byte, tckDue': bool, ghost groups': seq<Group>)
      requires InChain(buffer, pointer, td, groups, tckDue, whole) && n == |groups|
      modifies ib
      ensures more ==> status == AtrOk && InChain(buffer, next, td', groups', tckDue', whole)
      ensures more ==> |groups'| == n + 1 <= MAX_PROTOCOLS
      ensures !more ==> Ends(buffer, status, next, n + 1, tckDue', groups', whole)
    {
      more, next, td', tckDue', groups' := false, pointer, td, tckDue, groups;
      var due := InterfaceByteCount(td);
      ChainEnds(whole, groups, buffer[pointer + 1..], td);
      if pointer + due >= buffer.Length {
        return AtrMalformed, more, next, td', tckDue', groups';
      }
      if n == MAX_PROTOCOLS {
        return AtrOverrun, more, next, td', tckDue', groups';
      }
      more, next, td', tckDue', groups' := GoOn(buffer, pointer, td, tckDue, groups, n, whole);
      status := AtrOk;
    }

    /** The loop over the groups: their number, whether a check byte is due, and the pointer. */
    method ReadChain(buffer: array<Byte>) returns (status: Status, pointer: nat, n: nat, tckDue: bool, ghost groups: seq<Group>)
      requires Shaped() && buffer.Length >= 2
      modifies ib
      ensures Ends(buffer, status, pointer, n, tckDue, groups, ReadGroups(buffer[2..], buffer[1], MAX_PROTOCOLS))
    {
      ghost var whole := ReadGroups(buffer[2..], buffer[1], MAX_PROTOCOLS);
      var td, more := buffer[1], true;
      status, pointer, n, tckDue, groups := AtrOk, 1, 0, false, [];
      ChainStart(buffer[2..], td);
      while more
        invariant more ==> status == AtrOk && n == |groups| && InChain(buffer, pointer, td, groups, tckDue, whole)
        invariant !more ==> Ends(buffer, status, pointer, n, tckDue, groups, whole)
        decreases more, MAX_PROTOCOLS - n
      {
        status, more, pointer, td, tckDue, groups := Turn(buffer, pointer, td, tckDue, groups, n, whole);
        n := n + 1;
      }
    }

    /** The checks on TA1 and TB1 of an answer with a single group. */
    method CheckFirst(ghost groups: seq<Group>) returns (ok: bool)
      requires Rows(groups) && pn == |groups| > 0
      ensures ok == FirstGroupOk(groups)
    {
      assert Row(0) == groups[0];
      if pn == 1 && ib[0, 0].present && FS_TABLE[ib[0, 0].value / 16] == 0 {
        return false;
      }
      if pn == 1 && ib[0, 1].present && ib[0, 1].value > 0x80 {
        return false;
      }
      return true;
    }

    /** Historical bytes and check byte. */
    method ReadRest(buffer: array<Byte>, start: nat, tckDue: bool) returns (status: Status, pointer: nat)
      requires Shaped() && buffer != hb && start < buffer.Length && hbn <= MAX_HISTORICAL && tck.present == tckDue
      modifies hb, this`tck
      ensures status == if hbn + CountIf(tckDue) > buffer.Length - start - 1 then AtrMalformed else AtrOk
      ensures status == AtrOk ==>
        && pointer == start + hbn + CountIf(tckDue)
        && hb[..hbn] == buffer[start + 1..][..hbn]
        && Present(tck) == if tckDue then Some(buffer[start + 1..][hbn]) else None
    {
      pointer := start;
      if pointer + hbn >= buffer.Length {
        return AtrMalformed, pointer;
      }
      forall k | 0 <= k < hbn {
        hb[k] := buffer[pointer + 1 + k];
      }
      pointer := pointer + hbn;
      if tck.present {
        if pointer + 1 >= buffer.Length {
          return AtrMalformed, pointer;
        }
        pointer := pointer + 1;
        tck := InterfaceByte(buffer[pointer], true);
      }
      status := AtrOk;
    }

    /** Everything behind the groups. */
    method ReadTailInto(buffer: array<Byte>, pointer: nat, tckDue: bool, ghost groups: seq<Group>) returns (status: Status)
      requires Shaped() && buffer != hb && pointer < buffer.Length && hbn == t0 % 16
      requires pn == |groups| > 0 && Rows(groups) && tck.present == tckDue == TckExpected(groups)
      modifies hb, this`tck, this`length
      ensures match ReadTail(ts, t0, groups, buffer[pointer + 1..])
              case Parsed(r) => status == AtrOk && Holds(r) && length == pointer + 1 + t0 % 16 + CountIf(tckDue)
              case Malformed => status == AtrMalformed
              case Overrun => false
    {
      var last;
      status, last := ReadRest(buffer, pointer, tckDue);
      if status != AtrOk {
        return;
      }
      length := last + 1;
      var ok := CheckFirst(groups);
      if !ok {
        return AtrMalformed;
      }
    }

    /** ATR_InitFromArray: the structure holds the record the bytes stand for, and its length is
        that of the printed record. */
    method InitFromArray(input: array<Byte>, len: nat) returns (status: Status)
      requires Shaped() && len <= input.Length && len <= MAX_SIZE
      modifies this, ib, hb
      ensures Filled(Parse(old(input[..len])), status, len)
    {
      if len < 2 {
        return AtrMalformed;
      }
      var buffer := Convert(input, len);
      status := FillFrom(buffer);
    }

    method FillFrom(buffer: array<Byte>) returns (status: Status)
      requires Shaped() && buffer != hb && 2 <= buffer.Length
      modifies this, ib, hb
      ensures Filled(ParseConverted(old(buffer[..])), status, buffer.Length)
    {
      ghost var buf := buffer[..];
      ts, t0 := buffer[0], buffer[1];
      hbn := buffer[1] % 16;
      var pointer, n, tckDue;
      ghost var groups;
      assert buffer[2..] == buf[2..];
      status, pointer, n, tckDue, groups := ReadChain(buffer);
      if status != AtrOk {
        return;
      }
      pn := n;
      tck := InterfaceByte(tck.value, tckDue);
      ghost var s := buffer[pointer + 1..];
      LengthBehind(buf, groups, s);
      status := ReadTailInto(buffer, pointer, tckDue, groups);
    }

    /** Prints one interface byte, if it is present. `rest` is what is still to come of `whole`. */
    method PutByte(buffer: array<Byte>, j: nat, b: InterfaceByte, ghost rest: seq<Byte>, ghost whole: seq<Byte>) returns (next: nat)
      requires j <= buffer.Length && |whole| <= buffer.Length
      requires buffer[..j] + (One(Present(b)) + rest) == whole
      modifies buffer
      ensures j <= next <= buffer.Length && buffer[..next] + rest == whole
    {
      next := j;
      assert |buffer[..j] + (One(Present(b)) + rest)| == j + CountIf(b.present) + |rest|;
      if b.present {
        buffer[next] := b.value;
        next := next + 1;
        assert buffer[..next] == old(buffer[..j]) + [b.value];
      }
      Onto(old(buffer[..j]), One(Present(b)), rest);
    }

    method PutRow(buffer: array<Byte>, j: nat, i: nat, ghost rest: seq<Byte>, ghost whole: seq<Byte>) returns (next: nat)
      requires Shaped() && i < MAX_PROTOCOLS
      requires j <= buffer.Length && |whole| <= buffer.Length
      requires buffer[..j] + PrintGroup(Row(i), rest) == whole
      modifies buffer
      ensures j <= next <= buffer.Length && buffer[..next] + rest == whole
    {
      ghost var g := Row(i);
      next := PutByte(buffer, j, ib[i, 0], One(g.tb) + (One(g.tc) + (One(g.td) + rest)), whole);
      next := PutByte(buffer, next, ib[i, 1], One(g.tc) + (One(g.td) + rest), whole);
      next := PutByte(buffer, next, ib[i, 2], One(g.td) + rest, whole);
      next := PutByte(buffer, next, ib[i, 3], rest, whole);
    }

    /** ATR_GetRaw: the printed record. */
    method GetRaw(buffer: array<Byte>, ghost r: Record) returns (len: nat)
      requires Holds(r) && |Print(r)| <= buffer.Length && buffer != hb
      modifies buffer
      ensures len == |Print(r)| && buffer[..len] == Print(r)
    {
      ghost var whole, tail := Print(r), r.historical + (One(r.tck) + []);
      assert |whole| >= 2;
      buffer[0], buffer[1] := ts, t0;
      var j, i := 2, 0;
      assert buffer[..2] == [ts, t0] && r.groups[0..] == r.groups;
      while i < pn
        invariant 0 <= i <= pn && j <= buffer.Length
        invariant buffer[..j] + PrintGroups(r.groups[i..], tail) == whole
        invariant hb[..hbn] == r.historical
      {
        assert r.groups[i..][0] == r.groups[i] && r.groups[i..][1..] == r.groups[i + 1..] && Row(i) == r.groups[i];
        j := PutRow(buffer, j, i, PrintGroups(r.groups[i + 1..], tail), whole);
        i := i + 1;
      }
      assert PrintGroups(r.groups[i..], tail) == tail;
      len := PutEnd(buffer, j, r.historical, One(r.tck), whole);
    }

    /** Historical bytes and check byte. */
    method PutEnd(buffer: array<Byte>, j: nat, ghost h: seq<Byte>, ghost t: seq<Byte>, ghost whole: seq<Byte>) returns (len: nat)
      requires Shaped() && buffer != hb && j <= buffer.Length && |whole| <= buffer.Length
      requires hbn == |h| <= MAX_HISTORICAL && hb[..hbn] == h && t == One(Present(tck))
      requires buffer[..j] + (h + (t + [])) == whole
      modifies buffer
      ensures len == |whole| && buffer[..len] == whole
    {
      assert |buffer[..j] + (h + (t + []))| == j + |h| + |t|;
      Onto(buffer[..j], h, t + []);
      forall k | 0 <= k < hbn {
        buffer[j + k] := hb[k];
      }
      assert buffer[..j + hbn] == old(buffer[..j]) + h;
      len := PutByte(buffer, j + hbn, tck, [], whole);
      assert buffer[..len] + [] == buffer[..len];
    }

    /** ATR_GetInterfaceByte, for the four characters TA to TD. */
    method GetInterfaceByte(number: nat, character: nat, ghost r: Record) returns (status: Status, value: Byte)
      requires Holds(r) && character < 4
      ensures 1 <= number <= |r.groups| ==>
        var g := r.groups[number - 1];
        var b := [g.ta, g.tb, g.tc, g.td][character];
        if b.Some? then status == AtrOk && value == b.value else status == AtrNotFound
      ensures !(1 <= number <= |r.groups|) ==> status == AtrNotFound
    {
      value := 0;
      if number > pn || number < 1 {
        return AtrNotFound, value;
      }
      assert Row(number - 1) == r.groups[number - 1];
      if ib[number - 1, character].present {
        return AtrOk, ib[number - 1, character].value;
      }
      return AtrNotFound, value;
    }

    /** ATR_GetProtocolType: protocol n is named by the TD byte of group n - 1. Of a well-formed
        record, every protocol from the second on is named, and a check byte is present exactly
        when the last one is not T=0. */
    method GetProtocolType(number: nat, ghost r: Record) returns (status: Status, protocol: int)
      requires Holds(r) && WellFormed(r)
      ensures status == AtrOk <==> 2 <= number <= |r.groups|
      ensures status == AtrOk || status == AtrNotFound
      ensures status == AtrOk ==> r.groups[number - 2].td.Some? && protocol == r.groups[number - 2].td.value % 16
      ensures status == AtrOk && number == |r.groups| ==> (protocol != 0 <==> r.tck.Some?)
    {
      protocol := 0;
      if number > pn || number < 2 {
        return AtrNotFound, protocol;
      }
      assert Row(number - 2) == r.groups[number - 2];
      InnerGroupsNameNext(r.t0, r.groups, number - 2);
      if ib[number - 2, 3].present {
        protocol := ib[number - 2, 3].value % 16;
      } else {
        protocol := 0;
      }
      status := AtrOk;
    }
  }

  lemma {:induction false} InnerGroupsNameNext(td: Byte, groups: seq<Group>, i: nat)
    requires Chained(td, groups) && i + 1 < |groups|
    ensures groups[i].td.Some?
    decreases i
  {
    if i > 0 {
      InnerGroupsNameNext(groups[0].td.value, groups[1..], i - 1);
    }
  }

  lemma LengthBehind(buf: seq<Byte>, groups: seq<Group>, s: seq<Byte>)
    requires |buf| >= 2 && ReadGroups(buf[2..], buf[1], MAX_PROTOCOLS) == Groups(groups, s)
    ensures groups != []
    ensures ParseConverted(buf) == ReadTail(buf[0], buf[1], groups, s)
    ensures ParseConverted(buf).Parsed? ==>
      |Print(ParseConverted(buf).record)| == |buf| - |s| + buf[1] % 16 + CountIf(TckExpected(groups)) <= |buf|
  {
    if ParseConverted(buf).Parsed? {
      PrintedLength(buf, groups, s, ParseConverted(buf).record);
    }
  }
}
