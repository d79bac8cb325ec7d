/** The injector thread's work on one queue entry (pti/pti_main.c, stream_injector): packets are
    sorted by the tag in their header, stripped of it and delivered in batches of at most 20. */
module PtiInject {
  import opened Bytes
  import opened PtiLayout
  import opened PtiPackets
  import opened PtiRing

  const TAG_COUNT := 4
  const AUX_COUNT := 20
  const AUX_SIZE := 3760          // PAYLOAD_SIZE * AUX_COUNT

  // ----- what belongs to a tag -----------------------------------------------------------

  function TagOf(header: Byte): nat { header / 4 % 16 }

  /** The n packets stored from offset o on. */
  function PacketsAt(bytes: seq<Byte>, o: nat, n: nat): (packets: seq<seq<Byte>>)
    requires o + PACKET_SIZE * n <= |bytes|
    ensures |packets| == n && forall p :: p in packets ==> |p| == PACKET_SIZE
  {
    seq(n, k requires 0 <= k < n => bytes[o + PACKET_SIZE * k..o + PACKET_SIZE * (k + 1)])
  }

  /** The payloads, in order, of the packets that carry the tag. */
  function Payloads(packets: seq<seq<Byte>>, tag: nat): seq<Byte> {
    if packets == [] then []
    else Payloads(packets[..|packets| - 1], tag) + Stripped(packets[|packets| - 1], tag)
  }

  function Stripped(packet: seq<Byte>, tag: nat): seq<Byte> {
    if |packet| == PACKET_SIZE && TagOf(packet[0]) == tag then packet[HEADER_SIZE..] else []
  }

  lemma Associative<T>(a: seq<T>, b: seq<T>, c: seq<T>)
    ensures (a + b) + c == a + (b + c)
  {
  }

  lemma {:induction false} PayloadsAppend(a: seq<seq<Byte>>, b: seq<seq<Byte>>, tag: nat)
    ensures Payloads(a + b, tag) == Payloads(a, tag) + Payloads(b, tag)
    decreases |b|
  {
    if b == [] {
      assert a + b == a;
    } else {
      var b' := b[..|b| - 1];
      PayloadsAppend(a, b', tag);
      assert (a + b)[..|a + b| - 1] == a + b' && (a + b)[|a + b| - 1] == b[|b| - 1];
      Associative(Payloads(a, tag), Payloads(b', tag), Stripped(b[|b| - 1], tag));
    }
  }

  // ----- packets as they are sent ----------------------------------------------------------

  lemma TagIsRead(high: nat, tag: nat, low: nat)
    requires high < 4 && tag < 16 && low < 4
    ensures TagOf(64 * high + 4 * tag + low) == tag
  {}

  lemma {:induction false} StrippedIsSent(p: Packet, tag: nat)
    ensures Stripped(Assembled(p), tag) == if p.tag == tag then p.payload else []
  {
    TagIsRead(p.high, p.tag, p.low);
    assert Assembled(p)[6..] == p.payload;
  }

  lemma {:induction false} OneMorePacket(most: seq<Packet>, last: Packet)
    ensures PacketsAt(Flat(most + [last]), 0, |most| + 1) == PacketsAt(Flat(most), 0, |most|) + [Assembled(last)]
  {
    assert (most + [last])[..|most|] == most;
    var all, first := PacketsAt(Flat(most + [last]), 0, |most| + 1), PacketsAt(Flat(most), 0, |most|);
    forall k | 0 <= k < |most| ensures all[k] == first[k] {
      SliceBefore(Flat(most), Flat(most + [last])[..194 * |most|], 194 * k, 194, 194 * |most|);
    }
    assert all[|most|] == Assembled(last);
  }

  /** The packets of a piece of memory that holds some packets one behind the other carry, under each tag,
      the payloads sent under it. */
  lemma {:induction false} PayloadsAreSent(sent: seq<Packet>, tag: nat)
    ensures Payloads(PacketsAt(Flat(sent), 0, |sent|), tag) == SentUnder(sent, tag)
    decreases |sent|
  {
    if sent != [] {
      var most, last := sent[..|sent| - 1], sent[|sent| - 1];
      assert sent == most + [last];
      OneMorePacket(most, last);
      PayloadsAreSent(most, tag);
      OneMorePayload(PacketsAt(Flat(most), 0, |most|), last, tag);
    }
  }

  lemma {:induction false} OneMorePayload(packets: seq<seq<Byte>>, last: Packet, tag: nat)
    ensures Payloads(packets + [Assembled(last)], tag)
            == Payloads(packets, tag) + if last.tag == tag then last.payload else []
  {
    assert (packets + [Assembled(last)])[..|packets|] == packets;
    StrippedIsSent(last, tag);
  }

  // ----- batches -------------------------------------------------------------------------

  /** What the demultiplexer got for one tag: all the bytes, and how many packets came per call. */
  datatype Sink = Sink(data: seq<Byte>, cuts: seq<nat>)

  const EMPTY := Sink([], [])

  function Receive(s: Sink, data: seq<Byte>, count: nat): Sink {
    Sink(s.data + data, s.cuts + [count])
  }

  /** A call of the demultiplexer of a session, with packets that carry the tag. */
  datatype Call = Call(session: nat, tag: nat, data: seq<Byte>, count: nat)

  function ByTag(calls: seq<Call>, tag: nat): Sink {
    if calls == [] then EMPTY
    else
      var most, last := ByTag(calls[..|calls| - 1], tag), calls[|calls| - 1];
      if last.tag == tag then Receive(most, last.data, last.count) else most
  }

  /** The bytes that the demultiplexer of a session got. */
  function Got(calls: seq<Call>, session: nat): seq<Byte> {
    if calls == [] then []
    else
      var most, last := Got(calls[..|calls| - 1], session), calls[|calls| - 1];
      if last.session == session then most + last.data else most
  }

  lemma {:induction false} GotIsByTag(calls: seq<Call>, session: nat, tag: nat)
    requires forall k :: 0 <= k < |calls| ==> (calls[k].session == session <==> calls[k].tag == tag)
    ensures Got(calls, session) == ByTag(calls, tag).data
    decreases |calls|
  {
    if calls != [] {
      GotIsByTag(calls[..|calls| - 1], session, tag);
      assert calls[|calls| - 1].session == session <==> calls[|calls| - 1].tag == tag;
    }
  }

  predicate RoutedBy(calls: seq<Call>, sinks: seq<Sink>, tags: seq<nat>) {
    && |sinks| == |tags| == TAG_COUNT
    && (forall k :: 0 <= k < |calls| ==> calls[k].tag < TAG_COUNT && calls[k].session == tags[calls[k].tag])
    && forall t :: 0 <= t < TAG_COUNT ==> sinks[t] == ByTag(calls, t)
  }

  /** Under every tag whose source is assigned to a registered session, the payloads sent have been delivered
      in batches of 20 and a last one of 1 to 20; nothing under the others. */
  predicate Delivered(sinks: seq<Sink>, demux: seq<bool>, tags: seq<nat>, sent: seq<Packet>) {
    && |sinks| == 4 && TagsOk(demux, tags)
    && forall t :: 0 <= t < 4 ==> Right(sinks[t], if demux[tags[t]] then SentUnder(sent, t) else [])
  }

  lemma {:induction false} SentIsDelivered(sinks: seq<Sink>, demux: seq<bool>, tags: seq<nat>, registered: seq<bool>,
                        packets: seq<seq<Byte>>, sent: seq<Packet>)
    requires TagsOk(demux, tags) && |sinks| == |registered| == TAG_COUNT
    requires forall t :: 0 <= t < TAG_COUNT ==> registered[t] == demux[tags[t]]
    requires forall t :: 0 <= t < TAG_COUNT ==> Right(sinks[t], Wanted(packets, registered, t))
    requires packets == PacketsAt(Flat(sent), 0, |sent|)
    ensures Delivered(sinks, demux, tags, sent)
  {
    forall t: nat | t < TAG_COUNT
      ensures Right(sinks[t], if demux[tags[t]] then SentUnder(sent, t) else [])
    {
      PayloadsAreSent(sent, t);
    }
  }

  /** A session that one source alone is assigned to gets what was sent under it. */
  lemma {:induction false} SessionGets(calls: seq<Call>, sinks: seq<Sink>, demux: seq<bool>, tags: seq<nat>, sent: seq<Packet>,
                    session: nat, source: nat)
    requires RoutedBy(calls, sinks, tags) && Delivered(sinks, demux, tags, sent)
    requires source < TAG_COUNT && tags[source] == session
    ensures forall k :: 0 <= k < |calls| && calls[k].tag == source ==> calls[k].session == session
    ensures demux[session] && (forall t :: 0 <= t < TAG_COUNT && t != source ==> tags[t] != session) ==>
              Got(calls, session) == SentUnder(sent, source)
  {
    if demux[session] && forall t :: 0 <= t < TAG_COUNT && t != source ==> tags[t] != session {
      GotIsByTag(calls, session, source);
      assert Right(sinks[source], SentUnder(sent, source));
    }
  }

  /** Nothing but full batches so far. */
  predicate OnlyFull(s: Sink) {
    |s.data| == AUX_SIZE * |s.cuts| && forall k :: 0 <= k < |s.cuts| ==> s.cuts[k] == AUX_COUNT
  }

  /** The bytes wanted, in full batches but for a last one of 1 to 20 packets: this fixes every call. */
  predicate Right(s: Sink, wanted: seq<Byte>) {
    && s.data == wanted
    && (s.cuts == [] ==> wanted == [])
    && (s.cuts != [] ==>
         var full, last := |s.cuts| - 1, s.cuts[|s.cuts| - 1];
         && 1 <= last <= 20 && |wanted| == 188 * 20 * full + 188 * last
         && forall k :: 0 <= k < full ==> s.cuts[k] == 20)
  }

  /** There is only one right way to deliver given payloads. */
  lemma RightIsUnique(a: Sink, b: Sink, wanted: seq<Byte>)
    requires Right(a, wanted) && Right(b, wanted)
    ensures a == b
  {
    if a.cuts != [] && b.cuts != [] {
      var m, n := |a.cuts| - 1, |b.cuts| - 1;
      assert AUX_SIZE * m + PAYLOAD_SIZE * a.cuts[m] == AUX_SIZE * n + PAYLOAD_SIZE * b.cuts[n];
      assert AUX_COUNT * m + a.cuts[m] == AUX_COUNT * n + b.cuts[n];
      assert m == n;
    }
  }

  // ----- the auxiliary buffers -----------------------------------------------------------

  predicate AuxOk(aux: seq<Byte>, counts: seq<nat>) {
    && |aux| == TAG_COUNT * AUX_SIZE && |counts| == TAG_COUNT
    && forall t :: 0 <= t < TAG_COUNT ==> counts[t] <= AUX_COUNT
  }

  /** What waits in a tag's auxiliary buffer. */
  function PendingOf(aux: seq<Byte>, counts: seq<nat>, tag: nat): (p: seq<Byte>)
    requires AuxOk(aux, counts) && tag < TAG_COUNT
    ensures |p| == PAYLOAD_SIZE * counts[tag]
  {
    aux[AUX_SIZE * tag..AUX_SIZE * tag + PAYLOAD_SIZE * counts[tag]]
  }

  function Pending(aux: seq<Byte>, counts: seq<nat>): (p: seq<seq<Byte>>)
    requires AuxOk(aux, counts)
    ensures |p| == TAG_COUNT
  {
    [PendingOf(aux, counts, 0), PendingOf(aux, counts, 1), PendingOf(aux, counts, 2), PendingOf(aux, counts, 3)]
  }

  lemma PendingAt(aux: seq<Byte>, counts: seq<nat>, tag: nat)
    requires AuxOk(aux, counts) && tag < TAG_COUNT
    ensures Pending(aux, counts)[tag] == PendingOf(aux, counts, tag)
  {
    if tag == 0 {} else if tag == 1 {} else if tag == 2 {}
  }

  /** A payload stored behind what waits for its tag; the other tags' buffers stay apart. */
  lemma StoreExtends(aux: seq<Byte>, counts: seq<nat>, tag: nat, payload: seq<Byte>, aux': seq<Byte>)
    requires AuxOk(aux, counts) && tag < TAG_COUNT && counts[tag] < AUX_COUNT && |payload| == PAYLOAD_SIZE
    requires var at := AUX_SIZE * tag + PAYLOAD_SIZE * counts[tag];
             aux' == aux[..at] + payload + aux[at + PAYLOAD_SIZE..]
    ensures AuxOk(aux', counts[tag := counts[tag] + 1])
    ensures Pending(aux', counts[tag := counts[tag] + 1])
         == Pending(aux, counts)[tag := PendingOf(aux, counts, tag) + payload]
  {
    var at := AUX_SIZE * tag + PAYLOAD_SIZE * counts[tag];
    var counts' := counts[tag := counts[tag] + 1];
    Spliced(aux, at, payload, aux');
    forall t: nat | t < TAG_COUNT
      ensures PendingOf(aux', counts', t)
           == if t == tag then PendingOf(aux, counts, t) + payload else PendingOf(aux, counts, t)
    {
      var from, len := AUX_SIZE * t, PAYLOAD_SIZE * counts[t];
      if t < tag {
        SliceBefore(aux, aux', from, len, at);
      } else if t > tag {
        SliceAfter(aux, aux', from, len, at + PAYLOAD_SIZE);
      } else {
        SliceExtended(aux, aux', from, at, payload);
      }
    }
  }

  /** The parts of a sequence whose middle was replaced. */
  lemma Spliced(x: seq<Byte>, at: nat, payload: seq<Byte>, y: seq<Byte>)
    requires at + |payload| <= |x| && y == x[..at] + payload + x[at + |payload|..]
    ensures |y| == |x| && y[..at] == x[..at] && y[at..at + |payload|] == payload
    ensures y[at + |payload|..] == x[at + |payload|..]
  {}

  lemma SliceBefore(x: seq<Byte>, y: seq<Byte>, from: nat, len: nat, at: nat)
    requires from + len <= at <= |x| == |y| && y[..at] == x[..at]
    ensures y[from..from + len] == x[from..from + len]
  {
    var a, b := x[from..from + len], y[from..from + len];
    forall k | 0 <= k < len ensures a[k] == b[k] {
      assert y[from + k] == y[..at][from + k] && x[from + k] == x[..at][from + k];
    }
  }

  lemma SliceAfter(x: seq<Byte>, y: seq<Byte>, from: nat, len: nat, at: nat)
    requires at <= from && from + len <= |x| == |y| && y[at..] == x[at..]
    ensures y[from..from + len] == x[from..from + len]
  {
    var a, b := x[from..from + len], y[from..from + len];
    forall k | 0 <= k < len ensures a[k] == b[k] {
      var i := from + k - at;
      assert y[at..][i] == y[from + k] && x[at..][i] == x[from + k];
    }
  }

  lemma SliceExtended(x: seq<Byte>, y: seq<Byte>, from: nat, at: nat, payload: seq<Byte>)
    requires from <= at && at + |payload| <= |x| == |y|
    requires y[..at] == x[..at] && y[at..at + |payload|] == payload
    ensures y[from..at + |payload|] == x[from..at] + payload
  {
    SliceBefore(x, y, from, at - from, at);
    assert y[from..at + |payload|] == y[from..at] + y[at..at + |payload|];
  }

  lemma EmptiedBuffer(aux: seq<Byte>, counts: seq<nat>, tag: nat)
    requires AuxOk(aux, counts) && tag < TAG_COUNT
    ensures Pending(aux, counts[tag := 0]) == Pending(aux, counts)[tag := []]
  {
    assert PendingOf(aux, counts[tag := 0], tag) == [];
  }

  // ----- sorting, on values --------------------------------------------------------------

  function Wanted(packets: seq<seq<Byte>>, registered: seq<bool>, tag: nat): seq<Byte>
    requires tag < |registered|
  {
    if registered[tag] then Payloads(packets, tag) else []
  }

  /** Delivered full batches and what still waits make up the payloads wanted so far. */
  predicate Gathered(sink: Sink, pending: seq<Byte>, wanted: seq<Byte>) {
    sink.data + pending == wanted && OnlyFull(sink)
  }

  predicate Sorted(sinks: seq<Sink>, pending: seq<seq<Byte>>, packets: seq<seq<Byte>>, registered: seq<bool>) {
    && |sinks| == |pending| == |registered| == TAG_COUNT
    && forall t :: 0 <= t < TAG_COUNT ==> Gathered(sinks[t], pending[t], Wanted(packets, registered, t))
  }

  lemma PayloadsAfter(packets: seq<seq<Byte>>, p: seq<Byte>, tag: nat)
    requires |p| == PACKET_SIZE
    ensures Payloads(packets + [p], tag)
         == if TagOf(p[0]) == tag then Payloads(packets, tag) + p[HEADER_SIZE..] else Payloads(packets, tag)
  {
    assert (packets + [p])[..|packets|] == packets;
    assert Payloads(packets, tag) + [] == Payloads(packets, tag);
  }

  /** A packet of an unknown or unregistered tag is passed over. */
  lemma SkipKeepsSorted(sinks: seq<Sink>, pending: seq<seq<Byte>>, packets: seq<seq<Byte>>, registered: seq<bool>, p: seq<Byte>)
    requires Sorted(sinks, pending, packets, registered)
    requires |p| == PACKET_SIZE && (TagOf(p[0]) < TAG_COUNT ==> !registered[TagOf(p[0])])
    ensures Sorted(sinks, pending, packets + [p], registered)
  {
    forall t: nat | t < TAG_COUNT
      ensures Wanted(packets + [p], registered, t) == Wanted(packets, registered, t)
    {
      PayloadsAfter(packets, p, t);
    }
  }

  /** A packet of a registered tag joins what waits. */
  lemma TakeKeepsSorted(sinks: seq<Sink>, pending: seq<seq<Byte>>, packets: seq<seq<Byte>>, registered: seq<bool>, p: seq<Byte>)
    requires Sorted(sinks, pending, packets, registered)
    requires |p| == PACKET_SIZE && TagOf(p[0]) < TAG_COUNT && registered[TagOf(p[0])]
    ensures var tag := TagOf(p[0]);
            Sorted(sinks, pending[tag := pending[tag] + p[HEADER_SIZE..]], packets + [p], registered)
  {
    var tag := TagOf(p[0]);
    var pending' := pending[tag := pending[tag] + p[HEADER_SIZE..]];
    forall t: nat | t < TAG_COUNT
      ensures Gathered(sinks[t], pending'[t], Wanted(packets + [p], registered, t))
    {
      PayloadsAfter(packets, p, t);
      Associative(sinks[t].data, pending[t], p[HEADER_SIZE..]);
    }
  }

  /** A full buffer is handed to the demultiplexer. */
  lemma FlushKeepsSorted(sinks: seq<Sink>, pending: seq<seq<Byte>>, packets: seq<seq<Byte>>, registered: seq<bool>, tag: nat)
    requires Sorted(sinks, pending, packets, registered)
    requires tag < TAG_COUNT && |pending[tag]| == AUX_SIZE
    ensures Sorted(sinks[tag := Receive(sinks[tag], pending[tag], AUX_COUNT)], pending[tag := []], packets, registered)
  {
    var wanted := Wanted(packets, registered, tag);
    assert wanted + [] == wanted;
  }

  /** The remainders of the tags below n are delivered, the others still wait. */
  predicate Flushed(sinks: seq<Sink>, pending: seq<seq<Byte>>, packets: seq<seq<Byte>>, registered: seq<bool>, n: nat) {
    && |sinks| == |pending| == |registered| == TAG_COUNT
    && (forall t :: 0 <= t < n && t < TAG_COUNT ==> Right(sinks[t], Wanted(packets, registered, t)))
    && (forall t :: n <= t < TAG_COUNT ==> Gathered(sinks[t], pending[t], Wanted(packets, registered, t)))
  }

  lemma FlushNext(sinks: seq<Sink>, pending: seq<seq<Byte>>, packets: seq<seq<Byte>>, registered: seq<bool>, n: nat, count: nat)
    requires n < TAG_COUNT && Flushed(sinks, pending, packets, registered, n)
    requires |pending[n]| == PAYLOAD_SIZE * count && 1 <= count <= AUX_COUNT
    ensures Flushed(sinks[n := Receive(sinks[n], pending[n], count)], pending, packets, registered, n + 1)
  {
    assert Right(Receive(sinks[n], pending[n], count), Wanted(packets, registered, n));
  }

  /** Nothing waits for a tag that has no remainder, and never for an unregistered one. */
  lemma FlushNothing(sinks: seq<Sink>, pending: seq<seq<Byte>>, packets: seq<seq<Byte>>, registered: seq<bool>, n: nat)
    requires n < TAG_COUNT && Flushed(sinks, pending, packets, registered, n)
    requires pending[n] == [] || !registered[n]
    ensures Flushed(sinks, pending, packets, registered, n + 1)
  {
    FullIsRight(sinks[n], pending[n], Wanted(packets, registered, n));
  }

  lemma FullIsRight(s: Sink, pending: seq<Byte>, wanted: seq<Byte>)
    requires Gathered(s, pending, wanted) && (pending == [] || wanted == [])
    ensures Right(s, wanted)
  {
    if wanted == [] {
      assert |s.data + pending| == 0;
    } else {
      assert s.data + [] == s.data;
    }
  }

  // ----- which demultiplexer gets which source -------------------------------------------

  predicate TagsOk(demux: seq<bool>, tags: seq<nat>) {
    |demux| == |tags| == TAG_COUNT && forall i :: 0 <= i < TAG_COUNT ==> tags[i] < TAG_COUNT
  }

  /** The last registered source below n that the session reads, or -1. */
  function OldSource(demux: seq<bool>, tags: seq<nat>, session: nat, n: nat): (i: int)
    requires TagsOk(demux, tags) && n <= TAG_COUNT
    ensures -1 <= i < n
    ensures i >= 0 ==> demux[i] && tags[i] == session
    ensures forall j :: i < j < n ==> !(demux[j] && tags[j] == session)
  {
    if n == 0 then -1
    else if demux[n - 1] && tags[n - 1] == session then n - 1
    else OldSource(demux, tags, session, n - 1)
  }

  /** The session gets the source; whoever had it gets what the session had. */
  function Switched(demux: seq<bool>, tags: seq<nat>, session: nat, source: nat): (tags': seq<nat>)
    requires TagsOk(demux, tags) && session < TAG_COUNT && source < TAG_COUNT
    ensures TagsOk(demux, tags') && tags'[source] == session
  {
    var other := OldSource(demux, tags, session, TAG_COUNT);
    if tags[source] == session then tags
    else if other >= 0 then tags[source := session][other := tags[source]]
    else tags[source := session]
  }

  /** The source t is the last one that the session reads and whose own slot is registered. */
  predicate IsLastOf(demux: seq<bool>, tags: seq<nat>, session: nat, t: nat)
    requires TagsOk(demux, tags) && t < TAG_COUNT
  {
    demux[t] && tags[t] == session && forall u :: t < u < TAG_COUNT ==> !(demux[u] && tags[u] == session)
  }

  predicate Permutation(tags: seq<nat>) {
    && |tags| == TAG_COUNT && (forall i :: 0 <= i < TAG_COUNT ==> tags[i] < TAG_COUNT)
    && forall i, j :: 0 <= i < j < TAG_COUNT ==> tags[i] != tags[j]
  }

  lemma UsedAt(tags: seq<nat>, session: nat) returns (i: nat)
    requires Permutation(tags) && session < TAG_COUNT
    ensures i < TAG_COUNT && tags[i] == session
  {
    var a, b, c, d := tags[0], tags[1], tags[2], tags[3];
    assert a != b && a != c && a != d && b != c && b != d && c != d;
    i := if a == session then 0 else if b == session then 1 else if c == session then 2 else 3;
  }

  /** No two demultiplexers come to share a source, exactly when the session already reads the
      source or the demultiplexer slot it is exchanged with is registered. */
  lemma SwitchedIsPermutation(demux: seq<bool>, tags: seq<nat>, session: nat, source: nat)
    requires TagsOk(demux, tags) && session < TAG_COUNT && source < TAG_COUNT && Permutation(tags)
    ensures Permutation(Switched(demux, tags, session, source)) <==>
            tags[source] == session || exists i :: 0 <= i < TAG_COUNT && demux[i] && tags[i] == session
  {
    var other := OldSource(demux, tags, session, TAG_COUNT);
    var tags' := Switched(demux, tags, session, source);
    if tags[source] != session && other < 0 {
      var i := UsedAt(tags, session);
      assert tags'[i] == tags'[source];
    }
  }

  /** With two sessions registered, one of them asks for the source of a session that is not, and then for
      the other one's: it has two in the end, and that one has none. */
  lemma TwoSourcesForOneSession(demux: seq<bool>, tags: seq<nat>)
    requires demux == [false, true, true, false] && tags == [0, 1, 2, 3]
    ensures TagsOk(demux, tags) && Permutation(tags)
    ensures SwitchAll(demux, tags, [(1, 3), (1, 2)]) == [0, 3, 1, 1] && !Permutation([0, 3, 1, 1])
  {
    assert demux[1] && tags[1] == 1;
    assert OldSource(demux, tags, 1, TAG_COUNT) == 1;
    var once := [0, 3, 2, 1];
    assert Switched(demux, tags, 1, 3) == once;
    assert OldSource(demux, once, 1, TAG_COUNT) < 0;
    var twice := [0, 3, 1, 1];
    assert twice[2] == twice[3];
    var calls: seq<(nat, nat)> := [(1, 3), (1, 2)];
    assert calls[1..] == [(1, 2)] && calls[1..][1..] == [];
  }

  function SwitchAll(demux: seq<bool>, tags: seq<nat>, calls: seq<(nat, nat)>): (tags': seq<nat>)
    requires TagsOk(demux, tags)
    requires forall c :: c in calls ==> c.0 < TAG_COUNT && c.1 < TAG_COUNT
    ensures TagsOk(demux, tags')
    decreases |calls|
  {
    if calls == [] then tags
    else SwitchAll(demux, Switched(demux, tags, calls[0].0, calls[0].1), calls[1..])
  }

  /** With every demultiplexer registered, any run of set_source keeps the assignment one to one. */
  lemma {:induction false} SwitchAllIsPermutation(demux: seq<bool>, tags: seq<nat>, calls: seq<(nat, nat)>)
    requires TagsOk(demux, tags) && Permutation(tags)
    requires forall i :: 0 <= i < TAG_COUNT ==> demux[i]
    requires forall c :: c in calls ==> c.0 < TAG_COUNT && c.1 < TAG_COUNT
    ensures Permutation(SwitchAll(demux, tags, calls))
    decreases |calls|
  {
    if calls != [] {
      var session, source := calls[0].0, calls[0].1;
      var i := UsedAt(tags, session);
      SwitchedIsPermutation(demux, tags, session, source);
      SwitchAllIsPermutation(demux, Switched(demux, tags, session, source), calls[1..]);
    }
  }

  // ----- the injector --------------------------------------------------------------------

  class Injector {
    const backBuffer: array<Byte>
    const auxbuf: array<Byte>       // TAG_COUNT buffers of AUX_SIZE bytes, one behind the other
    var demux: seq<bool>            // internal->demux[i] != NULL
    var demuxTag: seq<nat>          // internal->demux_tag
    ghost var calls: seq<Call>      // of demultiplex_dvb_packets for the entry at hand
    ghost var sinks: seq<Sink>      // the same by tag

    ghost predicate Valid()
      reads this
    {
      && backBuffer.Length == BUFFER_SIZE && auxbuf.Length == TAG_COUNT * AUX_SIZE && backBuffer != auxbuf
      && TagsOk(demux, demuxTag) && |sinks| == TAG_COUNT
    }

    /** Every call went to the session that the tag's source is assigned to. */
    ghost predicate Routed()
      reads this
    {
      RoutedBy(calls, sinks, demuxTag)
    }

    predicate Registered(tag: nat)
      requires Valid() && tag < TAG_COUNT
      reads this
    {
      demux[demuxTag[tag]]
    }

    method SetSource(session: nat, source: nat)
      requires Valid() && session < TAG_COUNT && source < TAG_COUNT
      modifies this`demuxTag
      ensures Valid()
      ensures demuxTag == Switched(demux, old(demuxTag), session, source)
      ensures demuxTag[source] == session
      ensures forall t :: 0 <= t < TAG_COUNT && t != source && old(demuxTag)[t] != session ==> demuxTag[t] == old(demuxTag)[t]
      ensures old(demuxTag)[source] != session ==>
                forall t :: 0 <= t < TAG_COUNT && IsLastOf(demux, old(demuxTag), session, t) ==>
                  demuxTag[t] == old(demuxTag)[source]
    {
      var oldSession := demuxTag[source];
      if oldSession == session {
        return;
      }
      var oldSource, i := -1, 0;
      while i < TAG_COUNT
        invariant 0 <= i <= TAG_COUNT
        invariant oldSource == OldSource(demux, demuxTag, session, i)
      {
        if demux[i] {
          if demuxTag[i] == session {
            oldSource := i;
          }
        }
        i := i + 1;
      }
      demuxTag := demuxTag[source := session];
      if oldSource > -1 {
        demuxTag := demuxTag[oldSource := oldSession];
      }
    }

    function RegisteredTags(): (r: seq<bool>)
      requires Valid()
      reads this
      ensures |r| == TAG_COUNT && forall t :: 0 <= t < TAG_COUNT ==> r[t] == Registered(t)
    {
      [Registered(0), Registered(1), Registered(2), Registered(3)]
    }

    /** memmove of one payload behind what waits for the tag. */
    method StorePacket(tag: nat, from: nat, counts: seq<nat>)
      requires Valid() && tag < TAG_COUNT && from + PACKET_SIZE <= BUFFER_SIZE
      requires AuxOk(auxbuf[..], counts) && counts[tag] < AUX_COUNT
      modifies auxbuf
      ensures var counts' := counts[tag := counts[tag] + 1];
              && AuxOk(auxbuf[..], counts')
              && Pending(auxbuf[..], counts')
                 == old(Pending(auxbuf[..], counts))
                    [tag := old(PendingOf(auxbuf[..], counts, tag)) + backBuffer[from + HEADER_SIZE..from + PACKET_SIZE]]
    {
      ghost var aux0 := auxbuf[..];
      MoveToAux(AUX_SIZE * tag + PAYLOAD_SIZE * counts[tag], from + HEADER_SIZE);
      StoreExtends(aux0, counts, tag, backBuffer[from + HEADER_SIZE..from + PACKET_SIZE], auxbuf[..]);
    }

    method MoveToAux(at: nat, from: nat)
      requires Valid() && at + PAYLOAD_SIZE <= auxbuf.Length && from + PAYLOAD_SIZE <= backBuffer.Length
      modifies auxbuf
      ensures auxbuf[..] == old(auxbuf[..at]) + backBuffer[from..from + PAYLOAD_SIZE] + old(auxbuf[at + PAYLOAD_SIZE..])
    {
      forall i | 0 <= i < PAYLOAD_SIZE {
        auxbuf[at + i] := backBuffer[from + i];
      }
    }

    /** The calls made so far for the entry at hand are right for its first packets. */
    ghost predicate Sorting(counts: seq<nat>, packets: seq<seq<Byte>>)
      reads this, auxbuf
    {
      Routed() && Gathering(counts, packets)
    }

    ghost predicate Gathering(counts: seq<nat>, packets: seq<seq<Byte>>)
      reads this, auxbuf
    {
      && Valid()
      && AuxOk(auxbuf[..], counts) && (forall t :: 0 <= t < TAG_COUNT ==> counts[t] < AUX_COUNT)
      && Sorted(sinks, Pending(auxbuf[..], counts), packets, RegisteredTags())
    }

    ghost predicate SortedTo(counts: seq<nat>, packets: seq<seq<Byte>>, n: nat)
      reads this, auxbuf
    {
      n <= |packets| && Sorting(counts, packets[..n])
    }

    /** One call of the demultiplexer, with the batch that waits for the tag. */
    method Deliver(tag: nat, counts: seq<nat>)
      requires Valid() && Routed() && AuxOk(auxbuf[..], counts) && tag < TAG_COUNT && Registered(tag) && counts[tag] > 0
      modifies this`calls, this`sinks
      ensures Valid() && Routed()
      ensures calls == old(calls) + [Call(demuxTag[tag], tag, PendingOf(auxbuf[..], counts, tag), counts[tag])]
      ensures sinks == old(sinks)[tag := Receive(old(sinks)[tag], PendingOf(auxbuf[..], counts, tag), counts[tag])]
    {
      var from := AUX_SIZE * tag;
      var batch := auxbuf[from..from + PAYLOAD_SIZE * counts[tag]];
      assert batch == PendingOf(auxbuf[..], counts, tag);
      sinks := sinks[tag := Receive(sinks[tag], batch, counts[tag])];
      calls := calls + [Call(demuxTag[tag], tag, batch, counts[tag])];
    }

    /** A packet of a registered tag is stored. */
    method TakePacket(tag: nat, from: nat, counts: seq<nat>, ghost packets: seq<seq<Byte>>, ghost packet: seq<Byte>)
      returns (counts': seq<nat>)
      requires from + PACKET_SIZE <= backBuffer.Length && packet == backBuffer[from..from + PACKET_SIZE]
      requires tag == TagOf(packet[0]) < TAG_COUNT
      requires Gathering(counts, packets) && Registered(tag)
      modifies auxbuf
      ensures counts' == counts[tag := counts[tag] + 1] && AuxOk(auxbuf[..], counts')
      ensures Sorted(sinks, Pending(auxbuf[..], counts'), packets + [packet], RegisteredTags())
    {
      HeaderStripped(backBuffer[..], from);
      PendingAt(auxbuf[..], counts, tag);
      TakeKeepsSorted(sinks, Pending(auxbuf[..], counts), packets, RegisteredTags(), packet);
      StorePacket(tag, from, counts);
      counts' := counts[tag := counts[tag] + 1];
    }

    /** A tag's buffer is delivered when it is full. */
    method FlushIfFull(tag: nat, counts: seq<nat>, ghost packets: seq<seq<Byte>>) returns (counts': seq<nat>)
      requires Valid() && Routed() && AuxOk(auxbuf[..], counts) && tag < TAG_COUNT && Registered(tag)
      requires forall t :: 0 <= t < TAG_COUNT && t != tag ==> counts[t] < AUX_COUNT
      requires Sorted(sinks, Pending(auxbuf[..], counts), packets, RegisteredTags())
      modifies this`calls, this`sinks
      ensures Sorting(counts', packets)
    {
      counts' := counts;
      if counts[tag] >= AUX_COUNT {
        PendingAt(auxbuf[..], counts, tag);
        FlushKeepsSorted(sinks, Pending(auxbuf[..], counts), packets, RegisteredTags(), tag);
        EmptiedBuffer(auxbuf[..], counts, tag);
        Deliver(tag, counts);
        counts' := counts[tag := 0];
      }
    }

    /** One packet: stored and perhaps delivered with its batch, or passed over. */
    method SortPacket(from: nat, counts: seq<nat>, ghost packets: seq<seq<Byte>>, ghost packet: seq<Byte>)
      returns (counts': seq<nat>)
      requires from + PACKET_SIZE <= backBuffer.Length && packet == backBuffer[from..from + PACKET_SIZE]
      requires Sorting(counts, packets)
      modifies this`calls, this`sinks, auxbuf
      ensures Sorting(counts', packets + [packet])
    {
      counts' := counts;
      var tag := TagOf(backBuffer[from]);
      if tag < TAG_COUNT && demux[demuxTag[tag]] {
        counts' := TakePacket(tag, from, counts', packets, packet);
        counts' := FlushIfFull(tag, counts', packets + [packet]);
      } else {
        SkipKeepsSorted(sinks, Pending(auxbuf[..], counts), packets, RegisteredTags(), packet);
      }
    }

    /** Packet n of an entry, in the bytes of the back buffer. */
    static ghost predicate IsNth(it: WorkItem, packets: seq<seq<Byte>>, bytes: seq<Byte>, n: nat)
      requires |bytes| == BUFFER_SIZE && InBuffer(it) && n < it.count == |packets|
    {
      var from := it.offset + PACKET_SIZE * n;
      packets[n] == bytes[from..from + PACKET_SIZE]
    }

    /** The packets are those of the entry. */
    static ghost predicate AtHand(it: WorkItem, packets: seq<seq<Byte>>, bytes: seq<Byte>) {
      && |bytes| == BUFFER_SIZE && InBuffer(it) && |packets| == it.count
      && forall n: nat :: n < it.count ==> IsNth(it, packets, bytes, n)
    }

    static lemma PacketsAreAtHand(it: WorkItem, bytes: seq<Byte>)
      requires |bytes| == BUFFER_SIZE && InBuffer(it)
      ensures AtHand(it, PacketsAt(bytes, it.offset, it.count), bytes)
    {
      forall n: nat | n < it.count ensures IsNth(it, PacketsAt(bytes, it.offset, it.count), bytes, n) {
        PacketAt(bytes, it.offset, it.count, n, it.offset + PACKET_SIZE * n);
      }
    }

    method SortNth(it: WorkItem, n: nat, counts: seq<nat>, ghost packets: seq<seq<Byte>>, ghost bytes: seq<Byte>)
      returns (counts': seq<nat>)
      requires AtHand(it, packets, bytes) && bytes == backBuffer[..] && n < it.count
      requires SortedTo(counts, packets, n)
      modifies this`calls, this`sinks, auxbuf
      ensures SortedTo(counts', packets, n + 1) && bytes == backBuffer[..]
    {
      var from := it.offset + PACKET_SIZE * n;                    // pFrom
      assert IsNth(it, packets, bytes, n);
      assert packets[n] == backBuffer[from..from + PACKET_SIZE];
      OneMore(packets, n);
      counts' := SortPacket(from, counts, packets[..n], packets[n]);
    }

    method FlushTag(n: nat, counts: seq<nat>, ghost packets: seq<seq<Byte>>)
      requires Valid() && Routed() && AuxOk(auxbuf[..], counts) && n < TAG_COUNT
      requires Flushed(sinks, Pending(auxbuf[..], counts), packets, RegisteredTags(), n)
      modifies this`calls, this`sinks
      ensures Valid() && Routed() && Flushed(sinks, Pending(auxbuf[..], counts), packets, RegisteredTags(), n + 1)
    {
      PendingAt(auxbuf[..], counts, n);
      if counts[n] > 0 && demux[demuxTag[n]] {
        FlushNext(sinks, Pending(auxbuf[..], counts), packets, RegisteredTags(), n, counts[n]);
        Deliver(n, counts);
      } else {
        FlushNothing(sinks, Pending(auxbuf[..], counts), packets, RegisteredTags(), n);
      }
    }

    /** The loop over the remainders. */
    method FlushRemainders(counts: seq<nat>, ghost packets: seq<seq<Byte>>)
      requires Sorting(counts, packets)
      modifies this`calls, this`sinks
      ensures Valid() && Routed()
      ensures forall t :: 0 <= t < TAG_COUNT ==> Right(sinks[t], Wanted(packets, RegisteredTags(), t))
    {
      var n := 0;
      while n < TAG_COUNT
        invariant n <= TAG_COUNT && Valid() && Routed()
        invariant Flushed(sinks, Pending(auxbuf[..], counts), packets, RegisteredTags(), n)
      {
        FlushTag(n, counts, packets);
        n := n + 1;
      }
    }

    /** Nothing stored and nothing delivered yet. */
    method StartItem() returns (counts: seq<nat>)
      requires Valid()
      modifies this`calls, this`sinks
      ensures Sorting(counts, [])
    {
      counts := [0, 0, 0, 0];
      calls, sinks := [], [EMPTY, EMPTY, EMPTY, EMPTY];
      NothingYet(auxbuf[..], counts, RegisteredTags());
    }

    /** The loop over the packets. */
    method SortPackets(it: WorkItem, ghost packets: seq<seq<Byte>>) returns (counts: seq<nat>)
      requires Valid() && InBuffer(it)
      requires packets == PacketsAt(backBuffer[..], it.offset, it.count)
      modifies this`calls, this`sinks, auxbuf
      ensures Sorting(counts, packets)
    {
      counts := StartItem();
      assert packets[..0] == [] && packets[..it.count] == packets;
      PacketsAreAtHand(it, backBuffer[..]);
      counts := SortLoop(it, counts, packets, backBuffer[..]);
    }

    method SortLoop(it: WorkItem, start: seq<nat>, ghost packets: seq<seq<Byte>>, ghost bytes: seq<Byte>)
      returns (counts: seq<nat>)
      requires AtHand(it, packets, bytes) && bytes == backBuffer[..]
      requires SortedTo(start, packets, 0)
      modifies this`calls, this`sinks, auxbuf
      ensures SortedTo(counts, packets, it.count)
    {
      counts := start;
      var n := 0;
      while n < it.count
        invariant n <= it.count && bytes == backBuffer[..]
        invariant SortedTo(counts, packets, n)
      {
        counts := SortNth(it, n, counts, packets, bytes);
        n := n + 1;
      }
    }

    /** All the work on one queue entry: every registered tag's demultiplexer gets exactly that
        tag's packets of the entry, in order and without their headers. */
    method SortItem(it: WorkItem)
      requires Valid() && InBuffer(it)
      modifies this`calls, this`sinks, auxbuf
      ensures Valid() && Routed()
      ensures var packets := PacketsAt(backBuffer[..], it.offset, it.count);
              forall t :: 0 <= t < TAG_COUNT ==> Right(sinks[t], Wanted(packets, RegisteredTags(), t))
      ensures forall sent: seq<Packet> | HoldsPackets(backBuffer[..], it, sent) ::
                Delivered(sinks, demux, demuxTag, sent)
    {
      ghost var bytes := backBuffer[..];
      ghost var packets := PacketsAt(bytes, it.offset, it.count);
      var counts := SortPackets(it, packets);
      FlushRemainders(counts, packets);
      forall sent: seq<Packet> | HoldsPackets(bytes, it, sent) ensures Delivered(sinks, demux, demuxTag, sent) {
        PacketsInside(bytes, it.offset, sent);
        SentIsDelivered(sinks, demux, demuxTag, RegisteredTags(), packets, sent);
      }
    }

    /** The entry's piece of the buffer holds these packets. */
    static ghost predicate HoldsPackets(bytes: seq<Byte>, it: WorkItem, sent: seq<Packet>) {
      && |sent| == it.count && it.offset + 194 * it.count <= |bytes|
      && bytes[it.offset..it.offset + 194 * it.count] == Flat(sent)
    }

    /** A change of source and an entry, one after the other: the session's demultiplexer gets the packets
        of the source, and of this one only where no other one is assigned to the session too. */
    method SwitchThenSort(session: nat, source: nat, it: WorkItem, ghost sent: seq<Packet>)
      requires Valid() && session < TAG_COUNT && source < TAG_COUNT && InBuffer(it)
      requires HoldsPackets(backBuffer[..], it, sent)
      modifies this`demuxTag, this`calls, this`sinks, auxbuf
      ensures Valid()
      ensures forall k :: 0 <= k < |calls| && calls[k].tag == source ==> calls[k].session == session
      ensures demux[session] && (forall t :: 0 <= t < TAG_COUNT && t != source ==> demuxTag[t] != session) ==>
                Got(calls, session) == SentUnder(sent, source)
      ensures old(Permutation(demuxTag)) && (forall i :: 0 <= i < TAG_COUNT ==> demux[i]) ==>
                Got(calls, session) == SentUnder(sent, source)
    {
      ghost var all := Permutation(demuxTag) && forall i :: 0 <= i < TAG_COUNT ==> demux[i];
      if all {
        OthersAreOthers(demux, demuxTag, session, source);
      }
      SetSource(session, source);
      SortAlone(session, source, it, sent);
    }

    method SortAlone(session: nat, source: nat, it: WorkItem, ghost sent: seq<Packet>)
      requires Valid() && session < TAG_COUNT && source < TAG_COUNT && InBuffer(it)
      requires HoldsPackets(backBuffer[..], it, sent)
      requires demuxTag[source] == session
      modifies this`calls, this`sinks, auxbuf
      ensures Valid()
      ensures forall k :: 0 <= k < |calls| && calls[k].tag == source ==> calls[k].session == session
      ensures demux[session] && (forall t :: 0 <= t < TAG_COUNT && t != source ==> demuxTag[t] != session) ==>
                Got(calls, session) == SentUnder(sent, source)
    {
      ghost var bytes := backBuffer[..];
      SortItem(it);
      assert backBuffer[..] == bytes;
      SessionGets(calls, sinks, demux, demuxTag, sent, session, source);
    }
  }

  lemma {:induction false} PacketsInside(bytes: seq<Byte>, o: nat, sent: seq<Packet>)
    requires o + 194 * |sent| <= |bytes| && bytes[o..o + 194 * |sent|] == Flat(sent)
    ensures PacketsAt(bytes, o, |sent|) == PacketsAt(Flat(sent), 0, |sent|)
  {
    assert Flat(sent)[0..194 * |sent|] == Flat(sent);
    PacketsSame(bytes, o, Flat(sent), 0, |sent|);
  }

  lemma {:induction false} OthersAreOthers(demux: seq<bool>, tags: seq<nat>, session: nat, source: nat)
    requires TagsOk(demux, tags) && Permutation(tags) && session < TAG_COUNT && source < TAG_COUNT
    requires forall i :: 0 <= i < TAG_COUNT ==> demux[i]
    ensures forall t :: 0 <= t < TAG_COUNT && t != source ==> Switched(demux, tags, session, source)[t] != session
  {
    var i := UsedAt(tags, session);
    SwitchedIsPermutation(demux, tags, session, source);
  }

  /** The packets in a span are those of another one when its bytes are. */
  lemma PacketsSame(mem: seq<Byte>, o: nat, stream: seq<Byte>, p: nat, n: nat)
    requires o + PACKET_SIZE * n <= |mem| && p + PACKET_SIZE * n <= |stream|
    requires mem[o..o + PACKET_SIZE * n] == stream[p..p + PACKET_SIZE * n]
    ensures PacketsAt(mem, o, n) == PacketsAt(stream, p, n)
  {
    var a, b := PacketsAt(mem, o, n), PacketsAt(stream, p, n);
    forall k | 0 <= k < n ensures a[k] == b[k] {
      PacketAt(mem, o, n, k, o + PACKET_SIZE * k);
      PacketAt(stream, p, n, k, p + PACKET_SIZE * k);
      SamePiece(mem, o, stream, p, PACKET_SIZE * n, PACKET_SIZE * k);
    }
  }

  lemma SamePiece(mem: seq<Byte>, o: nat, stream: seq<Byte>, p: nat, len: nat, at: nat)
    requires o + len <= |mem| && p + len <= |stream| && at + PACKET_SIZE <= len
    requires mem[o..o + len] == stream[p..p + len]
    ensures mem[o + at..o + at + PACKET_SIZE] == stream[p + at..p + at + PACKET_SIZE]
  {
    var x, y := mem[o + at..o + at + PACKET_SIZE], stream[p + at..p + at + PACKET_SIZE];
    forall j | 0 <= j < PACKET_SIZE
      ensures x[j] == y[j]
    {
      assert mem[o..o + len][at + j] == stream[p..p + len][at + j];
    }
  }

  lemma PacketAt(bytes: seq<Byte>, o: nat, n: nat, k: nat, from: nat)
    requires o + PACKET_SIZE * n <= |bytes| && k < n && from == o + PACKET_SIZE * k
    ensures PacketsAt(bytes, o, n)[k] == bytes[from..from + PACKET_SIZE]
  {
  }

  lemma OneMore<T>(s: seq<T>, n: nat)
    requires n < |s|
    ensures s[..n + 1] == s[..n] + [s[n]]
  {
  }

  lemma HeaderStripped(bytes: seq<Byte>, from: nat)
    requires from + PACKET_SIZE <= |bytes|
    ensures bytes[from..from + PACKET_SIZE][HEADER_SIZE..] == bytes[from + HEADER_SIZE..from + PACKET_SIZE]
  {
  }

  lemma NothingYet(aux: seq<Byte>, counts: seq<nat>, registered: seq<bool>)
    requires |aux| == TAG_COUNT * AUX_SIZE && |registered| == TAG_COUNT && counts == [0, 0, 0, 0]
    ensures AuxOk(aux, counts) && Sorted([EMPTY, EMPTY, EMPTY, EMPTY], Pending(aux, counts), [], registered)
  {
    forall t: nat | t < TAG_COUNT
      ensures Gathered([EMPTY, EMPTY, EMPTY, EMPTY][t], Pending(aux, counts)[t], Wanted([], registered, t))
    {
      PendingAt(aux, counts, t);
    }
  }
}
