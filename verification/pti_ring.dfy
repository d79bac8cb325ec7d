/** The DMA ring of the transport-stream driver and the timer that polls it
    (pti/pti_main.c, the __TDT__ variant of process_pti_dma). */
module PtiLayout {
  const HEADER_SIZE := 6
  const PAYLOAD_SIZE := 188
  const PACKET_SIZE := 194        // PAYLOAD_SIZE + HEADER_SIZE
  const RING_PACKETS := 4096
  const BUFFER_SIZE := 794624     // PACKET_SIZE * RING_PACKETS
  const MAX_AHEAD := 4094         // what the firmware is told in psize

  /** One entry of the work queue: a span of whole packets in the back buffer. */
  datatype WorkItem = WorkItem(offset: nat, count: nat)
}

module PtiRing {
  import opened Bytes
  import opened PtiLayout
  import opened PtiQueue

  // ----- spans of packet numbers ---------------------------------------------------------

  /** The work items that stand for the packets r, r+1, .., n-1 of the stream. */
  function Spans(r: nat, n: nat): seq<WorkItem>
    requires r <= n <= r + MAX_AHEAD
  {
    var s := r % RING_PACKETS;
    if r == n then []
    else if s + (n - r) < RING_PACKETS then [WorkItem(PACKET_SIZE * s, n - r)]
    else [WorkItem(PACKET_SIZE * s, RING_PACKETS - s), WorkItem(0, s + (n - r) - RING_PACKETS)]
  }

  /** Where packet number r of the stream lies in the back buffer. */
  function SlotOffset(r: nat): (o: nat)
    ensures o < BUFFER_SIZE && o % PACKET_SIZE == 0
  {
    PACKET_SIZE * (r % RING_PACKETS)
  }

  predicate InBuffer(it: WorkItem) {
    it.offset + PACKET_SIZE * it.count <= BUFFER_SIZE
  }

  function SpanBytes(mem: seq<Byte>, it: WorkItem): (bytes: seq<Byte>)
    requires InBuffer(it) && |mem| == BUFFER_SIZE
    ensures |bytes| == PACKET_SIZE * it.count
  {
    mem[it.offset..it.offset + PACKET_SIZE * it.count]
  }

  function TotalCount(items: seq<WorkItem>): nat {
    if items == [] then 0 else items[0].count + TotalCount(items[1..])
  }

  /** Read in order, the items denote the packet numbers first, first+1, .. : every span starts in
      the ring slot of the packet number reached so far, and none crosses the end of the buffer. */
  predicate Consecutive(first: nat, items: seq<WorkItem>)
    decreases |items|
  {
    items != [] ==>
      && items[0].offset == SlotOffset(first)
      && InBuffer(items[0])
      && Consecutive(first + items[0].count, items[1..])
  }

  /** The bytes a list of consecutive items addresses in the back buffer. */
  function Gather(mem: seq<Byte>, first: nat, items: seq<WorkItem>): seq<Byte>
    requires Consecutive(first, items) && |mem| == BUFFER_SIZE
    decreases |items|
  {
    if items == [] then []
    else SpanBytes(mem, items[0]) + Gather(mem, first + items[0].count, items[1..])
  }

  lemma SpansAreConsecutive(r: nat, n: nat)
    requires r <= n <= r + MAX_AHEAD
    ensures Consecutive(r, Spans(r, n))
    ensures TotalCount(Spans(r, n)) == n - r
  {
    var items, s := Spans(r, n), r % RING_PACKETS;
    if items != [] {
      assert TotalCount(items) == items[0].count + TotalCount(items[1..]);
    }
    if |items| == 2 {
      assert items[1..][1..] == [];
      assert (r + (RING_PACKETS - s)) % RING_PACKETS == 0;
    }
  }

  lemma {:induction false} ConsecutiveAppend(first: nat, a: seq<WorkItem>, b: seq<WorkItem>)
    requires Consecutive(first, a) && Consecutive(first + TotalCount(a), b)
    ensures Consecutive(first, a + b)
    ensures TotalCount(a + b) == TotalCount(a) + TotalCount(b)
    decreases |a|
  {
    if a == [] {
      assert a + b == b;
    } else {
      ConsecutiveAppend(first + a[0].count, a[1..], b);
      assert (a + b)[1..] == a[1..] + b;
    }
  }

  // ----- what the buffer holds -----------------------------------------------------------

  ghost predicate ByteHeld(mem: seq<Byte>, stream: seq<Byte>, i: nat)
    requires |mem| == BUFFER_SIZE && i < |stream|
  {
    mem[i % BUFFER_SIZE] == stream[i]
  }

  /** The ring holds the most recent BUFFER_SIZE bytes of the stream. */
  ghost predicate Holds(mem: seq<Byte>, stream: seq<Byte>) {
    && |mem| == BUFFER_SIZE
    && forall i :: 0 <= i < |stream| && |stream| - BUFFER_SIZE <= i ==> ByteHeld(mem, stream, i)
  }

  /** The bytes of packet r and of those behind it lie together up to the end of the buffer. */
  lemma SlotAddress(r: nat, j: nat)
    requires SlotOffset(r) + j < BUFFER_SIZE
    ensures (PACKET_SIZE * r + j) % BUFFER_SIZE == SlotOffset(r) + j
  {
    var q, s := r / RING_PACKETS, r % RING_PACKETS;
    assert PACKET_SIZE * r + j == BUFFER_SIZE * q + (PACKET_SIZE * s + j);
  }

  /** A span that starts at packet r holds exactly the stream's bytes from that packet on. */
  lemma SpanHoldsStream(mem: seq<Byte>, stream: seq<Byte>, r: nat, it: WorkItem)
    requires Holds(mem, stream)
    requires it.offset == SlotOffset(r) && InBuffer(it)
    requires PACKET_SIZE * (r + it.count) <= |stream| <= PACKET_SIZE * r + BUFFER_SIZE
    ensures SpanBytes(mem, it) == stream[PACKET_SIZE * r..PACKET_SIZE * (r + it.count)]
  {
    var wanted := stream[PACKET_SIZE * r..PACKET_SIZE * (r + it.count)];
    forall j | 0 <= j < |wanted|
      ensures SpanBytes(mem, it)[j] == wanted[j]
    {
      SlotAddress(r, j);
      assert ByteHeld(mem, stream, PACKET_SIZE * r + j);
    }
  }

  lemma Adjacent<T>(s: seq<T>, a: nat, b: nat, c: nat, left: seq<T>, right: seq<T>)
    requires a <= b <= c <= |s|
    requires left == s[a..b] && right == s[b..c]
    ensures left + right == s[a..c]
  {
  }

  lemma {:induction false} ItemsHoldStream(mem: seq<Byte>, stream: seq<Byte>, r: nat, items: seq<WorkItem>)
    requires Holds(mem, stream) && Consecutive(r, items)
    requires PACKET_SIZE * (r + TotalCount(items)) <= |stream| <= PACKET_SIZE * r + BUFFER_SIZE
    ensures Gather(mem, r, items) == stream[PACKET_SIZE * r..PACKET_SIZE * (r + TotalCount(items))]
    decreases |items|
  {
    if items != [] {
      SpanHoldsStream(mem, stream, r, items[0]);
      ItemsHoldStream(mem, stream, r + items[0].count, items[1..]);
      var m, n := r + items[0].count, r + TotalCount(items);
      Adjacent(stream, PACKET_SIZE * r, PACKET_SIZE * m, PACKET_SIZE * n,
               SpanBytes(mem, items[0]), Gather(mem, m, items[1..]));
    }
  }

  // ----- runs of the ring ----------------------------------------------------------------

  /** The ring as seen from outside: the byte stream of the current DMA epoch, the back buffer,
      the packets handed on so far, the firmware's pread cell, the items queued and (history) the
      bytes they addressed at the moment they were queued. */
  datatype Ring = Ring(stream: seq<Byte>, mem: seq<Byte>, packetsRead: nat, pread: nat,
                       items: seq<WorkItem>, data: seq<Byte>)

  datatype RingEvent =
    | Dma(value: Byte)   // the hardware stores one byte
    | Ack                // the firmware takes over pread
    | Poll               // the timer runs and finds nothing discarded
    | Restart            // the timer runs and finds discarded packets

  function Complete(s: Ring): nat { |s.stream| / PACKET_SIZE }

  predicate RingEnabled(s: Ring, e: RingEvent) {
    e.Dma? ==> (|s.stream| + 1) / PACKET_SIZE <= s.packetsRead + MAX_AHEAD
  }

  /** The items a poll adds. */
  function NewItems(s: Ring): seq<WorkItem>
    requires s.packetsRead <= Complete(s) <= s.packetsRead + MAX_AHEAD
  {
    if s.pread == 0 then Spans(s.packetsRead, Complete(s)) else []
  }

  ghost function RingStep(s: Ring, e: RingEvent): Ring
    requires RingInv(s)
  {
    match e
    case Dma(value) => s.(stream := s.stream + [value], mem := s.mem[|s.stream| % BUFFER_SIZE := value])
    case Ack => s.(pread := 0)
    case Poll =>
      if s.pread != 0 || Complete(s) == s.packetsRead then s
      else
        SpansAreConsecutive(s.packetsRead, Complete(s));
        s.(packetsRead := Complete(s), pread := Complete(s) - s.packetsRead,
           items := s.items + NewItems(s), data := s.data + Gather(s.mem, s.packetsRead, NewItems(s)))
    case Restart => Ring([], s.mem, 0, 0, [], [])
  }

  ghost predicate RingInv(s: Ring) {
    && Holds(s.mem, s.stream)
    && s.packetsRead <= Complete(s) <= s.packetsRead + MAX_AHEAD
    && Consecutive(0, s.items)
    && TotalCount(s.items) == s.packetsRead
    && s.data == s.stream[..PACKET_SIZE * s.packetsRead]
  }

  lemma DmaKeepsHolds(mem: seq<Byte>, stream: seq<Byte>, value: Byte)
    requires Holds(mem, stream)
    ensures Holds(mem[|stream| % BUFFER_SIZE := value], stream + [value])
  {
    var mem', stream' := mem[|stream| % BUFFER_SIZE := value], stream + [value];
    forall i | 0 <= i < |stream'| && |stream'| - BUFFER_SIZE <= i
      ensures ByteHeld(mem', stream', i)
    {
      if i < |stream| {
        assert ByteHeld(mem, stream, i);
        DistinctSlots(i, |stream|);
      }
    }
  }

  lemma PollKeepsInv(s: Ring)
    requires RingInv(s) && s.pread == 0
    ensures RingInv(RingStep(s, Poll))
  {
    SpansAreConsecutive(s.packetsRead, Complete(s));
    ConsecutiveAppend(0, s.items, NewItems(s));
    ItemsHoldStream(s.mem, s.stream, s.packetsRead, NewItems(s));
  }

  lemma RingStepKeepsInv(s: Ring, e: RingEvent)
    requires RingInv(s) && RingEnabled(s, e)
    ensures RingInv(RingStep(s, e))
  {
    match e
    case Dma(value) => DmaKeepsHolds(s.mem, s.stream, value);
    case Ack =>
    case Poll => if s.pread == 0 { PollKeepsInv(s); }
    case Restart =>
  }

  lemma DistinctSlots(i: nat, j: nat)
    requires i < j < i + BUFFER_SIZE
    ensures i % BUFFER_SIZE != j % BUFFER_SIZE
  {
    var q := i / BUFFER_SIZE;
    assert j / BUFFER_SIZE == q || j / BUFFER_SIZE == q + 1;
  }

  /** A poll that finds pread not yet taken over only waits: the next one after the firmware's
      acknowledgement hands on everything that is complete by then. */
  lemma AckThenPollCatchesUp(s: Ring)
    requires RingInv(s)
    ensures s.pread != 0 ==> RingStep(s, Poll) == s
    ensures RingInv(RingStep(s, Ack))
    ensures var t := RingStep(RingStep(s, Ack), Poll);
            t.packetsRead == Complete(s) && t.data == s.stream[..PACKET_SIZE * Complete(s)]
  {
    RingStepKeepsInv(s, Ack);
    RingStepKeepsInv(RingStep(s, Ack), Poll);
  }

  ghost predicate RingLink(s: Ring, e: RingEvent, t: Ring) {
    RingInv(s) ==> RingEnabled(s, e) && t == RingStep(s, e)
  }

  ghost predicate RingRun(states: seq<Ring>, events: seq<RingEvent>) {
    && |states| == |events| + 1
    && (exists mem: seq<Byte> :: |mem| == BUFFER_SIZE && states[0] == Ring([], mem, 0, 0, [], []))
    && forall k :: 0 <= k < |events| ==> RingLink(states[k], events[k], states[k + 1])
  }

  /** Over every run: no packet is skipped, repeated or reordered. */
  lemma {:induction false} RunQueuesStreamInOrder(states: seq<Ring>, events: seq<RingEvent>, k: nat)
    requires RingRun(states, events) && k < |states|
    ensures RingInv(states[k])
    ensures var s := states[k];
            && Consecutive(0, s.items) && TotalCount(s.items) == s.packetsRead
            && s.data == s.stream[..PACKET_SIZE * s.packetsRead]
    decreases k
  {
    if k > 0 {
      RunQueuesStreamInOrder(states, events, k - 1);
      assert RingLink(states[k - 1], events[k - 1], states[k - 1 + 1]);
      RingStepKeepsInv(states[k - 1], events[k - 1]);
    }
  }

  // ----- the polling function ------------------------------------------------------------

  class DmaPoller {
    const base: nat                  // dma_0_buffer_base
    const top: nat                   // dma_0_buffer_top
    var rp: nat                      // dma_0_buffer_rp
    var readRegister: nat            // PTI_DMA_0_READ
    var pread: nat                   // firmware cell
    var workQueue: array<WorkItem>
    var readIndex: nat               // moved by the injector only
    var writeIndex: nat
    var tokens: nat                  // count of workSem
    var errCount: nat
    ghost var packetsRead: nat       // packets of this DMA epoch handed on so far

    ghost predicate Valid()
      reads this, workQueue
    {
      && top == base + BUFFER_SIZE < 0x1_0000_0000
      && workQueue.Length == QUEUE_SIZE && WellFormed(WorkQueue())
      && rp == base + SlotOffset(packetsRead)
    }

    constructor (base: nat)
      requires base + BUFFER_SIZE < 0x1_0000_0000
      ensures Valid() && fresh(workQueue)
      ensures packetsRead == 0 && pread == 0 && tokens == 0 && readIndex == writeIndex == 0
      ensures this.base == base && top == base + 194 * 4096 && rp == readRegister == base && workQueue.Length == 400
    {
      this.base := base;
      top := base + BUFFER_SIZE;
      rp, readRegister, pread, tokens, readIndex, writeIndex, errCount := base, base, 0, 0, 0, 0, 0;
      packetsRead := 0;
      workQueue := new WorkItem[QUEUE_SIZE](_ => WorkItem(0, 0));
    }

    function WorkQueue(): Queue<WorkItem>
      reads this, workQueue
    {
      Queue(workQueue[..], readIndex, writeIndex, tokens)
    }

    /** One entry of the work queue: write it, move on, up(&workSem). */
    method Enqueue(it: WorkItem)
      requires Valid()
      modifies this`writeIndex, this`tokens, workQueue
      ensures Valid()
      ensures WorkQueue() == Push(old(WorkQueue()), it)
    {
      workQueue[writeIndex] := it;
      writeIndex := (writeIndex + 1) % QUEUE_SIZE;
      tokens := tokens + 1;
    }

    /** Hand the packets up to number n to the injector, as one span or split at the wrap. */
    method NotifyInjector(bufferRound: bool, numPackets: nat, ghost n: nat)
      requires Valid()
      requires packetsRead <= n <= packetsRead + MAX_AHEAD
      requires numPackets == n - packetsRead != 0
      requires bufferRound <==> SlotOffset(n) < SlotOffset(packetsRead)
      modifies this`writeIndex, this`tokens, workQueue
      ensures Valid()
      ensures WorkQueue() == PushAll(old(WorkQueue()), Spans(packetsRead, n))
    {
      PointersShowSpans(base, packetsRead, n);
      if bufferRound {
        var numPackets1 := (top - rp) / PACKET_SIZE;
        PushAllTwo(WorkQueue(), WorkItem(rp - base, numPackets1), WorkItem(0, numPackets - numPackets1));
        Enqueue(WorkItem(rp - base, numPackets1));
        Enqueue(WorkItem(0, numPackets - numPackets1));
      } else {
        PushAllTwo(WorkQueue(), WorkItem(rp - base, numPackets), WorkItem(0, 0));
        Enqueue(WorkItem(rp - base, numPackets));
      }
    }

    /** The bytes in use, as a number of packets, and whether they wrap. */
    method PacketsWaiting(wp: nat, ghost n: nat) returns (numPackets: nat, bufferRound: bool)
      requires Valid()
      requires packetsRead <= n <= packetsRead + MAX_AHEAD
      requires wp == base + SlotOffset(n)
      ensures numPackets == n - packetsRead
      ensures bufferRound <==> SlotOffset(n) < SlotOffset(packetsRead)
    {
      PointersShowSpans(base, packetsRead, n);
      bufferRound := !(rp <= wp);
      if rp <= wp {
        numPackets := (wp - rp) / PACKET_SIZE;
      } else {
        numPackets := (top - rp + (wp - base)) / PACKET_SIZE;
      }
    }

    /** One run of the timer. `written` counts the bytes the hardware has stored in this epoch;
        the write register holds its position in the ring. */
    method Poll(writeRegister: nat, fifoFull: bool, discard: nat, ghost written: nat)
      requires Valid()
      requires writeRegister == base + written % BUFFER_SIZE
      requires packetsRead <= written / PACKET_SIZE <= packetsRead + MAX_AHEAD
      modifies this, workQueue
      ensures Valid() && workQueue == old(workQueue)
      ensures discard > 0 ==> packetsRead == 0 && pread == 0 && readRegister == base
      ensures discard > 0 || old(pread) != 0 ==> WorkQueue() == old(WorkQueue())
      ensures discard == 0 && old(pread) != 0 ==>
        pread == old(pread) && packetsRead == old(packetsRead) && readRegister == old(readRegister)
      ensures discard == 0 && old(pread) == 0 ==>
        && packetsRead == written / PACKET_SIZE
        && pread == packetsRead - old(packetsRead)
        && readRegister == (if pread == 0 then old(readRegister) else base + SlotOffset(packetsRead))
        && WorkQueue() == PushAll(old(WorkQueue()), Spans(old(packetsRead), packetsRead))
      ensures errCount == old(errCount) + (if fifoFull then 1 else 0) + (if discard > 0 then 1 else 0)
    {
      ghost var n := written / PACKET_SIZE;
      var wp := writeRegister - (writeRegister - base) % PACKET_SIZE;
      AlignedWritePointer(written);
      if fifoFull {
        errCount := errCount + 1;
      }
      if discard > 0 {
        errCount := errCount + 1;
        rp, readRegister, pread := base, base, 0;
        packetsRead := 0;
        return;
      }
      ReadPointerBelowTop(base, packetsRead);
      var start: int := if rp / 16 == top / 16 then base else rp;     // (rp & ~0xf) == (top & ~0xf)
      rp := start;
      var numPackets, bufferRound := PacketsWaiting(wp, n);
      if numPackets != 0 && pread == 0 {
        readRegister := wp;
        pread := numPackets;
        NotifyInjector(bufferRound, numPackets, n);
        rp := wp;
        packetsRead := n;
      }
    }
  }

  lemma ByPacket(x: nat, q: nat, c: nat)
    requires x == PACKET_SIZE * q + c && c < PACKET_SIZE
    ensures x / PACKET_SIZE == q && x % PACKET_SIZE == c
  {
  }

  lemma ByRing(x: nat, q: nat, s: nat)
    requires x == RING_PACKETS * q + s && s < RING_PACKETS
    ensures x % RING_PACKETS == s
  {
  }

  lemma AlignedWritePointer(written: nat)
    ensures written % BUFFER_SIZE - written % BUFFER_SIZE % PACKET_SIZE == SlotOffset(written / PACKET_SIZE)
  {
    var q, m := written / BUFFER_SIZE, written % BUFFER_SIZE;
    var a, c := m / PACKET_SIZE, m % PACKET_SIZE;
    ByPacket(written, RING_PACKETS * q + a, c);
    ByRing(RING_PACKETS * q + a, q, a);
  }

  lemma ReadPointerBelowTop(base: nat, r: nat)
    ensures (base + SlotOffset(r)) / 16 != (base + BUFFER_SIZE) / 16
  {
  }

  /** What the pointer arithmetic of a poll computes from the slots of packets r and n. */
  lemma PointersShowSpans(base: nat, r: nat, n: nat)
    requires r <= n <= r + MAX_AHEAD
    ensures var rp, wp, top := base + SlotOffset(r), base + SlotOffset(n), base + BUFFER_SIZE;
            && (rp <= wp ==>
                 && (wp - rp) / PACKET_SIZE == n - r
                 && Spans(r, n) == if r == n then [] else [WorkItem(rp - base, n - r)])
            && (rp > wp ==>
                 && (top - rp + (wp - base)) / PACKET_SIZE == n - r
                 && (top - rp) / PACKET_SIZE <= n - r
                 && Spans(r, n) == [WorkItem(rp - base, (top - rp) / PACKET_SIZE),
                                    WorkItem(0, n - r - (top - rp) / PACKET_SIZE)])
  {
    var q, s := r / RING_PACKETS, r % RING_PACKETS;
    if s + (n - r) < RING_PACKETS {
      ByRing(n, q, s + (n - r));
    } else {
      ByRing(n, q + 1, s + (n - r) - RING_PACKETS);
    }
    ByPacket(PACKET_SIZE * (n - r), n - r, 0);
    ByPacket(PACKET_SIZE * (RING_PACKETS - s), RING_PACKETS - s, 0);
  }
}
