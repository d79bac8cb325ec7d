/** The whole way of a packet (pti/pti_main.c): DMA ring, polling timer, work queue, injector
    thread, demultiplexers, with every step free to come between any two steps of the others.
    The driver assumes a fast injector (lines 144-147): here that means that the hardware does not
    run into a span that still waits, and that at most 400 entries wait. */
module PtiPipeline {
  import opened Bytes
  import opened PtiLayout
  import opened PtiPackets
  import opened PtiQueue
  import opened PtiRing
  import opened PtiInject

  /** `out` lists, by tag, all the bytes the tag's demultiplexer got; `injected` counts the packets
      the injector is through with, `sorted` tells whether the entry at hand is among them. */
  datatype Pipeline = Pipeline(ring: Ring, queue: State<WorkItem>, sorted: bool, injected: nat, out: seq<seq<Byte>>)

  datatype Move =
    | Hardware(value: Byte)             // the DMA stores a byte
    | Firmware                          // pread is taken over
    | PollTimer                         // process_pti_dma
    | Thread(e: Event<WorkItem>)        // a step of the injector around the queue
    | Sort                              // the injector sorts and delivers the entry at hand

  predicate Room(s: Pipeline) {
    |s.ring.stream| < PACKET_SIZE * s.injected + BUFFER_SIZE
  }

  ghost predicate Allowed(s: Pipeline, m: Move) {
    match m
    case Hardware(value) => RingEnabled(s.ring, Dma(value)) && Room(s)
    case Firmware => true
    case PollTimer => Outstanding(s.queue) + 2 <= PtiQueue.QUEUE_SIZE
    case Thread(e) => !e.Timer? && Enabled(s.queue, e) && (e.Advance? ==> s.sorted)
    case Sort => s.queue.injector.Working? && !s.sorted
  }

  /** The timer's pushes, one after the other. */
  function TimerAll(s: State<WorkItem>, items: seq<WorkItem>): (s': State<WorkItem>)
    requires WellFormed(s.q)
    ensures WellFormed(s'.q) && s'.q == PushAll(s.q, items)
    ensures s'.pushed == s.pushed + items && s'.(q := s.q, pushed := s.pushed) == s
    decreases |items|
  {
    if items == [] then s else TimerAll(Step(s, Timer(items[0])), items[1..])
  }

  /** The packets of the stream so far. */
  function StreamPackets(s: Pipeline, n: nat): seq<seq<Byte>>
    requires PACKET_SIZE * n <= |s.ring.stream|
  {
    PacketsAt(s.ring.stream, 0, n)
  }

  function Through(queue: State<WorkItem>, sorted: bool): nat
    requires queue.done + 1 <= |queue.pushed| || !sorted
    requires queue.done <= |queue.pushed|
  {
    TotalCount(queue.pushed[..queue.done + if sorted then 1 else 0])
  }

  /** What Injector.SortItem adds for one entry. */
  function Delivered(out: seq<seq<Byte>>, packets: seq<seq<Byte>>, registered: seq<bool>): (out': seq<seq<Byte>>)
    requires |out| == |registered| == TAG_COUNT
    ensures |out'| == TAG_COUNT && forall t :: 0 <= t < TAG_COUNT ==> out'[t] == out[t] + Wanted(packets, registered, t)
  {
    [out[0] + Wanted(packets, registered, 0), out[1] + Wanted(packets, registered, 1),
     out[2] + Wanted(packets, registered, 2), out[3] + Wanted(packets, registered, 3)]
  }

  ghost predicate PipeInv(s: Pipeline, registered: seq<bool>) {
    && |registered| == |s.out| == TAG_COUNT
    && RingInv(s.ring)
    && PtiQueue.Inv(s.queue) && TakenInOrder(s.queue) && Outstanding(s.queue) <= PtiQueue.QUEUE_SIZE
    && s.queue.pushed == s.ring.items
    && (s.sorted ==> s.queue.injector.Working?)
    && s.injected == Through(s.queue, s.sorted) <= s.ring.packetsRead
    && |s.ring.stream| <= PACKET_SIZE * s.injected + BUFFER_SIZE
    && OutIs(s.out, StreamPackets(s, s.injected), registered)
  }

  ghost function Go(s: Pipeline, m: Move, registered: seq<bool>): Pipeline
    requires PipeInv(s, registered) && Allowed(s, m)
  {
    match m
    case Hardware(value) => s.(ring := RingStep(s.ring, Dma(value)))
    case Firmware => s.(ring := RingStep(s.ring, Ack))
    case PollTimer =>
      s.(ring := RingStep(s.ring, Poll), queue := TimerAll(s.queue, NewItems(s.ring)))
    case Thread(e) => s.(queue := Step(s.queue, e), sorted := s.sorted && !e.Advance?)
    case Sort =>
      var it := s.queue.injector.item;
      assert InBuffer(it) by { ItemAt(s.ring.items, s.queue.done); }
      var packets := PacketsAt(s.ring.mem, it.offset, it.count);
      s.(sorted := true, injected := s.injected + it.count, out := Delivered(s.out, packets, registered))
  }

  // ----- where an entry lies -------------------------------------------------------------

  lemma {:induction false} CountAfter(items: seq<WorkItem>, k: nat)
    requires k < |items|
    ensures TotalCount(items[..k + 1]) == TotalCount(items[..k]) + items[k].count
    decreases k
  {
    if k > 0 {
      CountAfter(items[1..], k - 1);
      assert items[..k][1..] == items[1..][..k - 1] && items[..k + 1][1..] == items[1..][..k];
    } else {
      assert items[..1][1..] == [] && items[..0] == [];
    }
  }

  lemma {:induction false} CountGrows(items: seq<WorkItem>, k: nat)
    requires k <= |items|
    ensures TotalCount(items[..k]) <= TotalCount(items)
    decreases |items| - k
  {
    if k < |items| {
      CountAfter(items, k);
      CountGrows(items, k + 1);
    } else {
      assert items[..k] == items;
    }
  }

  lemma {:induction false} ConsecutiveAt(first: nat, items: seq<WorkItem>, k: nat)
    requires Consecutive(first, items) && k < |items|
    ensures items[k].offset == SlotOffset(first + TotalCount(items[..k])) && InBuffer(items[k])
    decreases k
  {
    if k > 0 {
      ConsecutiveAt(first + items[0].count, items[1..], k - 1);
      assert items[..k][1..] == items[1..][..k - 1];
    } else {
      assert items[..0] == [];
    }
  }

  lemma ItemAt(items: seq<WorkItem>, k: nat)
    requires Consecutive(0, items) && k < |items|
    ensures items[k].offset == SlotOffset(TotalCount(items[..k])) && InBuffer(items[k])
    ensures TotalCount(items[..k]) + items[k].count <= TotalCount(items)
  {
    ConsecutiveAt(0, items, k);
    CountAfter(items, k);
    CountGrows(items, k + 1);
  }

  // ----- packets of the stream -----------------------------------------------------------

  lemma PacketsGrow(stream: seq<Byte>, value: Byte, n: nat)
    requires PACKET_SIZE * n <= |stream|
    ensures PacketsAt(stream + [value], 0, n) == PacketsAt(stream, 0, n)
  {
    forall k | 0 <= k < n
      ensures PacketsAt(stream + [value], 0, n)[k] == PacketsAt(stream, 0, n)[k]
    {
      PacketAt(stream + [value], 0, n, k, PACKET_SIZE * k);
      PacketAt(stream, 0, n, k, PACKET_SIZE * k);
    }
  }

  lemma PacketsJoin(stream: seq<Byte>, a: nat, n: nat)
    requires PACKET_SIZE * (a + n) <= |stream|
    ensures PacketsAt(stream, 0, a + n) == PacketsAt(stream, 0, a) + PacketsAt(stream, PACKET_SIZE * a, n)
  {
  }

  // ----- every move keeps the invariant --------------------------------------------------

  lemma HardwareKeeps(s: Pipeline, value: Byte, registered: seq<bool>)
    requires PipeInv(s, registered) && Allowed(s, Hardware(value))
    ensures PipeInv(Go(s, Hardware(value), registered), registered)
  {
    RingStepKeepsInv(s.ring, Dma(value));
    PacketsGrow(s.ring.stream, value, s.injected);
  }

  lemma {:induction false} TimerAllKeeps(s: State<WorkItem>, items: seq<WorkItem>)
    requires PtiQueue.Inv(s) && TakenInOrder(s)
    ensures PtiQueue.Inv(TimerAll(s, items)) && TakenInOrder(TimerAll(s, items))
    decreases |items|
  {
    if items != [] {
      StepKeepsInv(s, Timer(items[0]));
      TimerAllKeeps(Step(s, Timer(items[0])), items[1..]);
    }
  }

  lemma PollResult(ring: Ring)
    requires RingInv(ring)
    ensures var t := RingStep(ring, Poll);
            && RingInv(t) && t.stream == ring.stream && t.mem == ring.mem
            && t.items == ring.items + NewItems(ring) && |NewItems(ring)| <= 2
            && ring.packetsRead <= t.packetsRead
  {
    RingStepKeepsInv(ring, Poll);
    assert ring.items + [] == ring.items;
  }

  lemma ThroughGrows(queue: State<WorkItem>, queue': State<WorkItem>, sorted: bool)
    requires queue.done <= |queue.pushed| && (sorted ==> queue.done < |queue.pushed|)
    requires queue.pushed <= queue'.pushed && queue'.done == queue.done
    ensures Through(queue', sorted) == Through(queue, sorted)
  {
    var n := queue.done + if sorted then 1 else 0;
    assert queue'.pushed[..n] == queue.pushed[..n];
  }

  lemma TimerKeeps(s: Pipeline, registered: seq<bool>)
    requires PipeInv(s, registered) && Allowed(s, PollTimer)
    ensures PipeInv(Go(s, PollTimer, registered), registered)
  {
    PollResult(s.ring);
    TimerAllKeeps(s.queue, NewItems(s.ring));
    ThroughGrows(s.queue, TimerAll(s.queue, NewItems(s.ring)), s.sorted);
  }

  lemma ThreadKeeps(s: Pipeline, e: Event<WorkItem>, registered: seq<bool>)
    requires PipeInv(s, registered) && Allowed(s, Thread(e))
    ensures PipeInv(Go(s, Thread(e), registered), registered)
  {
    ThreadMoves(s.queue, s.sorted, e);
  }

  /** A step of the injector leaves the entries it is through with the same, until it has sorted the one
      at hand and advances past it. */
  lemma ThreadMoves(s: State<WorkItem>, sorted: bool, e: Event<WorkItem>)
    requires PtiQueue.Inv(s) && TakenInOrder(s) && Outstanding(s) <= PtiQueue.QUEUE_SIZE
    requires Enabled(s, e) && !e.Timer? && (e.Advance? ==> sorted) && (sorted ==> s.injector.Working?)
    ensures var t, sorted' := Step(s, e), sorted && !e.Advance?;
            && PtiQueue.Inv(t) && TakenInOrder(t) && Outstanding(t) <= PtiQueue.QUEUE_SIZE && t.pushed == s.pushed
            && (sorted' ==> t.injector.Working?) && Through(t, sorted') == Through(s, sorted)
  {
    StepKeepsInv(s, e);
    if e.Copy? {
      CopyTakes(s);
    }
  }

  /** The entry at hand holds the stream's next packets. */
  lemma EntryIsNext(s: Pipeline, registered: seq<bool>)
    requires PipeInv(s, registered) && Allowed(s, Sort)
    ensures var it, r := s.queue.injector.item, s.injected;
            && InBuffer(it)
            && r + it.count <= s.ring.packetsRead
            && r + it.count == Through(s.queue, true)
            && StreamPackets(s, r + it.count) == StreamPackets(s, r) + PacketsAt(s.ring.mem, it.offset, it.count)
  {
    HandOnRing(s.ring, s.queue, s.injected);
  }

  lemma HandOnRing(ring: Ring, queue: State<WorkItem>, r: nat)
    requires RingInv(ring) && queue.pushed == ring.items && TakenInOrder(queue) && queue.injector.Working?
    requires r == Through(queue, false) && |ring.stream| <= PACKET_SIZE * r + BUFFER_SIZE
    ensures var it := queue.injector.item;
            && InBuffer(it) && r + it.count <= ring.packetsRead && r + it.count == Through(queue, true)
            && PacketsAt(ring.stream, 0, r + it.count) == PacketsAt(ring.stream, 0, r) + PacketsAt(ring.mem, it.offset, it.count)
  {
    EntryOnRing(ring, queue.done, r, queue.injector.item);
  }

  lemma EntryOnRing(ring: Ring, done: nat, r: nat, it: WorkItem)
    requires RingInv(ring) && done < |ring.items| && it == ring.items[done]
    requires r == TotalCount(ring.items[..done]) && |ring.stream| <= PACKET_SIZE * r + BUFFER_SIZE
    ensures InBuffer(it) && r + it.count <= ring.packetsRead
    ensures r + it.count == TotalCount(ring.items[..done + 1])
    ensures PacketsAt(ring.stream, 0, r + it.count) == PacketsAt(ring.stream, 0, r) + PacketsAt(ring.mem, it.offset, it.count)
  {
    ItemAt(ring.items, done);
    CountAfter(ring.items, done);
    SpanIsStream(ring, r, it);
  }

  lemma SpanIsStream(ring: Ring, r: nat, it: WorkItem)
    requires RingInv(ring) && it.offset == SlotOffset(r) && InBuffer(it)
    requires r + it.count <= ring.packetsRead && |ring.stream| <= PACKET_SIZE * r + BUFFER_SIZE
    ensures PacketsAt(ring.stream, 0, r + it.count) == PacketsAt(ring.stream, 0, r) + PacketsAt(ring.mem, it.offset, it.count)
  {
    SpanHoldsStream(ring.mem, ring.stream, r, it);
    PacketsSame(ring.mem, it.offset, ring.stream, PACKET_SIZE * r, it.count);
    PacketsJoin(ring.stream, r, it.count);
  }

  ghost predicate OutIs(out: seq<seq<Byte>>, packets: seq<seq<Byte>>, registered: seq<bool>) {
    && |out| == |registered| == TAG_COUNT
    && forall t :: 0 <= t < TAG_COUNT ==> out[t] == Wanted(packets, registered, t)
  }

  lemma DeliveredJoins(out: seq<seq<Byte>>, a: seq<seq<Byte>>, b: seq<seq<Byte>>, registered: seq<bool>)
    requires OutIs(out, a, registered)
    ensures OutIs(Delivered(out, b, registered), a + b, registered)
  {
    forall t: nat | t < TAG_COUNT
      ensures Wanted(a + b, registered, t) == Wanted(a, registered, t) + Wanted(b, registered, t)
    {
      PayloadsAppend(a, b, t);
    }
  }

  lemma SortKeeps(s: Pipeline, registered: seq<bool>)
    requires PipeInv(s, registered) && Allowed(s, Sort)
    ensures PipeInv(Go(s, Sort, registered), registered)
  {
    EntryIsNext(s, registered);
    var it := s.queue.injector.item;
    DeliveredJoins(s.out, StreamPackets(s, s.injected), PacketsAt(s.ring.mem, it.offset, it.count), registered);
  }

  lemma MoveKeeps(s: Pipeline, m: Move, registered: seq<bool>)
    requires PipeInv(s, registered) && Allowed(s, m)
    ensures PipeInv(Go(s, m, registered), registered)
  {
    match m
    case Hardware(value) => HardwareKeeps(s, value, registered);
    case Firmware => RingStepKeepsInv(s.ring, Ack);
    case PollTimer => TimerKeeps(s, registered);
    case Thread(e) => ThreadKeeps(s, e, registered);
    case Sort => SortKeeps(s, registered);
  }

  // ----- whole runs ----------------------------------------------------------------------

  ghost predicate Start(s: Pipeline) {
    && |s.ring.mem| == BUFFER_SIZE && s.ring == Ring([], s.ring.mem, 0, 0, [], [])
    && Initial(s.queue) && !s.sorted && s.injected == 0 && s.out == [[], [], [], []]
  }

  ghost predicate Link(s: Pipeline, m: Move, t: Pipeline, registered: seq<bool>) {
    PipeInv(s, registered) ==> Allowed(s, m) && t == Go(s, m, registered)
  }

  ghost predicate PipeRun(states: seq<Pipeline>, moves: seq<Move>, registered: seq<bool>) {
    && |states| == |moves| + 1 && |registered| == TAG_COUNT
    && Start(states[0])
    && forall k :: 0 <= k < |moves| ==> Link(states[k], moves[k], states[k + 1], registered)
  }

  /** In every run, every demultiplexer has got exactly its tag's packets among the first ones of
      the stream, each once, whole, without the header and in order. */
  lemma {:induction false} DeliveredInOrder(states: seq<Pipeline>, moves: seq<Move>, registered: seq<bool>, k: nat)
    requires PipeRun(states, moves, registered) && k < |states|
    ensures PipeInv(states[k], registered)
    ensures var s := states[k];
            forall t :: 0 <= t < TAG_COUNT ==> s.out[t] == Wanted(PacketsAt(s.ring.stream, 0, s.injected), registered, t)
    decreases k
  {
    if k == 0 {
      assert InvAt(states[0].queue, 0);
      assert states[0].queue.pushed[..0] == [];
    } else {
      DeliveredInOrder(states, moves, registered, k - 1);
      assert Link(states[k - 1], moves[k - 1], states[k - 1 + 1], registered);
      MoveKeeps(states[k - 1], moves[k - 1], registered);
    }
  }

  /** And said of the packets as the merger sent them: each demultiplexer has got the payloads of those whose
      header carries its tag. */
  lemma {:induction false} DeliveredAsSent(states: seq<Pipeline>, moves: seq<Move>, registered: seq<bool>, k: nat, sent: seq<Packet>)
    requires PipeRun(states, moves, registered) && k < |states|
    requires |sent| == states[k].injected && Flat(sent) <= states[k].ring.stream
    ensures |states[k].out| == 4
    ensures forall t :: 0 <= t < 4 ==> states[k].out[t] == if registered[t] then SentUnder(sent, t) else []
  {
    DeliveredInOrder(states, moves, registered, k);
    PacketsInside(states[k].ring.stream, 0, sent);
    forall t: nat | t < 4
      ensures states[k].out[t] == if registered[t] then SentUnder(sent, t) else []
    {
      PayloadsAreSent(sent, t);
    }
  }

  /** When the injector is through with the queue, everything that the polls have handed on has been
      delivered; after a poll with pread acknowledged that is every complete packet. */
  lemma QuietMeansAllDelivered(s: Pipeline, registered: seq<bool>)
    requires PipeInv(s, registered) && s.queue.done == |s.queue.pushed|
    ensures s.injected == s.ring.packetsRead
    ensures forall t :: 0 <= t < TAG_COUNT ==>
              s.out[t] == Wanted(PacketsAt(s.ring.stream, 0, s.ring.packetsRead), registered, t)
    ensures s.ring.pread == 0 ==> RingStep(s.ring, Poll).packetsRead == Complete(s.ring)
  {
    assert s.queue.pushed[..s.queue.done] == s.ring.items;
  }
}
