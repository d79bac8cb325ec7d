/** The serial engine of the smart card driver (smartcard/sci_drv.c): write, read and the interrupt
    handler between a 16 entry FIFO and the buffers of a slot. The card's line is a single wire, so
    everything sent comes back; the read position moves along with every byte sent, past its echo. */
module SciUart {
  import opened Bytes

  const SIZE := 1024           // SCI_BUFFER_SIZE
  const FIFO := 16             // HW_FIFO_SIZE
  const RX := 1                // RX_FULL_IRQ
  const RX_TX := 3             // RX_FULL_TX_EMPTY_IRQ
  const RX_TX_HALF := 7        // TX_HALF_EMPTY_IRQ | RX_FULL_TX_EMPTY_IRQ
  const EWOULDBLOCK := 11

  datatype Convention = Undefined | Direct | Inverse

  function Converted(c: Convention, b: Byte): Byte {
    if c.Inverse? then Inverted(b) else b
  }

  function AllConverted(c: Convention, s: seq<Byte>): (r: seq<Byte>)
    ensures |r| == |s|
  {
    if c.Inverse? then InvertedAll(s) else s
  }

  /** The convention once a byte has come in: until the answer to reset is known, 0x03 and 0x3B set
      it. */
  function Settle(c: Convention, atrReady: bool, b: Byte): Convention {
    if atrReady || c != Undefined then c
    else if b == 0x03 then Inverse
    else if b == 0x3B then Direct
    else c
  }

  lemma AllConvertedAppend(c: Convention, a: seq<Byte>, b: seq<Byte>)
    ensures AllConverted(c, a + b) == AllConverted(c, a) + AllConverted(c, b)
  {
    if c.Inverse? {
      InvertedAllAppend(a, b);
    }
  }

  /** Inverting what was inverted: the card reads what was written. */
  lemma AllConvertedTwice(c: Convention, s: seq<Byte>)
    ensures AllConverted(c, AllConverted(c, s)) == s
  {
    if c.Inverse? {
      InvertedAllTwice(s);
    }
  }

  // ----- the slot and its UART as one state -----------------------------------------------

  /** Where a received byte comes from: the line's echo, the card, or a register that held none. */
  datatype Origin = Echo | Card | Nothing

  /** How far a call of sci_read has come: its bytes are handed out; it has found the positions equal,
      at the mark; it has set the read position back. */
  datatype Phase = Idle | Taken | Equal(mark: nat) | Rewound(mark: nat)

  datatype Sci = Sci(
    pending: seq<Byte>,      // write_buf[tx_wptr..tx_rptr]
    count: nat,              // tx_rptr
    mode: nat,               // irq_mode
    fifo: seq<Byte>,         // in the transmitter
    line: seq<Byte>,         // in the receiver
    held: seq<Byte>,         // read_buf[..rx_rptr]
    origin: seq<Origin>,     // of held + line, byte for byte; the driver cannot see it
    skip: nat,               // rx_wptr
    conv: Convention,        // byte_invert
    atrReady: bool,
    phase: Phase,
    echoes: nat,             // bytes sent whose echoes lie, or will lie, in held
    accepted: seq<Byte>,     // all that was written
    uart: seq<Byte>,         // all that went into the transmitter
    answer: seq<Byte>,       // what the card sent since the last write, converted
    passed: seq<Byte>,       // what of it was read or lost, in order,
    lost: seq<bool>,         // and which of it was lost
    given: seq<Byte>)        // what was read since the last write

  datatype Event =
    | Write(data: seq<Byte>)     // sci_write, with the interrupt disabled
    | Transmit                   // the transmitter passes a byte to the line
    | CardSends(value: Byte)
    | Interrupt
    | Take(n: nat)               // sci_read: n bytes are copied, the read position moves past them,
    | Compare                    // the positions are compared,
    | RewindWptr                 // and set back, if they are equal, one
    | RewindRptr                 // after the other

  predicate Settled(s: Sci) {
    s.atrReady || s.conv != Undefined
  }

  function ReceiveOne(s: Sci): Sci
    requires s.line != []
  {
    var conv := Settle(s.conv, s.atrReady, s.line[0]);
    s.(conv := conv, line := s.line[1..], held := s.held + [Converted(conv, s.line[0])])
  }

  function ReceiveAll(s: Sci): Sci
    decreases |s.line|
  {
    if s.line == [] then s else ReceiveAll(ReceiveOne(s))
  }

  function QueueOne(s: Sci): Sci
    requires s.pending != []
  {
    var b := Converted(s.conv, s.pending[0]);
    s.(pending := s.pending[1..], fifo := s.fifo + [b], uart := s.uart + [b],
       skip := s.skip + 1, echoes := s.echoes + 1)
  }

  function Queue(s: Sci, n: nat): Sci
    decreases n
  {
    if n == 0 || s.pending == [] then s else Queue(QueueOne(s), n - 1)
  }

  lemma QueueNext(s: Sci, n: nat)
    requires n > 0 && s.pending != []
    ensures Queue(s, n) == Queue(QueueOne(s), n - 1)
  {}

  lemma QueueEnds(s: Sci, n: nat)
    requires n == 0 || s.pending == []
    ensures Queue(s, n) == s
  {}

  function Relax(s: Sci): Sci {
    if s.pending == [] then s.(mode := RX) else s
  }

  /** The handler's second half: the flags are those of the transmitter at that time. */
  function Refill(s: Sci): Sci {
    if s.fifo == [] && s.mode in {RX_TX, RX_TX_HALF} then Relax(Queue(s, FIFO))
    else if |s.fifo| <= FIFO / 2 && s.mode == RX_TX_HALF then Relax(Queue(s, FIFO / 2))
    else s
  }

  /** sci_write resets the UART and both buffers. */
  function Written(s: Sci, data: seq<Byte>): Sci {
    var bytes := if |data| <= SIZE then data else data[..SIZE];
    s.(pending := bytes, count := |bytes|, mode := if |bytes| <= FIFO then RX_TX else RX_TX_HALF,
       fifo := [], line := [], held := [], origin := [], skip := 0, echoes := 0,
       accepted := s.accepted + bytes, answer := [], passed := [], lost := [], given := [])
  }

  function Transmitted(s: Sci): Sci
    requires s.fifo != []
  {
    s.(fifo := s.fifo[1..], line := s.line + [s.fifo[0]], origin := s.origin + [Echo])
  }

  function Answering(s: Sci, b: Byte): Sci {
    s.(line := s.line + [b], origin := s.origin + [Card], answer := s.answer + [Converted(s.conv, b)])
  }

  predicate ReadReady(s: Sci) {
    s.skip < |s.held| && s.mode != RX_TX
  }

  /** How many bytes sci_read hands out. */
  function Portion(s: Sci, length: nat): nat
    requires ReadReady(s)
  {
    if length > SIZE then SIZE else if |s.held| - s.skip > length then length else |s.held| - s.skip
  }

  function Flags(n: nat, value: bool): (flags: seq<bool>)
    ensures |flags| == n && forall k :: 0 <= k < n ==> flags[k] == value
  {
    seq(n, _ => value)
  }

  function TakeOut(s: Sci, n: nat): Sci
    requires s.skip + n <= |s.held|
  {
    var bytes := s.held[s.skip..s.skip + n];
    s.(phase := Taken, skip := s.skip + n, given := s.given + bytes,
       passed := s.passed + bytes, lost := s.lost + Flags(n, false))
  }

  function Compared(s: Sci): Sci {
    s.(phase := if s.skip == |s.held| then Equal(s.skip) else Idle)
  }

  /** rx_wptr = 0 */
  function Rewinding(s: Sci): Sci
    requires s.phase.Equal?
  {
    s.(phase := Rewound(s.phase.mark), skip := 0, echoes := 0)
  }

  /** rx_rptr = 0: whatever was stored behind the mark is gone. */
  function Cleared(s: Sci): Sci
    requires s.phase.Rewound? && s.phase.mark <= |s.held| <= |s.origin|
  {
    var gone := s.held[s.phase.mark..];
    s.(phase := Idle, held := [], origin := s.origin[|s.held|..],
       passed := s.passed + gone, lost := s.lost + Flags(|gone|, true))
  }

  /** What can happen. A card speaks only once nothing is on its way to it; a write waits until the one
      before is queued; and one call at a time. */
  predicate Enabled(s: Sci, e: Event) {
    match e
    case Write(_) => s.pending == [] && s.phase == Idle
    case Transmit => s.fifo != []
    case CardSends(_) => s.fifo == [] && s.pending == []
    case Interrupt => true
    case Take(n) => s.phase == Idle && ReadReady(s) && n <= |s.held| - s.skip
    case Compare => s.phase == Taken
    case RewindWptr => s.phase.Equal?
    case RewindRptr => s.phase.Rewound? && s.phase.mark <= |s.held| <= |s.origin|
  }

  function Step(s: Sci, e: Event): Sci
    requires Enabled(s, e)
  {
    match e
    case Write(data) => Written(s, data)
    case Transmit => Transmitted(s)
    case CardSends(b) => Answering(s, b)
    case Interrupt => Refill(ReceiveAll(s))
    case Take(n) => TakeOut(s, n)
    case Compare => Compared(s)
    case RewindWptr => Rewinding(s)
    case RewindRptr => Cleared(s)
  }

  // ----- the invariant -------------------------------------------------------------------

  ghost predicate Sending(s: Sci) {
    && |s.fifo| <= FIFO && |s.pending| <= s.count <= SIZE
    && s.uart + AllConverted(s.conv, s.pending) == AllConverted(s.conv, s.accepted)
  }

  ghost predicate Modes(s: Sci) {
    && s.mode in {RX, RX_TX, RX_TX_HALF}
    && (s.mode == RX ==> s.pending == [])
    && (s.mode != RX && s.pending == [] ==> s.count == 0)
    && (s.mode == RX_TX_HALF ==> s.count > FIFO)
  }

  /** What arrived since the buffers were cleared: echoes of all that left the transmitter, then the
      card's answer. */
  ghost predicate Echoed(s: Sci) {
    && |s.fifo| <= s.echoes <= s.skip
    && s.echoes - |s.fifo| <= |s.origin|
    && (forall k :: 0 <= k < |s.origin| ==> s.origin[k] == if k < s.echoes - |s.fifo| then Echo else Card)
    && (s.fifo != [] || s.pending != [] ==> |s.origin| == s.echoes - |s.fifo| && s.skip == s.echoes)
    && (s.skip == s.echoes || s.skip <= |s.held|)
  }

  /** And inside a call of sci_read, which is past all the echoes: behind the mark lies only answer. */
  ghost predicate Reading(s: Sci) {
    match s.phase
    case Idle => Echoed(s)
    case Taken => Echoed(s) && s.fifo == [] && s.pending == [] && s.skip <= |s.held|
    case Equal(mark) => Echoed(s) && s.fifo == [] && s.pending == [] && s.skip == mark <= |s.held|
    case Rewound(mark) =>
      && s.fifo == [] && s.pending == [] && s.skip == s.echoes == 0 && mark <= |s.held|
      && forall k :: mark <= k < |s.origin| ==> s.origin[k] == Card
  }

  function Front(s: Sci): nat {
    if s.phase.Rewound? then s.phase.mark else s.skip
  }

  /** What the card sent and nobody has read yet. */
  function Unread(s: Sci): seq<Byte> {
    var stored := s.held + AllConverted(s.conv, s.line);
    if Front(s) <= |stored| then stored[Front(s)..] else []
  }

  /** The bytes that are not lost. */
  function Selected(bytes: seq<Byte>, lost: seq<bool>): seq<Byte>
    requires |bytes| == |lost|
  {
    if bytes == [] then []
    else
      var n := |bytes| - 1;
      Selected(bytes[..n], lost[..n]) + if lost[n] then [] else [bytes[n]]
  }

  /** The answer in order: what is through, read or lost, and the rest. */
  predicate Parts(answer: seq<Byte>, passed: seq<Byte>, lost: seq<bool>, given: seq<Byte>, rest: seq<Byte>) {
    answer == passed + rest && |passed| == |lost| && given == Selected(passed, lost)
  }

  ghost predicate Answered(s: Sci) {
    Parts(s.answer, s.passed, s.lost, s.given, Unread(s))
  }

  ghost predicate Inv(s: Sci) {
    Settled(s) && |s.origin| == |s.held| + |s.line| && Sending(s) && Modes(s) && Reading(s) && Answered(s)
  }

  // ----- each step keeps it --------------------------------------------------------------

  lemma WriteKeeps(s: Sci, data: seq<Byte>)
    requires Inv(s) && Enabled(s, Write(data))
    ensures Inv(Written(s, data))
  {
    var t := Written(s, data);
    AllConvertedAppend(s.conv, s.accepted, t.pending);
    assert s.uart + AllConverted(s.conv, s.pending) == s.uart;
    assert Unread(t) == [];
  }

  lemma TransmitKeeps(s: Sci)
    requires Inv(s) && Enabled(s, Transmit)
    ensures Inv(Transmitted(s))
  {
    var t := Transmitted(s);
    assert Unread(s) == [] && Unread(t) == [];
  }

  lemma CardSendsKeeps(s: Sci, b: Byte)
    requires Inv(s) && Enabled(s, CardSends(b))
    ensures Inv(Answering(s, b))
  {
    var t := Answering(s, b);
    CardSendsAppends(s, b);
    Regrouped(s.passed, Unread(s), [Converted(s.conv, b)]);
  }

  lemma CardSendsAppends(s: Sci, b: Byte)
    requires Front(s) <= |s.held| + |s.line|
    ensures Unread(s.(line := s.line + [b])) == Unread(s) + [Converted(s.conv, b)]
  {
    AllConvertedAppend(s.conv, s.line, [b]);
    OneConverted(s.conv, b);
    Regrouped(s.held, AllConverted(s.conv, s.line), [Converted(s.conv, b)]);
  }

  lemma OneConverted(c: Convention, b: Byte)
    ensures AllConverted(c, [b]) == [Converted(c, b)]
  {
    if c.Inverse? {
      assert InvertedAll([b]) == [Inverted(b)];
    }
  }

  lemma ReceiveOneKeeps(s: Sci)
    requires Inv(s) && s.line != []
    ensures Inv(ReceiveOne(s)) && ReceiveOne(s).conv == s.conv
  {
    ReceiveOneStores(s);
  }

  /** Moving a byte from the receiver to the buffer changes nothing in what can be read. */
  lemma ReceiveOneStores(s: Sci)
    requires s.line != [] && Settled(s)
    ensures Unread(ReceiveOne(s)) == Unread(s)
  {
    var rest, b := s.line[1..], s.line[0];
    assert s.line == [b] + rest;
    AllConvertedAppend(s.conv, [b], rest);
    OneConverted(s.conv, b);
    Regrouped(s.held, [Converted(s.conv, b)], AllConverted(s.conv, rest));
  }

  lemma {:induction false} ReceiveAllKeeps(s: Sci)
    requires Inv(s)
    ensures Inv(ReceiveAll(s)) && ReceiveAll(s).line == []
    ensures var r := ReceiveAll(s);
            && r.fifo == s.fifo && r.mode == s.mode && r.pending == s.pending && r.phase == s.phase
            && |r.held| == |s.held| + |s.line| && r.passed == s.passed && r.given == s.given
    decreases |s.line|
  {
    if s.line != [] {
      ReceiveOneKeeps(s);
      ReceiveAllKeeps(ReceiveOne(s));
    }
  }

  ghost predicate InvButMode(s: Sci) {
    Settled(s) && |s.origin| == |s.held| + |s.line| && Sending(s) && Reading(s) && Answered(s)
  }

  lemma QueueOneKeeps(s: Sci)
    requires InvButMode(s) && s.pending != [] && |s.fifo| < FIFO
    ensures InvButMode(QueueOne(s))
  {
    QueueOneSends(s);
    assert s.phase == Idle;
    assert Unread(s) == [] && Unread(QueueOne(s)) == [];
  }

  lemma QueueOneSends(s: Sci)
    requires s.pending != []
    ensures var t := QueueOne(s);
            t.uart + AllConverted(t.conv, t.pending) == s.uart + AllConverted(s.conv, s.pending)
  {
    var rest, b := s.pending[1..], s.pending[0];
    assert s.pending == [b] + rest;
    AllConvertedAppend(s.conv, [b], rest);
    OneConverted(s.conv, b);
    Regrouped(s.uart, [Converted(s.conv, b)], AllConverted(s.conv, rest));
  }

  lemma {:induction false} QueueKeeps(s: Sci, n: nat)
    requires InvButMode(s) && |s.fifo| + n <= FIFO
    ensures InvButMode(Queue(s, n))
    ensures var q := Queue(s, n);
            && q.mode == s.mode && q.count == s.count && |q.fifo| + |q.pending| == |s.fifo| + |s.pending|
            && |q.fifo| <= |s.fifo| + n
            && q.phase == s.phase && q.held == s.held && q.line == s.line && q.passed == s.passed && q.given == s.given
    ensures s.pending != [] && n > 0 ==> |Queue(s, n).pending| < |s.pending|
    decreases n
  {
    if n > 0 && s.pending != [] {
      QueueOneKeeps(s);
      QueueKeeps(QueueOne(s), n - 1);
    }
  }

  lemma RefillKeeps(s: Sci)
    requires Inv(s)
    ensures Inv(Refill(s))
    ensures var r := Refill(s);
            && r.phase == s.phase && r.held == s.held && r.line == s.line && r.passed == s.passed && r.given == s.given
            && |r.fifo| + |r.pending| == |s.fifo| + |s.pending|
            && (s.fifo == [] && s.pending != [] ==> |r.pending| < |s.pending|)
  {
    if s.fifo == [] && s.mode in {RX_TX, RX_TX_HALF} {
      QueueKeeps(s, FIFO);
      RelaxKeeps(s, Queue(s, FIFO));
    } else if |s.fifo| <= FIFO / 2 && s.mode == RX_TX_HALF {
      QueueKeeps(s, FIFO / 2);
      RelaxKeeps(s, Queue(s, FIFO / 2));
    }
  }

  lemma RelaxKeeps(s: Sci, q: Sci)
    requires Modes(s) && InvButMode(q) && q.mode == s.mode && q.count == s.count
    requires s.pending != [] || q.pending == []
    ensures Inv(Relax(q))
  {}

  lemma InterruptKeeps(s: Sci)
    requires Inv(s)
    ensures Inv(Step(s, Interrupt))
    ensures var t := Step(s, Interrupt);
            && t.phase == s.phase && t.line == [] && |t.held| == |s.held| + |s.line|
            && t.passed == s.passed && t.given == s.given
            && |t.fifo| + |t.pending| == |s.fifo| + |s.pending|
            && (s.fifo == [] && s.pending != [] ==> |t.pending| < |s.pending|)
  {
    ReceiveAllKeeps(s);
    RefillKeeps(ReceiveAll(s));
  }

  // ----- the steps of a read -------------------------------------------------------------

  lemma {:induction false} SelectedAll(bytes: seq<Byte>, lost: seq<bool>, more: seq<Byte>)
    requires |bytes| == |lost|
    ensures Selected(bytes + more, lost + Flags(|more|, false)) == Selected(bytes, lost) + more
    decreases |more|
  {
    if more == [] {
      assert bytes + more == bytes && lost + Flags(0, false) == lost;
    } else {
      var n := |more| - 1;
      SelectedAll(bytes, lost, more[..n]);
      assert (bytes + more)[..|bytes| + n] == bytes + more[..n];
      assert (lost + Flags(n + 1, false))[..|bytes| + n] == lost + Flags(n, false);
      assert more == more[..n] + [more[n]];
      Regrouped(Selected(bytes, lost), more[..n], [more[n]]);
    }
  }

  lemma {:induction false} SelectedNone(bytes: seq<Byte>, lost: seq<bool>, more: seq<Byte>)
    requires |bytes| == |lost|
    ensures Selected(bytes + more, lost + Flags(|more|, true)) == Selected(bytes, lost)
    decreases |more|
  {
    if more == [] {
      assert bytes + more == bytes && lost + Flags(0, true) == lost;
    } else {
      var n := |more| - 1;
      SelectedNone(bytes, lost, more[..n]);
      assert (bytes + more)[..|bytes| + n] == bytes + more[..n];
      assert (lost + Flags(n + 1, true))[..|bytes| + n] == lost + Flags(n, true);
    }
  }

  /** Nothing is lost when as much was read as is through. */
  lemma {:induction false} SelectedLength(bytes: seq<Byte>, lost: seq<bool>)
    requires |bytes| == |lost|
    ensures |Selected(bytes, lost)| <= |bytes|
    ensures |Selected(bytes, lost)| == |bytes| ==> Selected(bytes, lost) == bytes
    decreases |bytes|
  {
    if bytes != [] {
      var n := |bytes| - 1;
      SelectedLength(bytes[..n], lost[..n]);
      assert bytes == bytes[..n] + [bytes[n]];
    }
  }

  lemma TakeKeeps(s: Sci, n: nat)
    requires Inv(s) && Enabled(s, Take(n))
    ensures Inv(TakeOut(s, n))
  {
    TakeReads(s, n);
    TakeAnswers(s, n);
  }

  lemma TakeReads(s: Sci, n: nat)
    requires Inv(s) && Enabled(s, Take(n))
    ensures Reading(TakeOut(s, n))
  {
    assert s.fifo == [] && s.pending == [];
  }

  lemma TakeAnswers(s: Sci, n: nat)
    requires Answered(s) && s.phase == Idle && s.skip + n <= |s.held|
    ensures Answered(TakeOut(s, n))
  {
    TakeAddsUp(s, n);
    TakeSelects(s, n);
  }

  lemma TakeAddsUp(s: Sci, n: nat)
    requires s.answer == s.passed + Unread(s) && s.phase == Idle && s.skip + n <= |s.held|
    ensures var t := TakeOut(s, n); t.answer == t.passed + Unread(t)
  {
    TakeDrops(s, n);
    Regrouped(s.passed, s.held[s.skip..s.skip + n], Unread(TakeOut(s, n)));
  }

  lemma TakeSelects(s: Sci, n: nat)
    requires |s.passed| == |s.lost| && s.given == Selected(s.passed, s.lost) && s.skip + n <= |s.held|
    ensures var t := TakeOut(s, n); |t.passed| == |t.lost| && t.given == Selected(t.passed, t.lost)
  {
    SelectedAll(s.passed, s.lost, s.held[s.skip..s.skip + n]);
  }

  lemma LosesOn(answer: seq<Byte>, passed: seq<Byte>, lost: seq<bool>, given: seq<Byte>, bytes: seq<Byte>, rest: seq<Byte>)
    requires Parts(answer, passed, lost, given, bytes + rest)
    ensures Parts(answer, passed + bytes, lost + Flags(|bytes|, true), given, rest)
  {
    SelectedNone(passed, lost, bytes);
    Regrouped(passed, bytes, rest);
  }

  lemma TakeDrops(s: Sci, n: nat)
    requires s.phase == Idle && s.skip + n <= |s.held|
    ensures Unread(s) == s.held[s.skip..s.skip + n] + Unread(TakeOut(s, n))
  {}

  lemma ComparedKeeps(s: Sci)
    requires Inv(s) && s.phase == Taken
    ensures Inv(Compared(s))
  {}

  lemma RewindingKeeps(s: Sci)
    requires Inv(s) && s.phase.Equal?
    ensures Inv(Rewinding(s))
  {}

  lemma ClearedKeeps(s: Sci)
    requires Inv(s) && Enabled(s, RewindRptr)
    ensures Inv(Cleared(s))
  {
    ClearedReads(s);
    ClearedAnswers(s);
  }

  lemma ClearedReads(s: Sci)
    requires Inv(s) && Enabled(s, RewindRptr)
    ensures Reading(Cleared(s)) && Sending(Cleared(s)) && |Cleared(s).origin| == |s.line|
  {}

  lemma ClearedAnswers(s: Sci)
    requires Answered(s) && Enabled(s, RewindRptr) && s.skip == 0
    ensures Answered(Cleared(s))
  {
    var gone, line, t := s.held[s.phase.mark..], AllConverted(s.conv, s.line), Cleared(s);
    Behind(s.held, line, s.phase.mark);
    Behind([], line, 0);
    assert Unread(t) == ([] + line)[0..] == line;
    LosesOn(s.answer, s.passed, s.lost, s.given, gone, line);
  }

  lemma Behind(held: seq<Byte>, line: seq<Byte>, n: nat)
    requires n <= |held|
    ensures (held + line)[n..] == held[n..] + line
  {}

  lemma StepKeepsInv(s: Sci, e: Event)
    requires Inv(s) && Enabled(s, e)
    ensures Inv(Step(s, e))
  {
    match e {
      case Write(data) => WriteKeeps(s, data);
      case Transmit => TransmitKeeps(s);
      case CardSends(b) => CardSendsKeeps(s, b);
      case Interrupt => InterruptKeeps(s);
      case Take(n) => TakeKeeps(s, n);
      case Compare => ComparedKeeps(s);
      case RewindWptr => RewindingKeeps(s);
      case RewindRptr => ClearedKeeps(s);
    }
  }

  // ----- whole runs ----------------------------------------------------------------------

  /** A slot whose card has given its answer to reset, before anything is written. */
  predicate Fresh(s: Sci) {
    && Settled(s) && s.mode == RX && s.pending == [] && s.count == 0 && s.fifo == [] && s.line == []
    && s.held == [] && s.origin == [] && s.skip == 0 && s.echoes == 0 && s.phase == Idle
    && s.accepted == [] && s.uart == [] && s.answer == [] && s.passed == [] && s.lost == [] && s.given == []
  }

  /** All the stores of an interrupt lie in read_buf; the source does not look. */
  predicate StoresInside(s: Sci)
    decreases |s.line|
  {
    s.line != [] ==> |s.held| < SIZE && StoresInside(ReceiveOne(s))
  }

  lemma {:induction false} StoresInsideExactlyWhen(s: Sci)
    ensures StoresInside(s) <==> s.line == [] || |s.held| + |s.line| <= SIZE
    decreases |s.line|
  {
    if s.line != [] {
      StoresInsideExactlyWhen(ReceiveOne(s));
    }
  }

  /** A run that has not stored outside read_buf, and so is still one of this machine. */
  ghost predicate IsRun(states: seq<Sci>, events: seq<Event>) {
    && |states| == |events| + 1 && Fresh(states[0])
    && forall k :: 0 <= k < |events| ==> Follows(states, events, k)
  }

  ghost predicate Follows(states: seq<Sci>, events: seq<Event>, k: nat)
    requires k < |events| && |states| == |events| + 1
  {
    && Enabled(states[k], events[k]) && (events[k].Interrupt? ==> StoresInside(states[k]))
    && states[k + 1] == Step(states[k], events[k])
  }

  lemma FreshHolds(s: Sci)
    requires Fresh(s)
    ensures Inv(s)
  {
    assert AllConverted(s.conv, []) == [];
    assert Unread(s) == [];
  }

  lemma OneMore(s: Sci, e: Event, t: Sci)
    requires Inv(s) && Enabled(s, e) && t == Step(s, e)
    ensures Inv(t)
  {
    StepKeepsInv(s, e);
  }

  lemma {:induction false} RunKeepsInv(states: seq<Sci>, events: seq<Event>, k: nat)
    requires IsRun(states, events) && k <= |events|
    ensures Inv(states[k])
  {
    if k == 0 {
      FreshHolds(states[0]);
    } else {
      RunKeepsInv(states, events, k - 1);
      assert Follows(states, events, k - 1);
      OneMore(states[k - 1], events[k - 1], states[k]);
    }
  }

  /** Over any interleaving of writes, the steps of reads, interrupts and bytes on the line: what was
      written enters the transmitter once and in order, in the card's convention, never more than the
      FIFO holds; the interrupt is left to reception exactly when the last byte is queued; what is
      through of the card's answer is its beginning, and what was read is that without the bytes lost,
      in order; and a reader is never offered an echo. */
  lemma LineIsKept(states: seq<Sci>, events: seq<Event>, k: nat)
    requires IsRun(states, events) && k <= |events|
    ensures var s := states[k];
            && s.uart + AllConverted(s.conv, s.pending) == AllConverted(s.conv, s.accepted)
            && |s.fifo| <= FIFO && |s.held| <= |s.origin|
            && (s.count > 0 ==> (s.mode == RX <==> s.pending == []))
            && s.answer == s.passed + Unread(s)
            && |s.passed| == |s.lost| && s.given == Selected(s.passed, s.lost)
            && (s.phase == Idle && ReadReady(s) ==> forall i :: s.skip <= i < |s.held| ==> s.origin[i] == Card)
  {
    RunKeepsInv(states, events, k);
  }

  /** Everything queued: what has entered the transmitter is exactly what was written, as the card reads
      it. */
  lemma QueuedReadsAsWritten(states: seq<Sci>, events: seq<Event>, k: nat)
    requires IsRun(states, events) && k <= |events| && states[k].pending == []
    ensures AllConverted(states[k].conv, states[k].uart) == states[k].accepted
  {
    RunKeepsInv(states, events, k);
    var s := states[k];
    assert s.uart + AllConverted(s.conv, []) == s.uart;
    AllConvertedTwice(s.conv, s.accepted);
  }

  // ----- when an answer byte is lost -------------------------------------------------------

  /** An interrupt stores bytes between the comparison that found the positions equal and the last of
      the two assignments that set them back. */
  predicate Strays(s: Sci, e: Event) {
    e.Interrupt? && (s.phase.Equal? || s.phase.Rewound?) && s.line != []
  }

  function Strayed(states: seq<Sci>, events: seq<Event>, i: nat, k: nat): nat
    requires i <= k <= |events| < |states|
    decreases k - i
  {
    if k == i then 0
    else Strayed(states, events, i, k - 1) + if Strays(states[k - 1], events[k - 1]) then |states[k - 1].line| else 0
  }

  /** The bytes behind the mark, which the reset is going to drop. */
  function Doomed(s: Sci): int {
    match s.phase
    case Equal(mark) => |s.held| - mark
    case Rewound(mark) => |s.held| - mark
    case _ => 0
  }

  lemma StepCounts(s: Sci, e: Event)
    requires Inv(s) && Enabled(s, e) && !e.Write?
    ensures var t := Step(s, e);
            |t.passed| - |t.given| + Doomed(t)
            == |s.passed| - |s.given| + Doomed(s) + if Strays(s, e) then |s.line| else 0
  {
    if e.Interrupt? {
      InterruptKeeps(s);
    }
  }

  /** A stretch of a run that starts with the slot fresh or with a write, and has no other write. */
  ghost predicate Session(states: seq<Sci>, events: seq<Event>, i: nat, k: nat) {
    && IsRun(states, events) && i <= k <= |events|
    && (i == 0 || events[i - 1].Write?)
    && forall j :: i <= j < k ==> !events[j].Write?
  }

  lemma {:induction false} SessionCounts(states: seq<Sci>, events: seq<Event>, i: nat, k: nat)
    requires Session(states, events, i, k)
    ensures var s := states[k]; |s.passed| - |s.given| + Doomed(s) == Strayed(states, events, i, k)
    decreases k - i
  {
    if k == i {
      RunKeepsInv(states, events, k);
      if i > 0 {
        assert Follows(states, events, i - 1);
      }
    } else {
      SessionCounts(states, events, i, k - 1);
      RunKeepsInv(states, events, k - 1);
      assert Follows(states, events, k - 1);
      StepCounts(states[k - 1], events[k - 1]);
    }
  }

  lemma {:induction false} NothingStrayed(states: seq<Sci>, events: seq<Event>, i: nat, k: nat)
    requires i <= k <= |events| < |states|
    ensures Strayed(states, events, i, k) == 0 <==> forall j :: i <= j < k ==> !Strays(states[j], events[j])
    decreases k - i
  {
    if k > i {
      NothingStrayed(states, events, i, k - 1);
    }
  }

  /** The answer to a write is read whole and in order exactly when no interrupt stored a byte between
      the comparison that found the positions equal and the reset; every byte stored there is lost, and
      no other one. */
  lemma LosesExactlyWhenStoredBetween(states: seq<Sci>, events: seq<Event>, i: nat, k: nat)
    requires Session(states, events, i, k) && (states[k].phase == Idle || states[k].phase == Taken)
    ensures var s := states[k];
            && (s.given + Unread(s) == s.answer <==> forall j :: i <= j < k ==> !Strays(states[j], events[j]))
            && |s.given| + |Unread(s)| + Strayed(states, events, i, k) == |s.answer|
  {
    var s := states[k];
    RunKeepsInv(states, events, k);
    SessionCounts(states, events, i, k);
    NothingStrayed(states, events, i, k);
    SelectedLength(s.passed, s.lost);
  }

  lemma Extended(states: seq<Sci>, events: seq<Event>, e: Event) returns (states': seq<Sci>, events': seq<Event>)
    requires IsRun(states, events)
    requires var s := states[|events|]; Enabled(s, e) && (e.Interrupt? ==> StoresInside(s))
    ensures IsRun(states', events') && events' == events + [e]
    ensures states' == states + [Step(states[|events|], e)]
  {
    states', events' := states + [Step(states[|events|], e)], events + [e];
    forall k | 0 <= k < |events'| ensures Follows(states', events', k) {
      if k < |events| {
        assert Follows(states, events, k);
      }
    }
  }

  lemma OneByteComes(s: Sci)
    requires Settled(s) && s.mode == RX && |s.line| == 1 && |s.held| < SIZE
    ensures StoresInside(s)
    ensures Step(s, Interrupt) == s.(line := [], held := s.held + [Converted(s.conv, s.line[0])])
  {
    assert ReceiveAll(ReceiveOne(s)) == ReceiveOne(s);
  }

  /** A card's byte comes and is stored. */
  lemma AByteComes(states: seq<Sci>, events: seq<Event>, b: Byte) returns (states': seq<Sci>, events': seq<Event>)
    requires IsRun(states, events)
    requires var s := states[|events|];
             Settled(s) && s.mode == RX && s.fifo == [] && s.pending == [] && s.line == [] && |s.held| < SIZE
    ensures IsRun(states', events') && events' == events + [CardSends(b), Interrupt]
    ensures var s, c := states[|events|], Converted(states[|events|].conv, b);
            && |states'| == |states| + 2 && states'[0] == states[0]
            && states'[|events'|] == s.(held := s.held + [c], origin := s.origin + [Card], answer := s.answer + [c])
  {
    var s := states[|events|];
    states', events' := Extended(states, events, CardSends(b));
    OneByteComes(states'[|events'|]);
    states', events' := Extended(states', events', Interrupt);
  }

  /** A byte of answer has been read, and the positions have been found equal. */
  function OneRead(s: Sci, c: Byte): Sci {
    s.(held := [c], origin := [Card], answer := [c], skip := 1, phase := Equal(1),
       given := [c], passed := [c], lost := [false])
  }

  lemma AByteIsRead(s: Sci, a: Byte) returns (states: seq<Sci>, events: seq<Event>)
    requires Fresh(s)
    ensures IsRun(states, events) && states[0] == s && events == [CardSends(a), Interrupt, Take(1), Compare]
    ensures states[4] == OneRead(s, Converted(s.conv, a))
  {
    var c := Converted(s.conv, a);
    states, events := AByteComes([s], [], a);
    assert states[2] == s.(held := [c], origin := [Card], answer := [c]);
    states, events := Extended(states, events, Take(1));
    assert Flags(1, false) == [false];
    states, events := Extended(states, events, Compare);
  }

  /** A run that loses a byte: the second one of an answer comes when the first has just been read. */
  lemma AByteIsLost(s: Sci, a: Byte, b: Byte) returns (states: seq<Sci>, events: seq<Event>)
    requires Fresh(s)
    ensures IsRun(states, events) && states[0] == s
    ensures events == [CardSends(a), Interrupt, Take(1), Compare, CardSends(b), Interrupt, RewindWptr, RewindRptr]
    ensures var t := states[8];
            && t.answer == [Converted(s.conv, a), Converted(s.conv, b)]
            && t.given == [Converted(s.conv, a)] && Unread(t) == []
  {
    states, events := AByteIsRead(s, a);
    states, events := AByteComes(states, events, b);
    states, events := Extended(states, events, RewindWptr);
    states, events := Extended(states, events, RewindRptr);
    assert AllConverted(s.conv, []) == [];
  }

  /** A reader who asks for 1025 bytes when one has come gets 1024. */
  lemma AByteAndMemory(s: Sci, b: Byte, memory: seq<Byte>) returns (states: seq<Sci>, events: seq<Event>)
    requires Fresh(s) && |memory| >= SIZE && memory[0] == Converted(s.conv, b)
    ensures IsRun(states, events) && states[0] == s && events == [CardSends(b), Interrupt]
    ensures var t := states[2];
            && ReadReady(t) && t.held == [Converted(s.conv, b)] && t.held <= memory && t.skip == 0
            && Portion(t, SIZE + 1) == SIZE && !(memory[0..Portion(t, SIZE + 1)] <= t.held)
  {
    states, events := AByteComes([s], [], b);
  }

  // ----- when a store leaves the buffer ----------------------------------------------------

  /** What an event leaves of n bytes that have arrived. */
  function ArrivedAfter(n: nat, s: Sci, e: Event): nat {
    match e
    case Write(_) => 0
    case RewindRptr => |s.line|
    case Transmit => n + 1
    case CardSends(_) => n + 1
    case _ => n
  }

  /** Echoes and answer bytes since the last clearing of the buffer; those still in the receiver then
      count for the next one. */
  function Arrived(states: seq<Sci>, events: seq<Event>, k: nat): nat
    requires k <= |events| < |states|
  {
    if k == 0 then 0 else ArrivedAfter(Arrived(states, events, k - 1), states[k - 1], events[k - 1])
  }

  lemma InterruptArrives(s: Sci)
    requires Inv(s) && StoresInside(s) && |s.held| <= SIZE
    ensures var t := Step(s, Interrupt); |t.held| + |t.line| == |s.held| + |s.line| && |t.held| <= SIZE
  {
    InterruptKeeps(s);
    StoresInsideExactlyWhen(s);
  }

  lemma StepArrives(s: Sci, e: Event)
    requires Inv(s) && Enabled(s, e) && (e.Interrupt? ==> StoresInside(s)) && |s.held| <= SIZE
    ensures var t := Step(s, e);
            |t.held| + |t.line| == ArrivedAfter(|s.held| + |s.line|, s, e) && |t.held| <= SIZE
  {
    if e.Interrupt? {
      InterruptArrives(s);
    }
  }

  lemma {:induction false} ArrivedIs(states: seq<Sci>, events: seq<Event>, k: nat)
    requires IsRun(states, events) && k <= |events|
    ensures Arrived(states, events, k) == |states[k].held| + |states[k].line| && |states[k].held| <= SIZE
  {
    if k > 0 {
      ArrivedIs(states, events, k - 1);
      RunKeepsInv(states, events, k - 1);
      assert Follows(states, events, k - 1);
      StepArrives(states[k - 1], events[k - 1]);
    }
  }

  /** An interrupt stores behind the end of read_buf exactly when more echoes and answer bytes than it
      holds have arrived since it was last cleared. */
  lemma StoreLeavesExactlyWhen(states: seq<Sci>, events: seq<Event>, k: nat)
    requires IsRun(states, events) && k <= |events|
    ensures !StoresInside(states[k]) <==> Arrived(states, events, k) > SIZE
  {
    ArrivedIs(states, events, k);
    StoresInsideExactlyWhen(states[k]);
  }

  predicate OnlySends(events: seq<Event>, from: nat) {
    forall j :: from <= j < |events| ==> events[j] == Transmit || events[j] == Interrupt
  }

  /** Left alone, a slot sends all it has to, and gets every byte back. */
  lemma {:induction false} Drained(states: seq<Sci>, events: seq<Event>) returns (states': seq<Sci>, events': seq<Event>)
    requires IsRun(states, events)
    requires var s := states[|events|]; |s.held| + |s.line| + |s.fifo| + |s.pending| <= SIZE
    ensures IsRun(states', events') && events <= events' && OnlySends(events', |events|) && states'[0] == states[0]
    ensures var s, t := states[|events|], states'[|events'|];
            && t.pending == t.fifo == []
            && |t.held| + |t.line| == |s.held| + |s.line| + |s.fifo| + |s.pending|
    decreases 2 * |states[|events|].pending| + |states[|events|].fifo|
  {
    var s := states[|events|];
    RunKeepsInv(states, events, |events|);
    if s.fifo != [] {
      states', events' := Extended(states, events, Transmit);
      states', events' := Drained(states', events');
    } else if s.pending != [] {
      StoresInsideExactlyWhen(s);
      InterruptKeeps(s);
      states', events' := Extended(states, events, Interrupt);
      states', events' := Drained(states', events');
    } else {
      states', events' := states, events;
    }
  }

  /** The largest write, and one byte of answer: the byte is stored behind the buffer. */
  lemma AFullWriteOverflows(s: Sci, data: seq<Byte>, b: Byte) returns (states: seq<Sci>, events: seq<Event>)
    requires Fresh(s) && |data| == SIZE
    ensures IsRun(states, events) && states[0] == s && |events| >= 2
    ensures events[0] == Write(data) && OnlySends(events[..|events| - 1], 1) && events[|events| - 1] == CardSends(b)
    ensures !StoresInside(states[|events|])
  {
    states, events := Extended([s], [], Write(data));
    states, events := Drained(states, events);
    states, events := Extended(states, events, CardSends(b));
    StoresInsideExactlyWhen(states[|events|]);
  }

  // ----- the answer to reset -------------------------------------------------------------

  lemma {:induction false} SettledStores(s: Sci)
    requires Settled(s)
    ensures ReceiveAll(s).held == s.held + AllConverted(s.conv, s.line)
    ensures ReceiveAll(s).conv == s.conv
    decreases |s.line|
  {
    if s.line == [] {
      assert AllConverted(s.conv, s.line) == [];
    } else {
      var rest, b := s.line[1..], s.line[0];
      SettledStores(ReceiveOne(s));
      assert s.line == [b] + rest;
      AllConvertedAppend(s.conv, [b], rest);
      OneConverted(s.conv, b);
      Regrouped(s.held, [Converted(s.conv, b)], AllConverted(s.conv, rest));
    }
  }

  /** The first byte of an answer to reset decides how all of it is stored, itself included. */
  lemma FirstByteSettles(s: Sci)
    requires !Settled(s) && s.line != [] && s.line[0] in {0x03, 0x3B}
    ensures var t := ReceiveAll(s);
            && t.conv == (if s.line[0] == 0x03 then Inverse else Direct)
            && t.held == s.held + AllConverted(t.conv, s.line)
  {
    var settled := s.(conv := if s.line[0] == 0x03 then Inverse else Direct);
    assert ReceiveOne(s) == ReceiveOne(settled);
    SettledStores(settled);
  }

  // ----- reading more than the buffer's size -----------------------------------------------

  /** The memory from read_buf on holds what was received. A reader gets nothing but received bytes
      exactly when it asks for no more than the buffer's size, or that much has been received: asked
      for more, sci_read hands out the buffer's size. */
  lemma ReadsReceivedExactlyWhen(s: Sci, length: nat, memory: seq<Byte>)
    requires Inv(s) && ReadReady(s) && s.held <= memory && s.skip + SIZE <= |memory|
    ensures memory[s.skip..s.skip + Portion(s, length)] <= s.held[s.skip..]
            <==> length <= SIZE || |s.held| - s.skip >= SIZE
  {
    var n := Portion(s, length);
    if n <= |s.held| - s.skip {
      assert memory[s.skip..s.skip + n] == s.held[s.skip..s.skip + n];
      assert s.held[s.skip..s.skip + n] == s.held[s.skip..][..n];
    } else {
      assert |memory[s.skip..s.skip + n]| > |s.held[s.skip..]|;
    }
  }

  // ----- an overrun ----------------------------------------------------------------------

  function ReceiveSome(s: Sci, n: nat): (t: Sci)
    requires n <= |s.line|
    ensures |t.line| == |s.line| - n
    decreases n
  {
    if n == 0 then s else ReceiveOne(ReceiveSome(s, n - 1))
  }

  lemma {:induction false} SomeThenAll(s: Sci, n: nat)
    requires n <= |s.line|
    ensures ReceiveAll(ReceiveSome(s, n)) == ReceiveAll(s)
    decreases n
  {
    if n > 0 {
      SomeThenAll(s, n - 1);
    }
  }

  /** A read of the receive register, empty or not, whose value is stored. */
  function RegisterRead(s: Sci, value: Byte): Sci {
    if s.line != [] then ReceiveOne(s)
    else
      var conv := Settle(s.conv, s.atrReady, value);
      s.(conv := conv, held := s.held + [Converted(conv, value)], origin := s.origin + [Nothing])
  }

  /** red_read: 16 reads, whose values are these where the receiver is empty. */
  function RedRead(s: Sci, values: seq<Byte>, n: nat): Sci
    requires n <= |values|
    decreases n
  {
    if n == 0 then s else RegisterRead(RedRead(s, values, n - 1), values[n - 1])
  }

  /** What the first n reads find. */
  function Found(line: seq<Byte>, values: seq<Byte>, n: nat): (bytes: seq<Byte>)
    requires n <= |values|
    ensures |bytes| == n
  {
    if n <= |line| then line[..n] else line + values[|line|..n]
  }

  lemma FoundNext(line: seq<Byte>, values: seq<Byte>, n: nat)
    requires n < |values|
    ensures Found(line, values, n + 1) == Found(line, values, n) + [if n < |line| then line[n] else values[n]]
  {}

  function Nothings(n: nat): (origin: seq<Origin>)
    ensures |origin| == n && forall k :: 0 <= k < n ==> origin[k] == Nothing
  {
    seq(n, _ => Nothing)
  }

  /** The slot after the first n reads. */
  function AfterReads(s: Sci, values: seq<Byte>, n: nat): Sci
    requires n <= |values|
  {
    var m := Min(n, |s.line|);
    s.(line := s.line[m..], held := s.held + AllConverted(s.conv, Found(s.line, values, n)),
       origin := s.origin + Nothings(n - m))
  }

  lemma RestFirst(line: seq<Byte>, m: nat)
    requires m < |line|
    ensures line[m..][0] == line[m] && line[m..][1..] == line[m + 1..]
  {}

  lemma FoundConverts(held: seq<Byte>, conv: Convention, line: seq<Byte>, values: seq<Byte>, n: nat)
    requires n < |values|
    ensures var c := if n < |line| then line[n] else values[n];
            (held + AllConverted(conv, Found(line, values, n))) + [Converted(conv, c)]
            == held + AllConverted(conv, Found(line, values, n + 1))
  {
    var c, first := if n < |line| then line[n] else values[n], Found(line, values, n);
    FoundNext(line, values, n);
    AllConvertedAppend(conv, first, [c]);
    OneConverted(conv, c);
    Regrouped(held, AllConverted(conv, first), [Converted(conv, c)]);
  }

  lemma OneMoreNothing(origin: seq<Origin>, k: nat)
    ensures (origin + Nothings(k)) + [Nothing] == origin + Nothings(k + 1)
  {}

  lemma AfterOneMore(s: Sci, values: seq<Byte>, n: nat, t: Sci)
    requires Settled(s) && n < |values| && t == AfterReads(s, values, n)
    ensures RegisterRead(t, values[n]) == AfterReads(s, values, n + 1)
  {
    FoundConverts(s.held, s.conv, s.line, values, n);
    if n < |s.line| {
      RestFirst(s.line, n);
    } else {
      OneMoreNothing(s.origin, n - |s.line|);
    }
  }

  lemma RedReadNext(s: Sci, values: seq<Byte>, n: nat)
    requires Settled(s) && 0 < n <= |values| && RedRead(s, values, n - 1) == AfterReads(s, values, n - 1)
    ensures RedRead(s, values, n) == AfterReads(s, values, n)
  {
    AfterOneMore(s, values, n - 1, RedRead(s, values, n - 1));
  }

  lemma AfterNone(s: Sci, values: seq<Byte>)
    ensures AfterReads(s, values, 0) == s
  {
    assert Found(s.line, values, 0) == [];
    assert AllConverted(s.conv, []) == [];
    assert s.held + [] == s.held && s.line[0..] == s.line && s.origin + Nothings(0) == s.origin;
  }

  lemma {:induction false} RedReadIs(s: Sci, values: seq<Byte>, n: nat)
    requires Settled(s) && n <= |values|
    ensures RedRead(s, values, n) == AfterReads(s, values, n)
    decreases n
  {
    if n == 0 {
      AfterNone(s, values);
    } else {
      RedReadIs(s, values, n - 1);
      RedReadNext(s, values, n);
    }
  }

  /** What an overrun stores: the bytes that the receiver held, up to 16, and for the rest of the 16 reads
      values of the empty register. If it held 16, nothing but these, as without an overrun. */
  lemma RedReadStores(s: Sci, values: seq<Byte>)
    requires Settled(s) && |values| == FIFO
    ensures var t, n := RedRead(s, values, FIFO), Min(16, |s.line|);
            && |t.held| == |s.held| + 16 && t.skip == s.skip && t.line == s.line[n..]
            && t.held == s.held + AllConverted(s.conv, s.line[..n] + values[n..])
  {
    RedReadIs(s, values, FIFO);
    FoundThenEmpty(s.line, values);
  }

  lemma FoundThenEmpty(line: seq<Byte>, values: seq<Byte>)
    ensures var n := Min(|values|, |line|);
            Found(line, values, |values|) == line[..n] + values[n..]
  {}

  /** A reader is then offered such a value exactly when the receiver held fewer, and the read position
      lies before the new end. */
  lemma RedReadOffersNothingExactlyWhen(s: Sci, values: seq<Byte>)
    requires Inv(s) && |values| == FIFO
    ensures var t := RedRead(s, values, FIFO);
            && |t.origin| == |t.held| + |t.line|
            && ((exists i :: Front(s) <= i < |t.held| && t.origin[i] == Nothing)
                <==> |s.line| < FIFO && Front(s) < |t.held|)
  {
    RedReadIs(s, values, FIFO);
    NothingWasThere(s);
    ReadsOffer(s, values, FIFO);
  }

  lemma ReadsOffer(s: Sci, values: seq<Byte>, n: nat)
    requires |s.origin| == |s.held| + |s.line| && n == |values|
    requires forall i :: Front(s) <= i < |s.origin| ==> s.origin[i] != Nothing
    ensures var t := AfterReads(s, values, n);
            && |t.origin| == |t.held| + |t.line|
            && ((exists i :: Front(s) <= i < |t.held| && t.origin[i] == Nothing)
                <==> |s.line| < n && Front(s) < |t.held|)
  {
    OfferedExactlyWhen(s.origin, n - Min(n, |s.line|), Front(s), |s.held| + n);
  }

  lemma OfferedExactlyWhen(origin: seq<Origin>, k: nat, from: nat, end: nat)
    requires forall i :: from <= i < |origin| ==> origin[i] != Nothing
    requires end <= |origin| + k && (k > 0 ==> end == |origin| + k)
    ensures (exists i :: from <= i < end && (origin + Nothings(k))[i] == Nothing) <==> k > 0 && from < end
  {
    if k > 0 && from < end {
      assert (origin + Nothings(k))[end - 1] == Nothing;
    }
  }

  lemma NothingWasThere(s: Sci)
    requires Inv(s)
    ensures forall i :: Front(s) <= i < |s.origin| ==> s.origin[i] != Nothing
  {}
}
