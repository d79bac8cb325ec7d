/** What the card gets of the bytes written to a slot (smartcard/sci_drv.c). A write waits until the one
    before is queued, not until it is sent, and resets the transmitter. */
module SciSent {
  import opened Bytes
  import opened SciUart

  /** The bytes that have left the transmitter after k events of a run. */
  function OnTheLine(states: seq<Sci>, events: seq<Event>, k: nat): seq<Byte>
    requires k <= |events| < |states|
  {
    if k == 0 then []
    else if events[k - 1].Transmit? && states[k - 1].fifo != [] then
      OnTheLine(states, events, k - 1) + [states[k - 1].fifo[0]]
    else OnTheLine(states, events, k - 1)
  }

  /** A write begins while the transmitter still holds bytes of the one before. */
  predicate CutsShort(s: Sci, e: Event) {
    e.Write? && s.fifo != []
  }

  /** How many bytes have been dropped with the transmitter's FIFO. */
  function Dropped(states: seq<Sci>, events: seq<Event>, k: nat): nat
    requires k <= |events| < |states|
  {
    if k == 0 then 0
    else Dropped(states, events, k - 1) + if events[k - 1].Write? then |states[k - 1].fifo| else 0
  }

  lemma {:induction false} NothingDropped(states: seq<Sci>, events: seq<Event>, k: nat)
    requires k <= |events| < |states|
    ensures Dropped(states, events, k) == 0 <==> forall j :: 0 <= j < k ==> !CutsShort(states[j], events[j])
  {
    if k > 0 {
      NothingDropped(states, events, k - 1);
    }
  }

  /** All that entered the transmitter has left it or is in it, but for n bytes. */
  predicate Accounts(s: Sci, sent: seq<Byte>, n: nat) {
    && |s.uart| == |sent| + |s.fifo| + n
    && (n == 0 ==> s.uart == sent + s.fifo)
  }

  lemma {:induction false} QueueAccounts(s: Sci, m: nat, sent: seq<Byte>, n: nat)
    requires Accounts(s, sent, n)
    ensures Accounts(Queue(s, m), sent, n)
    decreases m
  {
    if m > 0 && s.pending != [] {
      Regrouped(sent, s.fifo, [Converted(s.conv, s.pending[0])]);
      QueueAccounts(QueueOne(s), m - 1, sent, n);
    }
  }

  lemma {:induction false} ReceiveAllSends(s: Sci)
    ensures var r := ReceiveAll(s); r.uart == s.uart && r.fifo == s.fifo
    decreases |s.line|
  {
    if s.line != [] {
      ReceiveAllSends(ReceiveOne(s));
    }
  }

  lemma InterruptAccounts(s: Sci, sent: seq<Byte>, n: nat)
    requires Accounts(s, sent, n)
    ensures Accounts(Step(s, Interrupt), sent, n)
  {
    ReceiveAllSends(s);
    var r := ReceiveAll(s);
    QueueAccounts(r, FIFO, sent, n);
    QueueAccounts(r, FIFO / 2, sent, n);
  }

  lemma TransmitAccounts(s: Sci, sent: seq<Byte>, n: nat)
    requires Accounts(s, sent, n) && s.fifo != []
    ensures Accounts(Transmitted(s), sent + [s.fifo[0]], n)
  {
    assert s.fifo == [s.fifo[0]] + s.fifo[1..];
    Regrouped(sent, [s.fifo[0]], s.fifo[1..]);
  }

  lemma WriteAccounts(s: Sci, data: seq<Byte>, sent: seq<Byte>, n: nat)
    requires Accounts(s, sent, n)
    ensures Accounts(Written(s, data), sent, n + |s.fifo|)
  {
    assert sent + [] == sent;
  }

  lemma {:induction false} RunAccounts(states: seq<Sci>, events: seq<Event>, k: nat)
    requires IsRun(states, events) && k <= |events|
    ensures Accounts(states[k], OnTheLine(states, events, k), Dropped(states, events, k))
  {
    if k > 0 {
      RunAccounts(states, events, k - 1);
      assert Follows(states, events, k - 1);
      var s, sent, n := states[k - 1], OnTheLine(states, events, k - 1), Dropped(states, events, k - 1);
      match events[k - 1] {
        case Write(data) => WriteAccounts(s, data, sent, n);
        case Transmit => TransmitAccounts(s, sent, n);
        case Interrupt => InterruptAccounts(s, sent, n);
        case _ =>
      }
    }
  }

  /** When all is queued and sent, the card has got what was written, as it reads it, exactly when no
      write began while bytes of the one before were still in the transmitter. As many are missing as were
      in it then. */
  lemma CardGetsAllExactlyWhen(states: seq<Sci>, events: seq<Event>, k: nat)
    requires IsRun(states, events) && k <= |events| && states[k].pending == [] && states[k].fifo == []
    ensures var s, sent := states[k], OnTheLine(states, events, k);
            && (AllConverted(s.conv, sent) == s.accepted <==> forall j :: 0 <= j < k ==> !CutsShort(states[j], events[j]))
            && |sent| + Dropped(states, events, k) == |s.accepted|
  {
    var s, sent := states[k], OnTheLine(states, events, k);
    RunAccounts(states, events, k);
    NothingDropped(states, events, k);
    QueuedReadsAsWritten(states, events, k);
    assert sent + [] == sent;
  }

  lemma OneByteQueued(s: Sci)
    requires |s.pending| == 1 && s.fifo == [] && s.line == [] && s.mode == RX_TX
    ensures StoresInside(s) && Step(s, Interrupt) == QueueOne(s).(mode := RX)
  {
    assert Queue(QueueOne(s), FIFO - 1) == QueueOne(s);
  }

  /** A byte is written to a slot that has queued all it had, and is queued. */
  lemma AByteIsWritten(states: seq<Sci>, events: seq<Event>, b: Byte) returns (states': seq<Sci>, events': seq<Event>)
    requires IsRun(states, events)
    requires var s := states[|events|]; s.pending == [] && s.phase == Idle
    ensures IsRun(states', events') && events' == events + [Write([b]), Interrupt]
    ensures |states'| == |states| + 2 && states <= states'
    ensures var s, t := states[|events|], states'[|events'|];
            && t.conv == s.conv && t.accepted == s.accepted + [b] && t.fifo == [Converted(s.conv, b)]
            && t.pending == [] && t.phase == Idle
  {
    states', events' := Extended(states, events, Write([b]));
    OneByteQueued(states'[|events'|]);
    states', events' := Extended(states', events', Interrupt);
  }

  lemma OnlyTheLast(states: seq<Sci>, events: seq<Event>)
    requires |events| == 5 && |states| == 6 && events[4] == Transmit && states[4].fifo != []
    requires forall k :: 0 <= k < 4 ==> !events[k].Transmit?
    ensures OnTheLine(states, events, 5) == [states[4].fifo[0]]
  {
    assert OnTheLine(states, events, 0) == [];
    assert OnTheLine(states, events, 1) == [];
    assert OnTheLine(states, events, 2) == [];
    assert OnTheLine(states, events, 3) == [];
  }

  lemma TwoWrites(s: Sci, a: Byte, b: Byte) returns (states: seq<Sci>, events: seq<Event>)
    requires Fresh(s)
    ensures IsRun(states, events) && states[0] == s && events == [Write([a]), Interrupt, Write([b]), Interrupt]
    ensures var t := states[4];
            t.conv == s.conv && t.pending == [] && t.accepted == [a, b] && t.fifo == [Converted(s.conv, b)]
  {
    states, events := AByteIsWritten([s], [], a);
    states, events := AByteIsWritten(states, events, b);
  }

  /** Two writes of one byte each, the second one as soon as the first is queued: the card gets one byte. */
  lemma AByteIsNeverSent(s: Sci, a: Byte, b: Byte) returns (states: seq<Sci>, events: seq<Event>)
    requires Fresh(s)
    ensures IsRun(states, events) && states[0] == s
    ensures events == [Write([a]), Interrupt, Write([b]), Interrupt, Transmit]
    ensures var t := states[5];
            && t.pending == t.fifo == [] && t.accepted == [a, b]
            && AllConverted(t.conv, OnTheLine(states, events, 5)) == [b]
  {
    states, events := TwoWrites(s, a, b);
    var c := Converted(s.conv, b);
    assert states[4].fifo == [c];
    states, events := Extended(states, events, Transmit);
    OnlyTheLast(states, events);
    OneConverted(s.conv, b);
    AllConvertedTwice(s.conv, [b]);
  }
}
