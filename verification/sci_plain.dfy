/** What the steps of the smart card line do, said without the step functions of SciUart. */
module SciPlain {
  import opened Bytes
  import opened SciTable
  import opened SciUart

  // ----- what was written ------------------------------------------------------------------

  /** The data of the first k writes, each cut at 1024 bytes, one behind the other. */
  function Asked(events: seq<Event>, k: nat): seq<Byte>
    requires k <= |events|
  {
    if k == 0 then []
    else
      match events[k - 1]
      case Write(data) => Asked(events, k - 1) + data[..Min(|data|, 1024)]
      case _ => Asked(events, k - 1)
  }

  lemma {:induction false} ReceiveAllAccepts(s: Sci)
    ensures ReceiveAll(s).accepted == s.accepted
    decreases |s.line|
  {
    if s.line != [] {
      ReceiveAllAccepts(ReceiveOne(s));
    }
  }

  lemma {:induction false} QueueAccepts(s: Sci, n: nat)
    ensures Queue(s, n).accepted == s.accepted
    decreases n
  {
    if n > 0 && s.pending != [] {
      QueueAccepts(QueueOne(s), n - 1);
    }
  }

  lemma StepAccepts(s: Sci, e: Event)
    requires Enabled(s, e)
    ensures Step(s, e).accepted == s.accepted + if e.Write? then e.data[..Min(|e.data|, 1024)] else []
    ensures e.Write? ==> Step(s, e).pending == e.data[..Min(|e.data|, 1024)]
  {
    if e.Interrupt? {
      ReceiveAllAccepts(s);
      QueueAccepts(ReceiveAll(s), FIFO);
      QueueAccepts(ReceiveAll(s), FIFO / 2);
    }
    if e.Write? {
      assert e.data[..|e.data|] == e.data;
    }
  }

  lemma {:induction false} AcceptedIsAsked(states: seq<Sci>, events: seq<Event>, k: nat)
    requires IsRun(states, events) && k <= |events|
    ensures states[k].accepted == Asked(events, k)
  {
    if k > 0 {
      AcceptedIsAsked(states, events, k - 1);
      assert Follows(states, events, k - 1);
      StepAccepts(states[k - 1], events[k - 1]);
      assert Asked(events, k - 1) + [] == Asked(events, k - 1);
    }
  }

  /** Over every run: the bytes that entered the transmitter and those that wait are the data of the writes,
      in the card's convention. */
  lemma TransmitterGetsWrites(states: seq<Sci>, events: seq<Event>, k: nat)
    requires IsRun(states, events) && k <= |events|
    ensures var s := states[k];
            s.uart + AllConverted(s.conv, s.pending) == AllConverted(s.conv, Asked(events, k))
  {
    AcceptedIsAsked(states, events, k);
    LineIsKept(states, events, k);
  }

  // ----- conventions -----------------------------------------------------------------------

  /** A byte is sent and stored as the table has it for a card of inverse convention, and as it is for one of
      direct convention. */
  lemma ConvertedByTable(c: Convention, s: seq<Byte>, k: nat)
    requires k < |s|
    ensures Converted(c, s[k]) == AllConverted(c, s)[k] == if c.Inverse? then ByteInvert(s[k]) else s[k]
  {
    TableInverts(s[k]);
    InvertedAllAt(s, k);
  }

  /** A first byte of an answer to reset that is neither 0x03 nor 0x3B leaves the convention open, and is
      stored as it is. */
  lemma OtherFirstByte(s: Sci)
    requires s.line != [] && s.conv == Undefined && !s.atrReady && s.line[0] != 0x03 && s.line[0] != 0x3B
    ensures ReceiveOne(s).conv == Undefined && ReceiveOne(s).held == s.held + [s.line[0]]
  {}

  // ----- what an interrupt does ------------------------------------------------------------

  /** m of the bytes that wait have gone to the transmitter, and the read position past their echoes. */
  function Moved(s: Sci, m: nat): Sci
    requires m <= |s.pending|
  {
    var bytes := AllConverted(s.conv, s.pending[..m]);
    s.(pending := s.pending[m..], fifo := s.fifo + bytes, uart := s.uart + bytes,
       skip := s.skip + m, echoes := s.echoes + m)
  }

  lemma MovedNone(s: Sci)
    ensures Moved(s, 0) == s
  {
    assert s.pending[..0] == [] && AllConverted(s.conv, []) == [];
    assert s.fifo + [] == s.fifo && s.uart + [] == s.uart && s.pending[0..] == s.pending;
  }

  lemma MovedOneMore(s: Sci, m: nat)
    requires m < |s.pending|
    ensures Moved(QueueOne(s), m) == Moved(s, m + 1)
  {
    var b, rest := s.pending[0], s.pending[1..];
    assert s.pending[..m + 1] == [b] + rest[..m] && s.pending[m + 1..] == rest[m..];
    AllConvertedAppend(s.conv, [b], rest[..m]);
    OneConverted(s.conv, b);
    Regrouped(s.fifo, [Converted(s.conv, b)], AllConverted(s.conv, rest[..m]));
    Regrouped(s.uart, [Converted(s.conv, b)], AllConverted(s.conv, rest[..m]));
  }

  lemma {:induction false} QueueIsMoved(s: Sci, n: nat)
    ensures Queue(s, n) == Moved(s, Min(n, |s.pending|))
    decreases n
  {
    if n == 0 || s.pending == [] {
      MovedNone(s);
    } else {
      QueueIsMoved(QueueOne(s), n - 1);
      MovedOneMore(s, Min(n, |s.pending|) - 1);
    }
  }

  /** How many bytes an interrupt moves to the transmitter: up to 16 when it is empty, up to 8 when it is half
      empty and the mode asks for that. */
  function Share(s: Sci): nat {
    if !Serves(s) then 0 else Min(if s.fifo == [] then 16 else 8, |s.pending|)
  }

  predicate Serves(s: Sci) {
    (s.fifo == [] && s.mode == 3) || (|s.fifo| <= 8 && s.mode == 7)
  }

  lemma {:induction false} ReceivedStores(s: Sci)
    requires Settled(s)
    ensures ReceiveAll(s) == s.(line := [], held := s.held + AllConverted(s.conv, s.line))
    decreases |s.line|
  {
    if s.line == [] {
      assert AllConverted(s.conv, []) == [] && s.held + [] == s.held;
    } else {
      var b, rest := s.line[0], s.line[1..];
      ReceivedStores(ReceiveOne(s));
      assert s.line == [b] + rest;
      AllConvertedAppend(s.conv, [b], rest);
      OneConverted(s.conv, b);
      Regrouped(s.held, [Converted(s.conv, b)], AllConverted(s.conv, rest));
    }
  }

  function Relaxed(s: Sci, m: nat): Sci
    requires m <= |s.pending|
  {
    Moved(s, m).(mode := if m == |s.pending| then 1 else s.mode)
  }

  lemma RelaxedIs(s: Sci, n: nat)
    ensures Relax(Queue(s, n)) == Relaxed(s, Min(n, |s.pending|))
  {
    QueueIsMoved(s, n);
  }

  lemma RefillIs(s: Sci)
    ensures Refill(s) == if Serves(s) then Relaxed(s, Share(s)) else s
  {
    if s.fifo == [] && (s.mode == 3 || s.mode == 7) {
      RelaxedIs(s, 16);
    } else if Serves(s) {
      RelaxedIs(s, 8);
    }
  }

  /** The whole of an interrupt, for a card whose convention is known: what was received is stored, what the
      transmitter takes leaves the buffer, and the mode is receive-only once nothing waits. */
  lemma InterruptIs(s: Sci)
    requires Settled(s)
    ensures var t, m := Step(s, Interrupt), Share(s);
            && t.line == [] && t.held == s.held + AllConverted(s.conv, s.line)
            && t.pending == s.pending[m..] && t.fifo == s.fifo + AllConverted(s.conv, s.pending[..m])
            && t.skip == s.skip + m
            && t.mode == if Serves(s) && m == |s.pending| then 1 else s.mode
  {
    ReceivedStores(s);
    RefillIs(ReceiveAll(s));
    MovedNone(s);
  }

  // ----- when a read has to wait -----------------------------------------------------------

  /** A read is not refused once the answer has bytes and nothing of a write waits to be sent. */
  lemma ReadIsReady(states: seq<Sci>, events: seq<Event>, k: nat)
    requires IsRun(states, events) && k <= |events|
    ensures var s := states[k];
            s.pending == [] && s.skip < |s.held| && (s.count > 0 || s.mode == RX) ==> ReadReady(s)
  {
    RunKeepsInv(states, events, k);
  }
}
