/** A slot of the smart card driver (smartcard/sci_drv.c) with its fields, as the machine of SciUart:
    write, the steps of a read, and the interrupt handler. */
module SciSlot {
  import opened Bytes
  import opened SciTable
  import opened SciUart

  class Slot {
    const writeBuf: array<Byte>
    const readBuf: array<Byte>
    var txRptr: nat
    var txWptr: nat
    var rxRptr: nat
    var rxWptr: nat
    var irqMode: nat
    var intEnable: nat            // ASC0_INT_EN
    var byteInvert: Convention
    var atrReady: bool            // atr_status == SCI_ATR_READY
    var txFifo: seq<Byte>         // in the UART
    var rxFifo: seq<Byte>
    ghost var s: Sci

    ghost predicate Mirrors()
      reads this`txRptr, this`txWptr, this`rxRptr, this`rxWptr, this`irqMode, this`byteInvert, this`atrReady
      reads this`txFifo, this`rxFifo, this`s, writeBuf, readBuf
    {
      && writeBuf.Length == readBuf.Length == SIZE && writeBuf != readBuf
      && txWptr <= txRptr <= SIZE && s.count == txRptr && s.pending == writeBuf[txWptr..txRptr]
      && irqMode == s.mode && txFifo == s.fifo && rxFifo == s.line
      && rxRptr == |s.held| <= SIZE && readBuf[..rxRptr] == s.held
      && rxWptr == s.skip && byteInvert == s.conv && atrReady == s.atrReady
    }

    ghost predicate Valid()
      reads this, writeBuf, readBuf
    {
      Mirrors() && Inv(s)
    }

    constructor (conv: Convention)
      ensures Mirrors() && Valid() && Fresh(s) && s.conv == conv && fresh(writeBuf) && fresh(readBuf)
    {
      writeBuf := new Byte[SIZE](_ => 0);
      readBuf := new Byte[SIZE](_ => 0);
      txRptr, txWptr, rxRptr, rxWptr, irqMode, intEnable := 0, 0, 0, 0, RX, RX;
      byteInvert, atrReady, txFifo, rxFifo := conv, true, [], [];
      s := Sci([], 0, RX, [], [], [], [], 0, conv, true, Idle, 0, [], [], [], [], [], []);
      new;
      assert AllConverted(conv, []) == [];
    }

    method SetSerialIrq(kind: nat)
      modifies this`irqMode, this`intEnable
      ensures irqMode == if kind in {1, 2, 3, 7} then kind else old(irqMode)
      ensures intEnable == if kind in {1, 2, 3, 7} then kind else old(intEnable)
    {
      if kind == RX || kind == 2 || kind == RX_TX || kind == RX_TX_HALF {
        irqMode, intEnable := kind, kind;
      }
    }

    method Settled(raw: Byte) returns (data: Byte)
      modifies this`byteInvert
      ensures byteInvert == Settle(old(byteInvert), atrReady, raw) && data == Converted(byteInvert, raw)
      ensures atrReady || old(byteInvert) != Undefined ==> byteInvert == old(byteInvert)
      ensures !atrReady && old(byteInvert) == Undefined ==>
                byteInvert == if raw == 0x03 then Inverse else if raw == 0x3B then Direct else Undefined
      ensures data == if byteInvert == Inverse then ByteInvert(raw) else raw
    {
      data := raw;
      if !atrReady && byteInvert == Undefined {
        if data == 0x03 {
          byteInvert := Inverse;
        } else if data == 0x3B {
          byteInvert := Direct;
        }
      }
      data := Invert(data);
    }

    method Invert(raw: Byte) returns (data: Byte)
      ensures data == Converted(byteInvert, raw)
      ensures data == if byteInvert == Inverse then ByteInvert(raw) else raw
    {
      TableInverts(raw);
      data := raw;
      if byteInvert == Inverse {
        TableInverts(data);
        data := ByteInvert(data);
      }
    }

    /** One byte from the receiver to the buffer. */
    method ReceiveByte()
      requires Mirrors() && rxFifo != [] && rxRptr < SIZE
      modifies this`rxFifo, this`byteInvert, this`rxRptr, this`s, readBuf
      ensures Mirrors() && s == ReceiveOne(old(s))
    {
      var data := Settled(rxFifo[0]);
      rxFifo := rxFifo[1..];
      StoreByte(data);
      s := ReceiveOne(s);
    }

    method StoreByte(data: Byte)
      requires rxRptr < readBuf.Length
      modifies this`rxRptr, readBuf
      ensures rxRptr == old(rxRptr) + 1 && readBuf[..rxRptr] == old(readBuf[..rxRptr]) + [data]
    {
      readBuf[rxRptr] := data;
      rxRptr := rxRptr + 1;
    }

    /** One byte from the buffer to the transmitter. */
    method TransmitByte()
      requires Mirrors() && txWptr < txRptr && |txFifo| < FIFO
      modifies this`txFifo, this`txWptr, this`rxWptr, this`s
      ensures Mirrors() && s == QueueOne(old(s))
    {
      var data := Invert(writeBuf[txWptr]);
      assert writeBuf[txWptr..txRptr][1..] == writeBuf[txWptr + 1..txRptr];
      txFifo := txFifo + [data];
      txWptr := txWptr + 1;
      rxWptr := rxWptr + 1;
      s := QueueOne(s);
    }

    /** Of a limit of bytes, `left` are still to go into the transmitter, which then holds `filled`. */
    ghost predicate Filling(left: nat, limit: nat, filled: Sci)
      reads this`txRptr, this`txWptr, this`rxRptr, this`rxWptr, this`irqMode, this`byteInvert, this`atrReady
      reads this`txFifo, this`rxFifo, this`s, writeBuf, readBuf
    {
      && Mirrors() && |txFifo| + limit <= FIFO && Queue(s, limit) == filled
      && left <= txRptr - txWptr && left <= limit && (left == limit || left == txRptr - txWptr)
    }

    method FillOne(ghost left: nat, ghost limit: nat, ghost filled: Sci)
      requires Filling(left, limit, filled) && left > 0
      modifies this`txFifo, this`txWptr, this`rxWptr, this`s
      ensures Filling(left - 1, limit - 1, filled)
    {
      QueueNext(s, limit);
      TransmitByte();
    }

    method FillAll(size: nat, limit: nat, ghost filled: Sci)
      requires Filling(size, limit, filled)
      modifies this`txFifo, this`txWptr, this`rxWptr, this`s
      ensures Filling(0, limit - size, filled)
    {
      var i := 0;
      ghost var left, room := size, limit;
      while i < size
        invariant i <= size && left == size - i && room == limit - i
        invariant Filling(left, room, filled)
      {
        FillOne(left, room, filled);
        left, room := left - 1, room - 1;
        i := i + 1;
      }
    }

    method Fill(limit: nat)
      requires Mirrors() && |txFifo| + limit <= FIFO
      modifies this`txFifo, this`txWptr, this`rxWptr, this`s
      ensures Mirrors() && s == Queue(old(s), limit)
    {
      var size := if txRptr - txWptr > limit then limit else txRptr - txWptr;
      FillAll(size, limit, Queue(s, limit));
      QueueEnds(s, limit - size);
    }

    /** What the handler does once the transmitter's flags, not full and empty or half empty, are up. */
    method FillAndRelax(limit: nat)
      requires Mirrors() && |txFifo| + limit <= FIFO
      modifies this`txFifo, this`txWptr, this`rxWptr, this`s, this`irqMode, this`intEnable
      ensures Mirrors() && s == Relax(Queue(old(s), limit))
    {
      Fill(limit);
      if txRptr == txWptr {
        SetSerialIrq(RX);
        s := s.(mode := RX);
      }
    }

    method SetIntEnable(kind: nat)
      modifies this`intEnable
      ensures intEnable == kind
    {
      intEnable := kind;
    }

    static predicate Overruns(s: Sci, overrunAt: Option<nat>) {
      overrunAt.Some? && overrunAt.value < |s.line|
    }

    /** sci_irq0_rx_tx_handler. The status is read before every byte; overrunAt says before which one it
        shows an overrun, if it does. The stores lie in the buffer. */
    method Handler(overrunAt: Option<nat>, values: seq<Byte>)
      requires Valid() && |values| == FIFO
      requires rxRptr + (if Overruns(s, overrunAt) then overrunAt.value + FIFO else |rxFifo|) <= SIZE
      modifies this, readBuf
      ensures Mirrors() && intEnable == irqMode
      ensures if old(Overruns(s, overrunAt)) then s == RedRead(ReceiveSome(old(s), overrunAt.value), values, FIFO)
              else Inv(s) && s == Step(old(s), Interrupt)
    {
      SetIntEnable(0);
      ReceiveAndSend(overrunAt, values);
      SetIntEnable(irqMode);
    }

    method ReceiveAndSend(overrunAt: Option<nat>, values: seq<Byte>)
      requires Valid() && |values| == FIFO
      requires rxRptr + (if Overruns(s, overrunAt) then overrunAt.value + FIFO else |rxFifo|) <= SIZE
      modifies this, readBuf
      ensures Mirrors()
      ensures if old(Overruns(s, overrunAt)) then s == RedRead(ReceiveSome(old(s), overrunAt.value), values, FIFO)
              else Inv(s) && s == Step(old(s), Interrupt)
    {
      StepKeepsInv(s, Interrupt);
      var overrun := false;
      if irqMode == RX || irqMode == RX_TX || irqMode == RX_TX_HALF {
        overrun := ReceiveBytes(overrunAt);
      }
      if overrun {
        EmptyReceiver(values);
      } else {
        Serve();
      }
    }

    /** The loop over the bytes received; it ends early at an overrun. */
    method ReceiveBytes(overrunAt: Option<nat>) returns (overrun: bool)
      requires Mirrors()
      requires rxRptr + (if Overruns(s, overrunAt) then overrunAt.value else |rxFifo|) <= SIZE
      modifies this`rxFifo, this`byteInvert, this`rxRptr, this`s, readBuf
      ensures Mirrors() && overrun == old(Overruns(s, overrunAt))
      ensures overrun ==> s == ReceiveSome(old(s), overrunAt.value) && rxRptr == old(rxRptr) + overrunAt.value
      ensures !overrun ==> s == ReceiveAll(old(s))
    {
      var n := 0;
      while rxFifo != []
        invariant Mirrors() && n + |rxFifo| == old(|rxFifo|) && rxRptr == old(rxRptr) + n
        invariant s == ReceiveSome(old(s), n)
        invariant old(Overruns(s, overrunAt)) ==> n <= overrunAt.value
        decreases |rxFifo|
      {
        if overrunAt == Some(n) {
          return true;
        }
        ReceiveByte();
        n := n + 1;
      }
      SomeThenAll(old(s), n);
      overrun := false;
    }

    method ReadRegister(value: Byte)
      requires Mirrors() && rxRptr < SIZE
      modifies this`rxFifo, this`byteInvert, this`rxRptr, this`s, readBuf
      ensures Mirrors() && s == RegisterRead(old(s), value) && rxRptr == old(rxRptr) + 1
    {
      if rxFifo != [] {
        ReceiveByte();
      } else {
        var data := Settled(value);
        StoreByte(data);
        s := RegisterRead(s, value);
      }
    }

    /** red_read */
    method EmptyReceiver(values: seq<Byte>)
      requires Mirrors() && |values| == FIFO && rxRptr + FIFO <= SIZE
      modifies this`rxFifo, this`byteInvert, this`rxRptr, this`s, readBuf
      ensures Mirrors() && s == RedRead(old(s), values, FIFO)
    {
      var nv := 0;
      while nv < FIFO
        invariant nv <= FIFO && Mirrors() && rxRptr == old(rxRptr) + nv && s == RedRead(old(s), values, nv)
      {
        ReadRegister(values[nv]);
        nv := nv + 1;
      }
    }

    /** The second half of the handler. */
    method Serve()
      requires Mirrors()
      modifies this`txFifo, this`txWptr, this`rxWptr, this`s, this`irqMode, this`intEnable
      ensures Mirrors() && s == Refill(old(s))
    {
      if txFifo == [] && (irqMode == RX_TX || irqMode == RX_TX_HALF) {
        FillAndRelax(FIFO);
      } else if |txFifo| <= FIFO / 2 && irqMode == RX_TX_HALF {
        FillAndRelax(FIFO / 2);
      }
    }

    /** sci_write, where it does not sleep: as long as the write before is not queued, O_NONBLOCK makes it
        give up and otherwise it starts again later. */
    method Write(buffer: seq<Byte>, present: bool) returns (r: int)
      requires Valid() && s.phase == Idle
      modifies this, writeBuf
      ensures Valid()
      ensures !present ==> r == 0 && s == old(s)
      ensures present && old(s.pending) != [] ==> r == -EWOULDBLOCK && s == old(s)
      ensures present && old(s.pending) == [] ==>
                && s == Step(old(s), Event.Write(buffer))
                && r == Min(|buffer|, 1024)
      ensures present && old(s.pending) == [] ==>
                && s.pending == buffer[..Min(|buffer|, 1024)]
                && s.accepted == old(s.accepted) + buffer[..Min(|buffer|, 1024)]
                && Restarted(buffer[..Min(|buffer|, 1024)])
    {
      if txWptr != txRptr && present {
        return -EWOULDBLOCK;
      }
      if !present {
        return 0;
      }
      WriteKeeps(s, buffer);
      WholeOrCut(buffer);
      r := StartWrite(buffer);
    }

    /** The bytes are in the buffer, nothing of them sent, everything received is gone, the UART is empty, and
        the interrupt that fits their number is on. */
    ghost predicate Restarted(bytes: seq<Byte>)
      reads this, writeBuf
    {
      && |bytes| <= writeBuf.Length && writeBuf[..|bytes|] == bytes && txWptr == 0 && txRptr == |bytes|
      && rxRptr == rxWptr == 0 && txFifo == rxFifo == []
      && irqMode == intEnable == if |bytes| <= 16 then 3 else 7
    }

    method StartWrite(buffer: seq<Byte>) returns (count: nat)
      requires Mirrors()
      modifies this, writeBuf
      ensures Mirrors() && s == Written(old(s), buffer)
      ensures count == Min(|buffer|, 1024)
      ensures Restarted(buffer[..count])
    {
      s := Written(s, buffer);
      count := if |buffer| <= SIZE then |buffer| else SIZE;
      CopyIn(buffer, count);
      txFifo, rxFifo := [], [];                                 // ASC0_TX_RST, ASC0_RX_RST
      txRptr, txWptr, rxRptr, rxWptr := count, 0, 0, 0;
      SetSerialIrq(if count <= FIFO then RX_TX else RX_TX_HALF);
    }

    static lemma WholeOrCut(buffer: seq<Byte>)
      ensures buffer[..Min(|buffer|, 1024)] == if |buffer| <= SIZE then buffer else buffer[..SIZE]
    {}

    method CopyIn(buffer: seq<Byte>, count: nat)
      requires count <= |buffer| && count <= SIZE == writeBuf.Length
      modifies writeBuf
      ensures writeBuf[0..count] == buffer[..count]
    {
      forall k | 0 <= k < SIZE {
        writeBuf[k] := if k < count then buffer[k] else 0;
      }
    }

    /** What sci_read does with a card in its slot, down to the moved read position: it would have to
        wait, or it hands out the next part of the answer, or, asked for more than the buffer's size,
        that much memory. */
    static ghost predicate ReadResult(s: Sci, t: Sci, length: nat, memory: seq<Byte>, r: int, buffer: seq<Byte>)
    {
      if !ReadReady(s) then
        r == -EWOULDBLOCK && buffer == [] && t == s
      else if Enabled(s, Take(Portion(s, length))) then
        Inv(t) && t == Step(s, Take(Portion(s, length))) && r == |buffer| && t.given == s.given + buffer
      else
        && r == SIZE && s.skip + SIZE <= |memory| && buffer == memory[s.skip..s.skip + SIZE]
        && t == s.(skip := s.skip + SIZE)
    }

    /** sci_read, where it does not sleep, down to the moved read position. Behind the buffer lies other
        memory. */
    method ReadTake(length: nat, present: bool, behind: seq<Byte>) returns (r: int, buffer: seq<Byte>)
      requires Valid() && s.phase == Idle && |behind| >= SIZE
      modifies this`rxWptr, this`s
      ensures Mirrors()
      ensures if present then ReadResult(old(s), s, length, readBuf[..] + behind, r, buffer)
              else r == 0 && buffer == [] && s == old(s)
      ensures present && (old(rxWptr) >= rxRptr || irqMode == 3) ==> r == -11 && buffer == [] && rxWptr == old(rxWptr)
      ensures present && old(rxWptr) < rxRptr && irqMode != 3 ==>
                && r == (if length > 1024 then 1024 else Min(length, rxRptr - old(rxWptr)))
                && rxWptr == old(rxWptr) + r && buffer == (readBuf[..] + behind)[old(rxWptr)..old(rxWptr) + r]
    {
      if !present {
        r, buffer := 0, [];
      } else if rxWptr >= rxRptr || irqMode == RX_TX {
        r, buffer := -EWOULDBLOCK, [];
      } else {
        r, buffer := ReadNow(length, behind);
      }
    }

    method ReadNow(length: nat, behind: seq<Byte>) returns (r: int, buffer: seq<Byte>)
      requires Valid() && s.phase == Idle && rxWptr < rxRptr && irqMode != RX_TX && |behind| >= SIZE
      modifies this`rxWptr, this`s
      ensures Mirrors() && ReadResult(old(s), s, length, readBuf[..] + behind, r, buffer)
      ensures r == if length > 1024 then 1024 else Min(length, rxRptr - old(rxWptr))
      ensures rxWptr == old(rxWptr) + r && buffer == (readBuf[..] + behind)[old(rxWptr)..old(rxWptr) + r]
    {
      var n := rxRptr - rxWptr;
      if n > length {
        n := length;
      }
      if length > SIZE {
        n := SIZE;
      }
      assert n == Portion(s, length);
      if n <= rxRptr - rxWptr {
        buffer := HandOut(n, behind);
      } else {
        buffer := HandOutMore(n, behind);
      }
      r := n;
    }

    method HandOutMore(n: nat, behind: seq<Byte>) returns (buffer: seq<Byte>)
      requires Mirrors() && n > rxRptr - rxWptr >= 0 && n <= |behind|
      modifies this`rxWptr, this`s
      ensures Mirrors() && s == old(s).(skip := old(s).skip + n) && rxWptr == old(rxWptr) + n
      ensures buffer == (readBuf[..] + behind)[old(rxWptr)..old(rxWptr) + n]
    {
      buffer := CopyOut(rxWptr, n, behind);
      rxWptr := rxWptr + n;
      s := s.(skip := s.skip + n);
    }

    /** The copy and the moved position, for no more than was received. */
    method HandOut(n: nat, behind: seq<Byte>) returns (buffer: seq<Byte>)
      requires Mirrors() && Inv(s) && Enabled(s, Take(n)) && n <= |behind|
      modifies this`rxWptr, this`s
      ensures Mirrors() && Inv(s) && s == TakeOut(old(s), n)
      ensures |buffer| == n && s.given == old(s).given + buffer
      ensures rxWptr == old(rxWptr) + n && buffer == (readBuf[..] + behind)[old(rxWptr)..old(rxWptr) + n]
    {
      TakeKeeps(s, n);
      buffer := CopyAndMove(n, behind);
    }

    method CopyAndMove(n: nat, behind: seq<Byte>) returns (buffer: seq<Byte>)
      requires Mirrors() && rxWptr + n <= rxRptr && n <= |behind|
      modifies this`rxWptr, this`s
      ensures Mirrors() && s == TakeOut(old(s), n)
      ensures |buffer| == n && s.given == old(s).given + buffer
      ensures rxWptr == old(rxWptr) + n && buffer == (readBuf[..] + behind)[old(rxWptr)..old(rxWptr) + n]
    {
      HeldIsBuffer(n, behind);
      buffer := CopyOut(rxWptr, n, behind);
      rxWptr := rxWptr + n;
      s := TakeOut(s, n);
    }

    /** The rest of sci_read, with interrupts free to come before each step: whether the positions are
        equal, */
    method ReadCompare() returns (equal: bool)
      requires Mirrors() && Inv(s) && s.phase == Taken
      modifies this`s
      ensures Mirrors() && Inv(s) && s == Compared(old(s)) && equal == s.phase.Equal? && equal == (rxWptr == rxRptr)
    {
      ComparedKeeps(s);
      equal := rxWptr == rxRptr;
      s := Compared(s);
    }

    /** and if so, the two assignments. */
    method ReadRewindWptr()
      requires Mirrors() && Inv(s) && s.phase.Equal?
      modifies this`rxWptr, this`s
      ensures Mirrors() && Inv(s) && s == Rewinding(old(s)) && rxWptr == 0
    {
      RewindingKeeps(s);
      rxWptr := 0;
      s := Rewinding(s);
    }

    method ReadRewindRptr()
      requires Mirrors() && Inv(s) && s.phase.Rewound?
      modifies this`rxRptr, this`s
      ensures Mirrors() && Inv(s) && s == Cleared(old(s)) && rxRptr == 0
    {
      ClearedKeeps(s);
      ResetRptr();
    }

    method ResetRptr()
      requires Mirrors() && Enabled(s, RewindRptr)
      modifies this`rxRptr, this`s
      ensures Mirrors() && s == Cleared(old(s)) && rxRptr == 0
    {
      rxRptr := 0;
      s := Cleared(s);
      assert readBuf[..0] == [];
    }

    method CopyOut(at: nat, n: nat, behind: seq<Byte>) returns (bytes: seq<Byte>)
      requires at <= readBuf.Length && n <= |behind|
      ensures bytes == (readBuf[..] + behind)[at..at + n]
    {
      bytes := (readBuf[..] + behind)[at..at + n];
    }

    static lemma SliceOfPrefix(bytes: seq<Byte>, behind: seq<Byte>, from: nat, to: nat, end: nat)
      requires from <= to <= end <= |bytes|
      ensures (bytes + behind)[from..to] == bytes[..end][from..to]
    {}

    lemma HeldIsBuffer(n: nat, behind: seq<Byte>)
      requires Mirrors() && rxWptr + n <= rxRptr
      ensures (readBuf[..] + behind)[rxWptr..rxWptr + n] == s.held[rxWptr..rxWptr + n]
    {
      SliceOfPrefix(readBuf[..], behind, rxWptr, rxWptr + n, rxRptr);
    }

    /** What the UART does by itself: a byte leaves the transmitter and its echo arrives, or the card
        speaks. */
    method LineTransmits()
      requires Mirrors() && Inv(s) && txFifo != []
      modifies this`txFifo, this`rxFifo, this`s
      ensures Mirrors() && Inv(s) && s == Transmitted(old(s))
    {
      TransmitKeeps(s);
      PassByte();
    }

    method PassByte()
      requires Mirrors() && txFifo != []
      modifies this`txFifo, this`rxFifo, this`s
      ensures Mirrors() && s == Transmitted(old(s))
    {
      s := Transmitted(s);
      rxFifo := rxFifo + [txFifo[0]];
      txFifo := txFifo[1..];
    }

    method LineReceives(b: Byte)
      requires Mirrors() && Inv(s) && Enabled(s, CardSends(b))
      modifies this`rxFifo, this`s
      ensures Mirrors() && Inv(s) && s == Answering(old(s), b)
    {
      CardSendsKeeps(s, b);
      s := Answering(s, b);
      rxFifo := rxFifo + [b];
    }
  }
}
