/** How the CEC sender of cec_adb_box/cec.c gets a waveform to the pin: it is stored in a buffer, and the
    interrupts of a serial port play it from there. */
module CecPin {
  import opened Bytes
  import opened CecWave

  // ----- playing the samples -------------------------------------------------------------

  /** The samples still to play, the level of the pin after each interrupt, and whether the port still
      interrupts. */
  datatype Player = Player(rest: seq<int>, line: seq<int>, on: bool)

  function Played(p: Player): Player {
    if p.rest != [] then
      Player(p.rest[1..], p.line + [if p.rest[0] == 1 then 1 else 0], p.on)
    else
      Player([], p.line + [1], false)
  }

  function PlayedOn(p: Player, interrupts: nat): Player {
    if interrupts == 0 then p else Played(PlayedOn(p, interrupts - 1))
  }

  /** The pin follows the samples, one for each interrupt; the interrupt after the last one leaves the
      line high and turns the port's interrupts off. */
  lemma {:induction false} PlaysTheSamples(p: Player, n: nat)
    requires IsWave(p.rest) && p.on && n <= |p.rest| + 1
    ensures PlayedOn(p, n) ==
            if n <= |p.rest| then Player(p.rest[n..], p.line + p.rest[..n], true)
            else Player([], p.line + p.rest + [1], false)
  {
    if n > 0 {
      PlaysTheSamples(p, n - 1);
      if n <= |p.rest| {
        assert p.line + p.rest[..n - 1] + [p.rest[n - 1]] == p.line + p.rest[..n];
        assert p.rest[n - 1..][1..] == p.rest[n..];
      } else {
        assert p.rest[..n - 1] == p.rest;
      }
    }
  }

  /** From the message to the listener at the pin: once the port is quiet, the levels of the pin decode
      to the message, however long the line stays idle. */
  lemma ListenerAtThePin(t: Timing, message: seq<Byte>, n: nat)
    requires Known(t)
    ensures var p := PlayedOn(Player(Wave(t, message), [], true), |Wave(t, message)| + 1);
            && !p.on && p.line == Wave(t, message) + [1]
            && Decoded(p.line, t.unit) == Some(Sent(message, 0))
            && Decoded(p.line + Level(1, n), t.unit) == Some(Sent(message, 0))
  {
    var wave := Wave(t, message);
    BitsWaveIsWave(t, MessageBits(message, 0));
    PlaysTheSamples(Player(wave, [], true), |wave| + 1);
    assert [] + wave + [1] == wave + [1];
    IdleListener(t, message, 1);
    assert wave + [1] == wave + Level(1, 1);
    IdleListener(t, message, n + 1);
    assert wave + [1] + Level(1, n) == wave + Level(1, n + 1);
  }

  // ----- the text of a message ---------------------------------------------------------------

  predicate IsDigit(c: char) {
    '0' <= c <= '9' || 'a' <= c <= 'f' || 'A' <= c <= 'F'
  }

  function Digit(c: char): (d: Nibble)
    requires IsDigit(c)
  {
    if c <= '9' then c as int - '0' as int
    else if c <= 'F' then c as int - 'A' as int + 10
    else c as int - 'a' as int + 10
  }

  ghost predicate ScansHex(scan: (char, char) -> Byte) {
    forall a, b :: IsDigit(a) && IsDigit(b) ==> scan(a, b) == 16 * Digit(a) + Digit(b)
  }

  /** The message that a text stands for, two characters to a byte; an odd one at the end, such as a
      newline, does not count. */
  function Text(scan: (char, char) -> Byte, text: string): (message: seq<Byte>)
    ensures |message| == |text| / 2
  {
    seq(|text| / 2, j requires 0 <= j < |text| / 2 => scan(text[2 * j], text[2 * j + 1]))
  }

  function HexDigit(n: Nibble): (c: char)
    ensures IsDigit(c) && Digit(c) == n
  {
    if n < 10 then '0' + n as char else 'a' + (n - 10) as char
  }

  function Hex(message: seq<Byte>): (text: string)
    ensures |text| == 2 * |message|
  {
    if message == [] then []
    else [HexDigit(message[0] / 16), HexDigit(message[0] % 16)] + Hex(message[1..])
  }

  lemma {:induction false} HexAt(message: seq<Byte>, j: nat)
    requires j < |message|
    ensures Hex(message)[2 * j] == HexDigit(message[j] / 16) && Hex(message)[2 * j + 1] == HexDigit(message[j] % 16)
  {
    if j > 0 {
      HexAt(message[1..], j - 1);
    }
  }

  /** A message written in hexadecimal digits is read back. */
  lemma HexIsRead(scan: (char, char) -> Byte, message: seq<Byte>)
    requires ScansHex(scan)
    ensures Text(scan, Hex(message)) == message
  {
    forall j | 0 <= j < |message| ensures Text(scan, Hex(message))[j] == message[j] {
      HexAt(message, j);
      var c, d := HexDigit(message[j] / 16), HexDigit(message[j] % 16);
      assert IsDigit(c) && IsDigit(d) && scan(c, d) == 16 * Digit(c) + Digit(d);
    }
  }

  /** In characters: a standby message with the newline that echo adds, and an active source. */
  lemma MessagesInCharacters(scan: (char, char) -> Byte)
    requires ScansHex(scan)
    ensures Text(scan, "3036\n") == [0x30, 0x36]
    ensures Text(scan, "3f821000") == [0x3F, 0x82, 0x10, 0x00]
  {
    assert scan('3', '0') == 0x30 && scan('3', '6') == 0x36;
    assert scan('3', 'f') == 0x3F && scan('8', '2') == 0x82 && scan('1', '0') == 0x10 && scan('0', '0') == 0;
  }

  // ----- storing the samples, beside the interrupts ----------------------------------------

  /** The buffer, the position to play from, the number of samples to play, whether the port interrupts,
      and the levels of the pin. */
  datatype Port = Port(buf: seq<int>, pos: nat, len: nat, on: bool, line: seq<int>)

  /** What the writer does in one step. */
  datatype Op =
    | Scan(at: nat, v: int)      // a character for sscanf
    | SetPos                     // buf_pos = 1
    | SetLen                     // buf_len = 0
    | Grow                       // buf_len++
    | Put(v: int)                // buf[buf_len] = v
    | Enable                     // the port interrupts from now on

  /** asc_irq; a port whose interrupts are off does not interrupt. */
  function Interrupted(p: Port): Port {
    if !p.on then p
    else if p.len > 0 then
      p.(line := p.line + [if p.pos < |p.buf| && p.buf[p.pos] == 1 then 1 else 0], pos := p.pos + 1, len := p.len - 1)
    else p.(line := p.line + [1], on := false)
  }

  function Interrupts(p: Port, n: nat): Port {
    if n == 0 then p else Interrupted(Interrupts(p, n - 1))
  }

  function Do(p: Port, op: Op): Port {
    match op
    case Scan(at, v) => if at < |p.buf| then p.(buf := p.buf[at := v]) else p
    case SetPos => p.(pos := 1)
    case SetLen => p.(len := 0)
    case Grow => p.(len := p.len + 1)
    case Put(v) => if p.len < |p.buf| then p.(buf := p.buf[p.len := v]) else p
    case Enable => p.(on := true)
  }

  /** The port after the writer's steps, the first of which is the at-th of a call; some number of
      interrupts comes before each. */
  function Prepared(p: Port, ops: seq<Op>, at: nat, arrivals: nat -> nat): Port
    decreases |ops|
  {
    if ops == [] then p else Prepared(Do(Interrupts(p, arrivals(at)), ops[0]), ops[1..], at + 1, arrivals)
  }

  function Scans(text: string, j: nat): (ops: seq<Op>)
    requires 2 * j <= |text|
    ensures |ops| == 5 * j
  {
    if j == 0 then []
    else
      Scans(text, j - 1) + [Scan(0, '0' as int), Scan(1, 'x' as int), Scan(2, text[2 * j - 2] as int),
                            Scan(3, text[2 * j - 1] as int), Scan(4, 0)]
  }

  lemma ScansNext(text: string, j: nat)
    requires 2 * j + 1 < |text|
    ensures Scans(text, j) + [Scan(0, '0' as int)] + [Scan(1, 'x' as int)] + [Scan(2, text[2 * j] as int)]
            + [Scan(3, text[2 * j + 1] as int)] + [Scan(4, 0)] == Scans(text, j + 1)
  {}

  function Stores(samples: seq<int>): (ops: seq<Op>)
    ensures |ops| == 2 * |samples|
  {
    if samples == [] then [] else Stores(samples[..|samples| - 1]) + [Grow, Put(samples[|samples| - 1])]
  }

  /** The place of the first sample among the steps. */
  function First(text: string): nat {
    5 * (|text| / 2) + 2
  }

  function Setup(text: string): (ops: seq<Op>)
    ensures |ops| == First(text)
  {
    Scans(text, |text| / 2) + [SetPos, SetLen]
  }

  /** All that proc_cec_write does once it has found nothing left to play. */
  function Writes(text: string, wave: seq<int>): seq<Op> {
    Setup(text) + Stores(wave) + [Enable]
  }

  lemma {:induction false} PreparedAppend(p: Port, a: seq<Op>, b: seq<Op>, at: nat, arrivals: nat -> nat)
    ensures Prepared(p, a + b, at, arrivals) == Prepared(Prepared(p, a, at, arrivals), b, at + |a|, arrivals)
    decreases |a|
  {
    if a == [] {
      assert a + b == b;
    } else {
      assert (a + b)[1..] == a[1..] + b;
      PreparedAppend(Do(Interrupts(p, arrivals(at)), a[0]), a[1..], b, at + 1, arrivals);
    }
  }

  /** Nothing interrupts from the at-th step on, for n steps. */
  predicate Undisturbed(p: Port, at: nat, n: nat, arrivals: nat -> nat) {
    !p.on || forall k :: at <= k < at + n ==> arrivals(k) == 0
  }

  lemma {:induction false} SilentPort(p: Port, n: nat)
    requires !p.on
    ensures Interrupts(p, n) == p
  {
    if n > 0 {
      SilentPort(p, n - 1);
    }
  }

  lemma OneStep(p: Port, op: Op, at: nat, arrivals: nat -> nat)
    ensures Prepared(p, [op], at, arrivals) == Do(Interrupts(p, arrivals(at)), op)
  {}

  /** A sample is stored behind the ones that are there. */
  lemma OneStore(p: Port, v: int, at: nat, arrivals: nat -> nat)
    requires Undisturbed(p, at, 2, arrivals) && p.len + 1 < |p.buf|
    ensures Prepared(p, [Grow, Put(v)], at, arrivals) == p.(len := p.len + 1, buf := p.buf[p.len + 1 := v])
  {
    var q := p.(len := p.len + 1);
    assert [Grow, Put(v)] == [Grow] + [Put(v)];
    PreparedAppend(p, [Grow], [Put(v)], at, arrivals);
    OneStep(p, Grow, at, arrivals);
    OneStep(q, Put(v), at + 1, arrivals);
    if p.on {
      assert arrivals(at) == arrivals(at + 1) == 0;
    } else {
      SilentPort(p, arrivals(at));
      SilentPort(q, arrivals(at + 1));
    }
  }

  /** Samples stored in a buffer behind the position, which is where the last one went. */
  predicate StoredBehind(p: Port, q: Port, samples: seq<int>) {
    && p.len + |samples| < |p.buf| == |q.buf|
    && q == p.(len := p.len + |samples|, buf := q.buf)
    && q.buf[p.len + 1..p.len + 1 + |samples|] == samples
    && q.buf[..p.len + 1] == p.buf[..p.len + 1]
  }

  lemma StoresNext(samples: seq<int>, v: int)
    ensures Stores(samples + [v]) == Stores(samples) + [Grow, Put(v)]
  {
    assert (samples + [v])[..|samples|] == samples;
  }

  lemma {:induction false} StoresSamples(p: Port, samples: seq<int>, at: nat, arrivals: nat -> nat)
    requires Undisturbed(p, at, 2 * |samples|, arrivals) && p.len + |samples| < |p.buf|
    ensures StoredBehind(p, Prepared(p, Stores(samples), at, arrivals), samples)
    decreases |samples|
  {
    if samples == [] {
      NothingStored(p);
    } else {
      var most, last := samples[..|samples| - 1], samples[|samples| - 1];
      assert samples == most + [last];
      StoresSamples(p, most, at, arrivals);
      StoresOneMore(p, most, last, at, arrivals);
    }
  }

  lemma StoresOneMore(p: Port, most: seq<int>, last: int, at: nat, arrivals: nat -> nat)
    requires Undisturbed(p, at, 2 * |most| + 2, arrivals) && p.len + |most| + 1 < |p.buf|
    requires StoredBehind(p, Prepared(p, Stores(most), at, arrivals), most)
    ensures StoredBehind(p, Prepared(p, Stores(most + [last]), at, arrivals), most + [last])
  {
    var q := Prepared(p, Stores(most), at, arrivals);
    StoresNext(most, last);
    PreparedAppend(p, Stores(most), [Grow, Put(last)], at, arrivals);
    OneStore(q, last, at + 2 * |most|, arrivals);
    OneMoreStored(p, q, most, last);
  }

  lemma NothingStored(p: Port)
    requires p.len < |p.buf|
    ensures StoredBehind(p, p, [])
  {}

  lemma OneMoreStored(p: Port, q: Port, most: seq<int>, last: int)
    requires StoredBehind(p, q, most) && q.len + 1 < |q.buf|
    ensures StoredBehind(p, q.(len := q.len + 1, buf := q.buf[q.len + 1 := last]), most + [last])
  {
    var b, from, to := q.buf[q.len + 1 := last], p.len + 1, p.len + 1 + |most|;
    assert b[from..to + 1] == b[from..to] + [last];
    assert b[from..to] == q.buf[from..to];
    assert b[..from] == q.buf[..from];
  }

  /** The steps before the first sample: no interrupt plays anything; one may turn the port off. */
  predicate Idles(p: Port, q: Port) {
    && q.len == 0 && |q.buf| == |p.buf|
    && ((q.on == p.on && q.line == p.line) || (p.on && !q.on && q.line == p.line + [1]))
  }

  lemma {:induction false} IdleInterrupts(p: Port, n: nat)
    requires p.len == 0
    ensures Idles(p, Interrupts(p, n)) && Interrupts(p, n).pos == p.pos
    ensures Interrupts(p, n).on == (p.on && n == 0) && (n == 0 ==> Interrupts(p, n) == p)
  {
    if n > 0 {
      IdleInterrupts(p, n - 1);
    }
  }

  lemma {:induction false} SettingUp(p: Port, ops: seq<Op>, at: nat, arrivals: nat -> nat)
    requires p.len == 0 && forall k :: 0 <= k < |ops| ==> ops[k].Scan? || ops[k].SetPos? || ops[k].SetLen?
    ensures Idles(p, Prepared(p, ops, at, arrivals))
    ensures p.on && (forall k :: at <= k < at + |ops| ==> arrivals(k) == 0) ==> Prepared(p, ops, at, arrivals).on
    decreases |ops|
  {
    if ops != [] {
      IdleInterrupts(p, arrivals(at));
      SettingUp(Do(Interrupts(p, arrivals(at)), ops[0]), ops[1..], at + 1, arrivals);
    }
  }

  lemma {:induction false} ScansAreScans(text: string, j: nat)
    requires 2 * j <= |text|
    ensures forall k :: 0 <= k < 5 * j ==> Scans(text, j)[k].Scan?
  {
    if j > 0 {
      ScansAreScans(text, j - 1);
    }
  }

  /** The writer is about to store the first sample. */
  lemma BeforeTheSamples(p: Port, text: string, arrivals: nat -> nat)
    requires p.len == 0
    ensures var q := Prepared(p, Setup(text), 0, arrivals);
            Idles(p, q) && q.pos == 1 && (p.on && (forall k :: 0 <= k < First(text) ==> arrivals(k) == 0) ==> q.on)
  {
    var scans, n := Scans(text, |text| / 2), 5 * (|text| / 2);
    ScansAreScans(text, |text| / 2);
    SettingUp(p, Setup(text), 0, arrivals);
    SettingUp(p, scans, 0, arrivals);
    PreparedAppend(p, scans, [SetPos, SetLen], 0, arrivals);
    var q := Prepared(p, scans, 0, arrivals);
    TwoSteps(q, SetPos, SetLen, n, arrivals);
    IdleInterrupts(q, arrivals(n));
    IdleInterrupts(Do(Interrupts(q, arrivals(n)), SetPos), arrivals(n + 1));
  }

  lemma TwoSteps(p: Port, first: Op, second: Op, at: nat, arrivals: nat -> nat)
    ensures Prepared(p, [first, second], at, arrivals)
            == Do(Interrupts(Do(Interrupts(p, arrivals(at)), first), arrivals(at + 1)), second)
  {
    assert [first, second][1..] == [second];
    OneStep(Do(Interrupts(p, arrivals(at)), first), second, at + 1, arrivals);
  }

  /** The interrupts before a step come before all of them. */
  lemma InterruptsFirst(p: Port, ops: seq<Op>, at: nat, arrivals: nat -> nat, later: nat -> nat)
    requires ops != [] && later(at) == 0 && forall k :: at < k < at + |ops| ==> later(k) == arrivals(k)
    ensures Prepared(p, ops, at, arrivals) == Prepared(Interrupts(p, arrivals(at)), ops, at, later)
  {
    SameArrivals(Do(Interrupts(p, arrivals(at)), ops[0]), ops[1..], at + 1, arrivals, later);
  }

  lemma {:induction false} SameArrivals(p: Port, ops: seq<Op>, at: nat, arrivals: nat -> nat, others: nat -> nat)
    requires forall k :: at <= k < at + |ops| ==> arrivals(k) == others(k)
    ensures Prepared(p, ops, at, arrivals) == Prepared(p, ops, at, others)
    decreases |ops|
  {
    if ops != [] {
      SameArrivals(Do(Interrupts(p, arrivals(at)), ops[0]), ops[1..], at + 1, arrivals, others);
    }
  }

  lemma StoresAfter(p: Port, setup: seq<Op>, q: Port, wave: seq<int>, arrivals: nat -> nat)
    requires q == Prepared(p, setup, 0, arrivals) && !q.on && q.len == 0 && q.pos == 1 && |wave| + 1 < |q.buf|
    ensures var r := Prepared(p, setup + Stores(wave), 0, arrivals);
            !r.on && r.line == q.line && r.pos == 1 && Loaded(r, wave)
  {
    PreparedAppend(p, setup, Stores(wave), 0, arrivals);
    var r := Prepared(q, Stores(wave), |setup|, arrivals);
    StoresSamples(q, wave, |setup|, arrivals);
    StoredIsLoaded(q, r, wave);
  }

  /** With the port off, the samples come to lie in the buffer, and nothing is played meanwhile. */
  lemma StoredInSilence(p: Port, text: string, wave: seq<int>, arrivals: nat -> nat)
    requires !p.on && p.len == 0 && |wave| + 1 < |p.buf|
    ensures var r := Prepared(p, Setup(text) + Stores(wave), 0, arrivals);
            !r.on && r.line == p.line && r.pos == 1 && Loaded(r, wave)
  {
    BeforeTheSamples(p, text, arrivals);
    StoresAfter(p, Setup(text), Prepared(p, Setup(text), 0, arrivals), wave, arrivals);
  }

  // ----- playing what is stored ------------------------------------------------------------

  /** The levels that samples give the pin. */
  function Levels(samples: seq<int>): (levels: seq<int>)
    ensures |levels| == |samples|
    ensures forall k :: 0 <= k < |levels| ==> levels[k] == if samples[k] == 1 then 1 else 0
  {
    seq(|samples|, k requires 0 <= k < |samples| => if samples[k] == 1 then 1 else 0)
  }

  predicate Loaded(p: Port, samples: seq<int>) {
    && p.len == |samples| && p.pos + p.len <= |p.buf|
    && p.buf[p.pos..p.pos + p.len] == samples
  }

  lemma OneMoreLevel(line: seq<int>, samples: seq<int>, n: nat)
    requires n < |samples|
    ensures line + Levels(samples)[..n + 1] == line + Levels(samples)[..n] + [if samples[n] == 1 then 1 else 0]
  {
    var levels := Levels(samples);
    assert levels[..n + 1] == levels[..n] + [levels[n]];
  }

  function PlayedTo(p: Port, samples: seq<int>, n: nat): Port
    requires n <= p.len == |samples|
  {
    p.(line := p.line + Levels(samples)[..n], pos := p.pos + n, len := p.len - n)
  }

  lemma PlaysOne(p: Port, samples: seq<int>, n: nat)
    requires p.on && Loaded(p, samples) && n < p.len
    ensures Interrupted(PlayedTo(p, samples, n)) == PlayedTo(p, samples, n + 1)
  {
    OneMoreLevel(p.line, samples, n);
    assert p.buf[p.pos..p.pos + p.len][n] == p.buf[p.pos + n];
  }

  /** A port that is on plays what is stored, */
  lemma {:induction false} Plays(p: Port, samples: seq<int>, n: nat)
    requires p.on && Loaded(p, samples) && n <= p.len
    ensures Interrupts(p, n) == PlayedTo(p, samples, n)
  {
    if n == 0 {
      assert p.line + [] == p.line;
    } else {
      Plays(p, samples, n - 1);
      PlaysOne(p, samples, n - 1);
    }
  }

  /** and then idles and is off. */
  lemma {:induction false} PlaysOut(p: Port, samples: seq<int>, n: nat)
    requires p.on && Loaded(p, samples) && n > p.len
    ensures Interrupts(p, n)
            == p.(line := p.line + Levels(samples) + [1], pos := p.pos + p.len, len := 0, on := false)
  {
    if n > p.len + 1 {
      PlaysOut(p, samples, n - 1);
    } else {
      Plays(p, samples, p.len);
      assert Levels(samples)[..p.len] == Levels(samples);
    }
  }

  /** Behind the last sample nothing is left to play, and one interrupt is still to come. */
  lemma AfterTheLastSample(p: Port, samples: seq<int>)
    requires p.on && Loaded(p, samples)
    ensures var q := Interrupts(p, p.len);
            q.on && q.len == 0 && !Interrupted(q).on && q.line == p.line + Levels(samples)
  {
    Plays(p, samples, p.len);
    assert Levels(samples)[..p.len] == Levels(samples);
  }

  lemma {:induction false} InterruptsAdd(p: Port, n: nat, m: nat)
    ensures Interrupts(Interrupts(p, n), m) == Interrupts(p, n + m)
  {
    if m > 0 {
      InterruptsAdd(p, n, m - 1);
    }
  }

  /** When the port has gone quiet. */
  function Final(p: Port, ops: seq<Op>, arrivals: nat -> nat): Port {
    var q := Prepared(p, ops, 0, arrivals);
    Interrupts(q, q.len + 1)
  }

  /** All samples have been played, and the line has idled high for n interrupts. */
  predicate Over(r: Port, levels: seq<int>, n: nat) {
    !r.on && r.line == levels + Level(1, n)
  }

  lemma OnceMore(levels: seq<int>)
    ensures levels + [1] == levels + Level(1, 1) && levels + [1] + [1] == levels + Level(1, 2)
  {
    assert [1] == Level(1, 1) && [1, 1] == Level(1, 2);
  }

  lemma PlaysFromTheStart(p: Port, samples: seq<int>)
    requires Loaded(p, samples)
    ensures var q := Do(p, Enable);
            Over(Interrupts(q, q.len + 1), p.line + Levels(samples), 1)
  {
    OnceMore(p.line + Levels(samples));
    PlaysOut(Do(p, Enable), samples, p.len + 1);
  }

  lemma StaysOn(p: Port, samples: seq<int>, n: nat)
    requires Loaded(p, samples) && p.on && n <= p.len
    ensures var q := Interrupts(p, n); Do(q, Enable) == q && q.len == p.len - n
  {
    Plays(p, samples, n);
  }

  lemma PlaysOnwards(p: Port, samples: seq<int>, n: nat)
    requires Loaded(p, samples) && p.on && n <= p.len
    ensures var q := Do(Interrupts(p, n), Enable);
            Over(Interrupts(q, q.len + 1), p.line + Levels(samples), 1)
  {
    StaysOn(p, samples, n);
    InterruptsAdd(p, n, p.len - n + 1);
    PlaysOut(p, samples, p.len + 1);
    OnceMore(p.line + Levels(samples));
  }

  lemma IdlesOnceMore(p: Port, samples: seq<int>, n: nat)
    requires Loaded(p, samples) && p.on && n > p.len
    ensures var q := Do(Interrupts(p, n), Enable);
            Over(Interrupts(q, q.len + 1), p.line + Levels(samples), 2)
  {
    OnceMore(p.line + Levels(samples));
    PlaysOut(p, samples, n);
    var q := Do(Interrupts(p, n), Enable);
    assert Interrupts(q, 0) == q;
  }

  /** All samples are stored, some interrupts may come, the port is turned on, and it plays. */
  lemma PlaysToTheEnd(p: Port, samples: seq<int>, n: nat)
    requires Loaded(p, samples)
    ensures var q := Do(Interrupts(p, n), Enable);
            Over(Interrupts(q, q.len + 1), p.line + Levels(samples), if p.on && n > p.len then 2 else 1)
  {
    if !p.on {
      SilentPort(p, n);
      PlaysFromTheStart(p, samples);
    } else if n <= p.len {
      PlaysOnwards(p, samples, n);
    } else {
      IdlesOnceMore(p, samples, n);
    }
  }

  // ----- what a listener hears of it -------------------------------------------------------

  /** A listener waits for the line to leave its idle level. */
  function Listened(line: seq<int>, unit: nat): Option<seq<Heard>> {
    Decoded(line[Lead(line, 1)..], unit)
  }

  /** The port is quiet, and what the pin has done since the line was `before` is the message. */
  predicate Hears(r: Port, before: seq<int>, message: seq<Byte>) {
    !r.on && before <= r.line && Listened(r.line[|before|..], T300.unit) == Some(Sent(message, 0))
  }

  lemma IdleThenWave(idle: nat, message: seq<Byte>, n: nat)
    ensures Listened(Level(1, idle) + (Wave(T300, message) + Level(1, n)), T300.unit) == Some(Sent(message, 0))
  {
    var rest := Wave(T300, message) + Level(1, n);
    assert rest[0] == 0;
    LeadOfLevel(1, idle, rest);
    assert (Level(1, idle) + rest)[idle..] == rest;
    IdleListener(T300, message, n);
  }

  lemma LevelsOfWave(samples: seq<int>)
    requires IsWave(samples)
    ensures Levels(samples) == samples
  {}

  lemma SinceBefore(before: seq<int>, idle: nat, wave: seq<int>, n: nat, line: seq<int>)
    requires line == before + Level(1, idle) + wave + Level(1, n)
    ensures before <= line && line[|before|..] == Level(1, idle) + (wave + Level(1, n))
  {}

  lemma OverIsHeard(r: Port, before: seq<int>, idle: nat, message: seq<Byte>, n: nat)
    requires Over(r, before + Level(1, idle) + Wave(T300, message), n)
    ensures Hears(r, before, message)
  {
    SinceBefore(before, idle, Wave(T300, message), n, r.line);
    IdleThenWave(idle, message, n);
  }

  lemma InParts(p: Port, a: seq<Op>, b: seq<Op>, last: Op, arrivals: nat -> nat)
    ensures Prepared(p, a + b + [last], 0, arrivals)
            == Do(Interrupts(Prepared(Prepared(p, a, 0, arrivals), b, |a|, arrivals), arrivals(|a| + |b|)), last)
  {
    PreparedAppend(p, a + b, [last], 0, arrivals);
    PreparedAppend(p, a, b, 0, arrivals);
    OneStep(Prepared(p, a + b, 0, arrivals), last, |a| + |b|, arrivals);
  }

  lemma StoredIsLoaded(p: Port, q: Port, samples: seq<int>)
    requires StoredBehind(p, q, samples) && p.len == 0 && p.pos == 1
    ensures Loaded(q, samples)
  {}

  lemma WaveFits(message: seq<Byte>)
    requires |message| <= MAX_MESSAGE
    ensures var wave := Wave(T300, message);
            && 15 <= |wave| < SAMPLES - 1 && IsWave(wave) && wave[..13] == Level(0, 12) + [wave[12]] && wave[12] == 1
  {
    WaveLength(T300, message);
    BitsWaveIsWave(T300, MessageBits(message, 0));
  }

  lemma IdlesTwice(p: Port, q: Port, r: Port) returns (idle: nat)
    requires Idles(p, q) && Idles(q, r)
    ensures r.line == p.line + Level(1, idle) && (p.on || !r.on)
  {
    assert p.line + [] == p.line && Level(1, 0) == [] && Level(1, 1) == [1];
    idle := if r.line == p.line then 0 else 1;
  }

  /** What is left of the interrupts once those before the at-th step have come. */
  function Later(arrivals: nat -> nat, at: nat): nat -> nat {
    k => if k == at then 0 else arrivals(k)
  }

  /** If the port was off, or no interrupt comes from the first sample to the last one, the samples lie in
      the buffer and none has been played. */
  lemma AllStored(p: Port, text: string, wave: seq<int>, arrivals: nat -> nat) returns (r: Port, idle: nat)
    requires p.len == 0 && 0 < |wave| < |p.buf| - 1
    requires !p.on || forall k :: First(text) < k < First(text) + 2 * |wave| ==> arrivals(k) == 0
    ensures r == Prepared(Prepared(p, Setup(text), 0, arrivals), Stores(wave), First(text), arrivals)
    ensures Loaded(r, wave) && r.line == p.line + Level(1, idle)
  {
    var q, at := Prepared(p, Setup(text), 0, arrivals), First(text);
    BeforeTheSamples(p, text, arrivals);
    var q', later := Interrupts(q, arrivals(at)), Later(arrivals, at);
    IdleInterrupts(q, arrivals(at));
    r := Prepared(q', Stores(wave), at, later);
    InterruptsFirst(q, Stores(wave), at, arrivals, later);
    idle := IdlesTwice(p, q, q');
    StoresSamples(q', wave, at, later);
    StoredIsLoaded(q', r, wave);
  }

  lemma FinalIsOver(p: Port, a: seq<Op>, b: seq<Op>, arrivals: nat -> nat, r: Port, samples: seq<int>)
    requires r == Prepared(Prepared(p, a, 0, arrivals), b, |a|, arrivals) && Loaded(r, samples)
    ensures Over(Final(p, a + b + [Enable], arrivals), r.line + Levels(samples),
                 if r.on && arrivals(|a| + |b|) > r.len then 2 else 1)
  {
    InParts(p, a, b, Enable, arrivals);
    PlaysToTheEnd(r, samples, arrivals(|a| + |b|));
  }

  lemma WaveIsPlayed(p: Port, text: string, wave: seq<int>, arrivals: nat -> nat) returns (idle: nat, n: nat)
    requires p.len == 0 && 0 < |wave| < |p.buf| - 1 && IsWave(wave)
    requires !p.on || forall k :: First(text) < k < First(text) + 2 * |wave| ==> arrivals(k) == 0
    ensures Over(Final(p, Writes(text, wave), arrivals), p.line + Level(1, idle) + wave, n)
  {
    var r;
    r, idle := AllStored(p, text, wave, arrivals);
    FinalIsOver(p, Setup(text), Stores(wave), arrivals, r, wave);
    LevelsOfWave(wave);
    n := if r.on && arrivals(First(text) + 2 * |wave|) > r.len then 2 else 1;
  }

  /** The message is heard if the port was off when nothing was left to play, or no interrupt comes from
      the first sample stored to the last one. */
  lemma HeardUnlessBetween(p: Port, text: string, message: seq<Byte>, arrivals: nat -> nat)
    requires p.len == 0 && |p.buf| == SAMPLES && |message| <= MAX_MESSAGE
    requires !p.on || forall k :: First(text) < k < First(text) + 2 * |Wave(T300, message)| ==> arrivals(k) == 0
    ensures Hears(Final(p, Writes(text, Wave(T300, message)), arrivals), p.line, message)
  {
    WaveFits(message);
    var idle, n := WaveIsPlayed(p, text, Wave(T300, message), arrivals);
    OverIsHeard(Final(p, Writes(text, Wave(T300, message)), arrivals), p.line, idle, message, n);
  }

  lemma {:induction false} StoresAppend(a: seq<int>, b: seq<int>)
    ensures Stores(a + b) == Stores(a) + Stores(b)
    decreases |b|
  {
    if b == [] {
      assert a + b == a;
    } else {
      var most, last := b[..|b| - 1], b[|b| - 1];
      StoresAppend(a, most);
      StoresNext(a + most, last);
      StoresNext(most, last);
      assert a + b == a + most + [last] && b == most + [last];
    }
  }

  /** One interrupt, when the first sample has been stored. */
  function OneInterrupt(text: string): nat -> nat {
    k => if k == First(text) + 2 then 1 else 0
  }

  /** That sample is then played, and the others are stored in front of the position that is played next. */
  lemma FirstIsPlayed(p: Port, wave: seq<int>, at: nat, arrivals: nat -> nat) returns (r: Port)
    requires p.on && p.len == 0 && p.pos == 1 && 1 < |wave| < |p.buf| - 1
    requires forall k :: at <= k < at + 2 * |wave| ==> arrivals(k) == if k == at + 2 then 1 else 0
    ensures r == Prepared(p, Stores(wave), at, arrivals)
    ensures r.on && r.line == p.line + [if wave[0] == 1 then 1 else 0]
    ensures r.pos == 2 && r.len == |wave| - 1 && |r.buf| == |p.buf| && r.buf[1..|wave|] == wave[1..]
  {
    var one, rest := [wave[0]], wave[1..];
    assert wave == one + rest;
    StoresAppend(one, rest);
    PreparedAppend(p, Stores(one), Stores(rest), at, arrivals);
    StoresSamples(p, one, at, arrivals);
    var q := Prepared(p, Stores(one), at, arrivals);
    assert q.buf[1] == q.buf[1..2][0] == wave[0];
    var q', later := Interrupts(q, 1), Later(arrivals, at + 2);
    assert q' == Interrupted(Interrupts(q, 0));
    InterruptsFirst(q, Stores(rest), at + 2, arrivals, later);
    StoresSamples(q', rest, at + 2, later);
    r := Prepared(q', Stores(rest), at + 2, later);
  }

  /** A start bit that lost a sample is none. */
  lemma NoStartBit(line: seq<int>)
    requires |line| > 11 && line[..12] == Level(0, 11) + [1]
    ensures Listened(line, T300.unit) == None
  {
    assert line[0] == line[..12][0] == 0;
    assert line == Level(0, 11) + line[11..];
    assert line[11] == line[..12][11] == 1;
    LeadOfLevel(0, 11, line[11..]);
    assert line[0..] == line;
    assert LowTimes(line)[0] == 11;
  }

  lemma ShortWaveIsPlayed(p: Port, text: string, wave: seq<int>, arrivals: nat -> nat) returns (buf: seq<int>)
    requires p.on && p.len == 0 && 15 <= |wave| < |p.buf| - 1 && wave[0] == 0 && arrivals == OneInterrupt(text)
    ensures |buf| == |p.buf| && buf[1..|wave|] == wave[1..]
    ensures Over(Final(p, Writes(text, wave), arrivals), p.line + [0] + Levels(buf[2..|wave| + 1]), 1)
  {
    var q := Prepared(p, Setup(text), 0, arrivals);
    BeforeTheSamples(p, text, arrivals);
    assert q.on && q.line == p.line;
    var r := FirstIsPlayed(q, wave, First(text), arrivals);
    buf := r.buf;
    FinalIsOver(p, Setup(text), Stores(wave), arrivals, r, buf[2..|wave| + 1]);
  }

  /** An interrupt that comes when the first sample has been stored: nobody hears a message. */
  lemma AnInterruptBetween(p: Port, text: string, message: seq<Byte>)
    requires p.on && p.len == 0 && |p.buf| == SAMPLES && |message| <= MAX_MESSAGE
    ensures var r := Final(p, Writes(text, Wave(T300, message)), OneInterrupt(text));
            && !r.on && p.line <= r.line
            && Listened(r.line[|p.line|..], T300.unit) == None
  {
    var wave := Wave(T300, message);
    WaveFits(message);
    assert wave[0] == wave[..13][0];
    var buf := ShortWaveIsPlayed(p, text, wave, OneInterrupt(text));
    ShortStart(wave, buf, p.line);
    NoStartBit((p.line + [0] + Levels(buf[2..|wave| + 1]) + Level(1, 1))[|p.line|..]);
  }

  lemma ShortStart(wave: seq<int>, buf: seq<int>, before: seq<int>)
    requires 15 <= |wave| < |buf| && wave[..13] == Level(0, 12) + [1] && buf[1..|wave|] == wave[1..]
    ensures var samples := buf[2..|wave| + 1];
            var line := before + [0] + Levels(samples) + Level(1, 1);
            && before <= line && |line| > |before| + 11 && wave[0] == 0
            && line[|before|..][..12] == Level(0, 11) + [1]
  {
    var samples := buf[2..|wave| + 1];
    var line := before + [0] + Levels(samples) + Level(1, 1);
    assert wave[0] == wave[..13][0];
    forall k | 0 <= k < 11 ensures Levels(samples)[k] == if k < 10 then 0 else 1 {
      assert samples[k] == buf[k + 2] == buf[1..|wave|][k + 1] == wave[1..][k + 1] == wave[k + 2] == wave[..13][k + 2];
    }
    assert line[|before|..] == [0] + Levels(samples) + Level(1, 1);
  }

  /** Whatever the arrivals, the message is heard: exactly when the port's interrupts were off when
      nothing was left to play. */
  lemma HeardForAllArrivals(p: Port, text: string, message: seq<Byte>)
    requires p.len == 0 && |p.buf| == SAMPLES && |message| <= MAX_MESSAGE
    ensures (forall arrivals: nat -> nat ::
               Hears(Final(p, Writes(text, Wave(T300, message)), arrivals), p.line, message)) <==> !p.on
  {
    if p.on {
      AnInterruptBetween(p, text, message);
    } else {
      forall arrivals: nat -> nat ensures Hears(Final(p, Writes(text, Wave(T300, message)), arrivals), p.line, message) {
        HeardUnlessBetween(p, text, message, arrivals);
      }
    }
  }

  lemma TwoMore(a: seq<bool>, b: seq<bool>, x: bool, y: bool)
    ensures a + b + [x] + [y] == a + (b + [x, y])
  {}

  lemma RoomForBlock(bits: seq<bool>, message: seq<Byte>, k: nat, all: seq<bool>)
    requires k < |message| <= MAX_MESSAGE && bits + MessageBits(message, k) == all && |all| == 10 * |message|
    ensures |bits| + 10 <= 10 * MAX_MESSAGE
  {
    assert |bits + MessageBits(message, k)| == |all|;
  }

  lemma NoBlockLeft(bits: seq<bool>, message: seq<Byte>)
    ensures bits + MessageBits(message, |message|) == bits
  {
    assert bits + [] == bits;
  }

  class Sender {
    const buf: array<int>
    var bufLen: nat
    var bufPos: nat
    var intEnable: bool               // ASC_INTEN
    var line: seq<int>                // the pin's level after each interrupt
    const scan: (char, char) -> Byte  // sscanf of two characters as a hexadecimal number
    var steps: nat                    // of the call at hand
    ghost var begun: Port             // the state it began in
    ghost var done: seq<Op>           // its steps
    ghost var setup: seq<Op>          // those of them before the first sample
    ghost var stored: seq<int>        // the samples stored so far
    ghost var bits: seq<bool>         // that they stand for

    ghost predicate Valid()
      reads this, buf
    {
      buf.Length == SAMPLES && bufPos + bufLen <= SAMPLES
    }

    ghost function State(): Port
      reads this, buf
    {
      Port(buf[..], bufPos, bufLen, intEnable, line)
    }

    ghost function Playing(): Player
      requires Valid()
      reads this, buf
    {
      Player(buf[bufPos..bufPos + bufLen], line, intEnable)
    }

    /** The steps so far and the interrupts between them have led to this state. */
    ghost predicate Follows(arrivals: nat -> nat)
      reads this, buf
    {
      Valid() && steps == |done| && State() == Prepared(begun, done, 0, arrivals)
    }

    /** All steps since the setting up have stored samples. */
    ghost predicate Storing(arrivals: nat -> nat)
      reads this, buf
    {
      && Follows(arrivals) && done == setup + Stores(stored)
      && bufPos >= 1 && bufPos + bufLen == |stored| + 1
    }

    /** The samples so far: a start bit and some bits. */
    ghost predicate Holds(t: Timing, arrivals: nat -> nat)
      reads this, buf
    {
      Storing(arrivals) && stored == Pulse(t.startLow, t.startHigh) + BitsWave(t, bits)
    }

    constructor (scan: (char, char) -> Byte)
      ensures Valid() && bufLen == 0 && !intEnable && line == [] && this.scan == scan && fresh(buf)
      ensures buf.Length == 3000
    {
      this.scan := scan;
      buf := new int[SAMPLES](_ => 0);
      bufLen, bufPos, intEnable, line, steps := 0, 0, false, [], 0;
      begun, done, setup, stored, bits := Port([], 0, 0, false, []), [], [], [], [];
    }

    /** asc_irq */
    method AscIrq()
      requires Valid() && intEnable
      modifies this`bufPos, this`bufLen, this`intEnable, this`line
      ensures Valid() && Playing() == Played(old(Playing()))
      ensures State() == Interrupted(old(State()))
    {
      if bufLen > 0 {
        line := line + [if buf[bufPos] == 1 then 1 else 0];
        bufPos := bufPos + 1;
        bufLen := bufLen - 1;
      } else {
        line := line + [1];
        intEnable := false;
      }
    }

    /** The interrupts that come before the next step. */
    method Disturb(n: nat)
      requires Valid()
      modifies this`bufPos, this`bufLen, this`intEnable, this`line
      ensures Valid() && State() == Interrupts(old(State()), n)
      ensures bufPos + bufLen == old(bufPos + bufLen) && bufPos >= old(bufPos)
      ensures old(bufLen) == 0 ==> bufLen == 0
    {
      var i := 0;
      while i < n
        invariant i <= n && Valid() && State() == Interrupts(old(State()), i)
        invariant bufPos + bufLen == old(bufPos + bufLen) && bufPos >= old(bufPos)
        invariant old(bufLen) == 0 ==> bufLen == 0
      {
        if intEnable {
          AscIrq();
        }
        i := i + 1;
      }
    }

    lemma NextFollows(op: Op, arrivals: nat -> nat)
      ensures Prepared(begun, done + [op], 0, arrivals)
              == Do(Interrupts(Prepared(begun, done, 0, arrivals), arrivals(|done|)), op)
    {
      PreparedAppend(begun, done, [op], 0, arrivals);
      OneStep(Prepared(begun, done, 0, arrivals), op, |done|, arrivals);
    }

    method ScanStep(at: nat, c: char, arrivals: nat -> nat)
      requires Follows(arrivals) && at < SAMPLES && bufLen == 0
      modifies this`bufPos, this`bufLen, this`intEnable, this`line, this`steps, this`done, buf
      ensures Follows(arrivals) && done == old(done) + [Scan(at, c as int)] && bufLen == 0
    {
      NextFollows(Scan(at, c as int), arrivals);
      Disturb(arrivals(steps));
      buf[at] := c as int;
      steps, done := steps + 1, done + [Scan(at, c as int)];
    }

    /** The two positions before the first sample. */
    method SetPositions(arrivals: nat -> nat)
      requires Follows(arrivals) && bufLen == 0
      modifies this`bufPos, this`bufLen, this`intEnable, this`line, this`steps, this`done
      ensures Follows(arrivals) && done == old(done) + [SetPos] + [SetLen] && bufLen == 0 && bufPos == 1
    {
      NextFollows(SetPos, arrivals);
      Disturb(arrivals(steps));
      bufPos := 1;
      steps, done := steps + 1, done + [SetPos];
      NextFollows(SetLen, arrivals);
      Disturb(arrivals(steps));
      bufLen := 0;
      steps, done := steps + 1, done + [SetLen];
    }

    method GrowStep(arrivals: nat -> nat)
      requires Follows(arrivals) && bufPos >= 1 && bufPos + bufLen < SAMPLES
      modifies this`bufPos, this`bufLen, this`intEnable, this`line, this`steps, this`done
      ensures Follows(arrivals) && done == old(done) + [Grow]
      ensures bufPos >= 1 && bufPos + bufLen == old(bufPos + bufLen) + 1
    {
      NextFollows(Grow, arrivals);
      Disturb(arrivals(steps));
      bufLen := bufLen + 1;
      steps, done := steps + 1, done + [Grow];
    }

    method PutStep(level: int, arrivals: nat -> nat)
      requires Follows(arrivals) && bufPos >= 1
      modifies this`bufPos, this`bufLen, this`intEnable, this`line, this`steps, this`done, buf
      ensures Follows(arrivals) && done == old(done) + [Put(level)]
      ensures bufPos >= 1 && bufPos + bufLen == old(bufPos + bufLen)
    {
      NextFollows(Put(level), arrivals);
      Disturb(arrivals(steps));
      buf[bufLen] := level;
      steps, done := steps + 1, done + [Put(level)];
    }

    method AddSample(level: int, arrivals: nat -> nat)
      requires Storing(arrivals) && |stored| + 1 < SAMPLES
      modifies this`bufPos, this`bufLen, this`intEnable, this`line, this`steps, this`done, this`stored, buf
      ensures Storing(arrivals) && stored == old(stored) + [level]
    {
      StoresNext(stored, level);
      GrowStep(arrivals);
      PutStep(level, arrivals);
      stored := stored + [level];
      assert setup + Stores(old(stored)) + [Grow] + [Put(level)] == setup + (Stores(old(stored)) + [Grow, Put(level)]);
    }

    /** One of the loops that add samples of one level. */
    method Add(level: int, count: nat, arrivals: nat -> nat)
      requires Storing(arrivals) && |stored| + count + 1 <= SAMPLES
      modifies this`bufPos, this`bufLen, this`intEnable, this`line, this`steps, this`done, this`stored, buf
      ensures Storing(arrivals) && stored == old(stored) + Level(level, count)
    {
      var i := 0;
      while i < count
        invariant i <= count && Storing(arrivals) && stored == old(stored) + Level(level, i)
      {
        AddSample(level, arrivals);
        assert Level(level, i + 1) == Level(level, i) + [level];
        i := i + 1;
      }
    }

    method AddPulse(low: nat, high: nat, arrivals: nat -> nat)
      requires Storing(arrivals) && |stored| + low + high + 1 <= SAMPLES
      modifies this`bufPos, this`bufLen, this`intEnable, this`line, this`steps, this`done, this`stored, buf
      ensures Storing(arrivals) && stored == old(stored) + Pulse(low, high)
    {
      Add(0, low, arrivals);
      Add(1, high, arrivals);
    }

    method AddBit(t: Timing, b: bool, arrivals: nat -> nat)
      requires Holds(t, arrivals) && Known(t) && |bits| < 10 * MAX_MESSAGE
      modifies this`bufPos, this`bufLen, this`intEnable, this`line, this`steps, this`done, this`stored, this`bits, buf
      ensures Holds(t, arrivals) && bits == old(bits) + [b]
    {
      BitsWaveLength(t, bits);
      OneMoreBit(t, bits, b);
      bits := bits + [b];
      if b {
        AddPulse(t.oneLow, t.oneHigh, arrivals);
      } else {
        AddPulse(t.zeroLow, t.zeroHigh, arrivals);
      }
    }

    method AddNextBit(t: Timing, byte: Byte, left: nat, arrivals: nat -> nat) returns (next: Byte)
      requires Holds(t, arrivals) && Known(t) && |bits| < 10 * MAX_MESSAGE && left > 0
      modifies this`bufPos, this`bufLen, this`intEnable, this`line, this`steps, this`done, this`stored, this`bits, buf
      ensures Holds(t, arrivals) && bits + ByteBits(next, left - 1) == old(bits) + ByteBits(byte, left)
    {
      next := byte * 2 % 256;
      Regrouped(bits, [byte >= 128], ByteBits(next, left - 1));
      AddBit(t, byte >= 128, arrivals);
    }

    /** The bits of a byte, shifted out to the left. */
    method AddByte(t: Timing, b: Byte, count: nat, arrivals: nat -> nat)
      requires Holds(t, arrivals) && Known(t) && |bits| + count <= 10 * MAX_MESSAGE
      modifies this`bufPos, this`bufLen, this`intEnable, this`line, this`steps, this`done, this`stored, this`bits, buf
      ensures Holds(t, arrivals) && bits == old(bits) + ByteBits(b, count)
    {
      var byte := b;
      ghost var all := bits + ByteBits(b, count);
      var i := 0;
      while i < count
        invariant i <= count && Holds(t, arrivals) && bits + ByteBits(byte, count - i) == all
      {
        assert |bits + ByteBits(byte, count - i)| == |all|;
        byte := AddNextBit(t, byte, count - i, arrivals);
        i := i + 1;
      }
      assert bits + [] == bits;
    }

    method AddBlock(t: Timing, b: Byte, last: bool, arrivals: nat -> nat)
      requires Holds(t, arrivals) && Known(t) && |bits| + 10 <= 10 * MAX_MESSAGE
      modifies this`bufPos, this`bufLen, this`intEnable, this`line, this`steps, this`done, this`stored, this`bits, buf
      ensures Holds(t, arrivals) && bits == old(bits) + BlockBits(b, last)
    {
      TwoMore(bits, ByteBits(b, 8), last, false);
      AddByte(t, b, 8, arrivals);
      AddBit(t, last, arrivals);
      AddBit(t, false, arrivals);
    }

    /** sscanf's text for the j-th byte. */
    method ScanOne(text: string, j: nat, arrivals: nat -> nat) returns (byte: Byte)
      requires Follows(arrivals) && bufLen == 0 && 2 * j + 1 < |text| && done == Scans(text, j)
      modifies this`bufPos, this`bufLen, this`intEnable, this`line, this`steps, this`done, buf
      ensures Follows(arrivals) && bufLen == 0 && done == Scans(text, j + 1) && byte == scan(text[2 * j], text[2 * j + 1])
    {
      ScansNext(text, j);
      ScanStep(0, '0', arrivals);
      ScanStep(1, 'x', arrivals);
      ScanStep(2, text[2 * j], arrivals);
      ScanStep(3, text[2 * j + 1], arrivals);
      ScanStep(4, '\0', arrivals);
      byte := scan(text[2 * j], text[2 * j + 1]);
    }

    /** The bytes of the text; the first five places of the buffer serve for the scanning. */
    method Parse(text: string, arrivals: nat -> nat) returns (message: seq<Byte>)
      requires Follows(arrivals) && bufLen == 0 && done == []
      modifies this`bufPos, this`bufLen, this`intEnable, this`line, this`steps, this`done, buf
      ensures Follows(arrivals) && bufLen == 0 && done == Scans(text, |text| / 2) && message == Text(scan, text)
    {
      message := [];
      var j := 0;
      while j < |text| / 2
        invariant j <= |text| / 2 && |message| == j && Follows(arrivals) && bufLen == 0 && done == Scans(text, j)
        invariant forall k :: 0 <= k < j ==> message[k] == Text(scan, text)[k]
      {
        var byte := ScanOne(text, j, arrivals);
        message := message + [byte];
        j := j + 1;
      }
    }

    method AddStart(t: Timing, arrivals: nat -> nat)
      requires Follows(arrivals) && bufLen == 0 && Known(t)
      modifies this`bufPos, this`bufLen, this`intEnable, this`line, this`steps, this`done, this`setup, this`stored, this`bits, buf
      ensures Holds(t, arrivals) && bits == [] && setup == old(done) + [SetPos, SetLen]
    {
      SetPositions(arrivals);
      setup, stored, bits := done, [], [];
      assert done == setup + Stores([]);
      AddPulse(t.startLow, t.startHigh, arrivals);
    }

    method AddNextBlock(t: Timing, message: seq<Byte>, k: nat, arrivals: nat -> nat)
      requires Holds(t, arrivals) && Known(t) && |bits| + 10 <= 10 * MAX_MESSAGE && k < |message|
      modifies this`bufPos, this`bufLen, this`intEnable, this`line, this`steps, this`done, this`stored, this`bits, buf
      ensures Holds(t, arrivals) && bits + MessageBits(message, k + 1) == old(bits) + MessageBits(message, k)
    {
      Regrouped(bits, BlockBits(message[k], k + 1 == |message|), MessageBits(message, k + 1));
      AddBlock(t, message[k], k + 1 == |message|, arrivals);
    }

    method AddBlocks(t: Timing, message: seq<Byte>, arrivals: nat -> nat)
      requires Holds(t, arrivals) && Known(t) && bits == [] && |message| <= MAX_MESSAGE
      modifies this`bufPos, this`bufLen, this`intEnable, this`line, this`steps, this`done, this`stored, this`bits, buf
      ensures Holds(t, arrivals) && bits == MessageBits(message, 0)
    {
      var k := 0;
      ghost var all := MessageBits(message, 0);
      while k < |message|
        invariant k <= |message| && Holds(t, arrivals) && bits + MessageBits(message, k) == all
      {
        RoomForBlock(bits, message, k, all);
        AddNextBlock(t, message, k, arrivals);
        k := k + 1;
      }
      NoBlockLeft(bits, message);
    }

    lemma PreparesSilently(text: string, arrivals: nat -> nat)
      requires Storing(arrivals) && setup == Setup(text) && |stored| + 1 < SAMPLES
      requires begun.len == 0 && |begun.buf| == SAMPLES && !begun.on
      ensures Playing() == Player(stored, begun.line, false)
    {
      StoredInSilence(begun, text, stored, arrivals);
      var r := State();
      assert r.buf[r.pos..r.pos + r.len] == stored;
    }

    lemma Prepares(t: Timing, message: seq<Byte>, arrivals: nat -> nat)
      requires Holds(t, arrivals) && Known(t) && bits == MessageBits(message, 0) && |message| <= MAX_MESSAGE
      ensures stored == Wave(t, message) && |stored| + 1 < SAMPLES
    {
      WaveLength(t, message);
    }

    /** prepare_to_buf_300us and prepare_to_buf_100us, with the interrupts that come before each store and
        each change of a position. */
    method PrepareToBuf(t: Timing, text: string, arrivals: nat -> nat)
      requires Valid() && bufLen == 0 && Known(t) && |text| / 2 <= MAX_MESSAGE
      modifies this, buf
      ensures Follows(arrivals) && begun == old(State()) && done == Setup(text) + Stores(Wave(t, Text(scan, text)))
      ensures !old(intEnable) ==> Playing() == Player(Wave(t, Text(scan, text)), old(line), false)
    {
      begun, done, steps := State(), [], 0;
      var message := Parse(text, arrivals);
      AddStart(t, arrivals);
      AddBlocks(t, message, arrivals);
      Prepares(t, message, arrivals);
      if !begun.on {
        PreparesSilently(text, arrivals);
      }
    }

    method TurnOn(arrivals: nat -> nat)
      requires Follows(arrivals)
      modifies this`bufPos, this`bufLen, this`intEnable, this`line, this`steps, this`done
      ensures Follows(arrivals) && done == old(done) + [Enable]
      ensures !old(intEnable) ==> Playing() == old(Playing()).(on := true)
    {
      NextFollows(Enable, arrivals);
      if !intEnable {
        SilentPort(State(), arrivals(steps));
      }
      Disturb(arrivals(steps));
      intEnable := true;
      steps, done := steps + 1, done + [Enable];
    }

    /** proc_cec_write, once its waiting is over: it gives up when samples are left to play. */
    method ProcCecWrite(text: string, arrivals: nat -> nat) returns (r: int)
      requires Valid() && |text| / 2 <= MAX_MESSAGE
      modifies this, buf
      ensures Valid()
      ensures r == if old(bufLen) > 0 then -14 else |text|
      ensures State() == if old(bufLen) > 0 then old(State())
                         else Prepared(old(State()), Writes(text, Wave(T300, Text(scan, text))), 0, arrivals)
      ensures old(bufLen) == 0 && !old(intEnable) ==>
                Playing() == Player(Wave(T300, Text(scan, text)), old(line), true)
    {
      if bufLen != 0 {
        return -14;                 // EFAULT
      }
      PrepareToBuf(T300, text, arrivals);
      TurnOn(arrivals);
      r := |text|;
    }
  }
}
