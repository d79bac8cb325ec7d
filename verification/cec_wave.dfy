/** The CEC sender that plays a waveform into a pin (cec_adb_box/cec.c): a message is turned into
    samples of the line, one for each interrupt of a serial port that only serves as a clock. */
module CecWave {
  import opened Bytes

  const SAMPLES := 3000        // of buf
  const MAX_MESSAGE := 10      // of buf_

  /** The samples at low and high level for the start bit, a 1 and a 0; the unit is in microseconds. */
  datatype Timing = Timing(unit: nat, startLow: nat, startHigh: nat,
                           oneLow: nat, oneHigh: nat, zeroLow: nat, zeroHigh: nat)

  const T300 := Timing(300, 12, 3, 2, 6, 5, 3)       // prepare_to_buf_300us
  const T100 := Timing(100, 37, 8, 6, 18, 15, 9)     // prepare_to_buf_100us

  predicate Known(t: Timing) {
    t == T300 || t == T100
  }

  // ----- samples -------------------------------------------------------------------------

  function Level(v: int, n: nat): (s: seq<int>)
    ensures |s| == n && forall k :: 0 <= k < n ==> s[k] == v
  {
    seq(n, _ => v)
  }

  function Pulse(low: nat, high: nat): (s: seq<int>)
    ensures |s| == low + high
  {
    Level(0, low) + Level(1, high)
  }

  function BitWave(t: Timing, b: bool): seq<int> {
    if b then Pulse(t.oneLow, t.oneHigh) else Pulse(t.zeroLow, t.zeroHigh)
  }

  function BitsWave(t: Timing, bits: seq<bool>): seq<int> {
    if bits == [] then [] else BitsWave(t, bits[..|bits| - 1]) + BitWave(t, bits[|bits| - 1])
  }

  /** The bits of a byte, the highest first, as shifting to the left gives them. */
  function ByteBits(b: Byte, n: nat): (bits: seq<bool>)
    ensures |bits| == n
    decreases n
  {
    if n == 0 then [] else [b >= 128] + ByteBits(b * 2 % 256, n - 1)
  }

  /** A block: the byte, the end-of-message flag, and a 0 for the acknowledgement. */
  function BlockBits(b: Byte, last: bool): (bits: seq<bool>)
    ensures |bits| == 10
  {
    ByteBits(b, 8) + [last, false]
  }

  function MessageBits(message: seq<Byte>, k: nat): (bits: seq<bool>)
    requires k <= |message|
    ensures |bits| == 10 * (|message| - k)
    decreases |message| - k
  {
    if k == |message| then [] else BlockBits(message[k], k + 1 == |message|) + MessageBits(message, k + 1)
  }

  function Wave(t: Timing, message: seq<Byte>): seq<int> {
    Pulse(t.startLow, t.startHigh) + BitsWave(t, MessageBits(message, 0))
  }

  lemma {:induction false} BitsWaveLength(t: Timing, bits: seq<bool>)
    requires Known(t)
    ensures |BitsWave(t, bits)| == if t == T300 then 8 * |bits| else 24 * |bits|
    decreases |bits|
  {
    if bits != [] {
      BitsWaveLength(t, bits[..|bits| - 1]);
    }
  }

  /** 15 samples and 80 for each byte, or 45 and 240. */
  lemma WaveLength(t: Timing, message: seq<Byte>)
    requires Known(t)
    ensures |Wave(t, message)| == if t == T300 then 15 + 80 * |message| else 45 + 240 * |message|
  {
    BitsWaveLength(t, MessageBits(message, 0));
  }

  // ----- a decoder by low time -----------------------------------------------------------

  datatype Symbol = Start | One | Zero

  /** A symbol by the time in microseconds that the line is low: section CEC 5.2 of HDMI 1.3a
      Supplement 1 has 3.7 ms for the start bit, 1.5 ms for a 0 and 0.6 ms for a 1, each 0.2 ms more or
      less. */
  function ByLowTime(us: nat): Option<Symbol> {
    if 3500 <= us <= 3900 then Some(Start)
    else if 1300 <= us <= 1700 then Some(Zero)
    else if 400 <= us <= 800 then Some(One)
    else None
  }

  /** How many samples from the first on are v. */
  function Lead(s: seq<int>, v: int): (n: nat)
    ensures n <= |s|
  {
    if s == [] || s[0] != v then 0 else 1 + Lead(s[1..], v)
  }

  /** The low times of a waveform, in samples. */
  function LowTimes(s: seq<int>): seq<nat>
    decreases |s|
  {
    var low := Lead(s, 0);
    var high := Lead(s[low..], 1);
    if low + high == 0 then [] else [low] + LowTimes(s[low + high..])
  }

  function BitsHeard(lows: seq<nat>, unit: nat): Option<seq<bool>> {
    if lows == [] then Some([])
    else
      match (ByLowTime(lows[0] * unit), BitsHeard(lows[1..], unit))
      case (Some(Zero), Some(bits)) => Some([false] + bits)
      case (Some(One), Some(bits)) => Some([true] + bits)
      case _ => None
  }

  datatype Heard = Heard(value: int, endOfMessage: bool, ack: bool)

  function Weighted(bits: seq<bool>, weight: nat): nat {
    if bits == [] then 0 else (if bits[0] then weight else 0) + Weighted(bits[1..], weight / 2)
  }

  function BlocksHeard(bits: seq<bool>): seq<Heard>
    decreases |bits|
  {
    if |bits| < 10 then []
    else [Heard(Weighted(bits[..8], 128), bits[8], bits[9])] + BlocksHeard(bits[10..])
  }

  /** The blocks a listener hears; None if there is no start bit, or a pulse it does not know. */
  function Decoded(samples: seq<int>, unit: nat): Option<seq<Heard>> {
    var lows := LowTimes(samples);
    if lows == [] || ByLowTime(lows[0] * unit) != Some(Start) then None
    else
      match BitsHeard(lows[1..], unit)
      case None => None
      case Some(bits) => Some(BlocksHeard(bits))
  }

  // ----- the decoder hears the message -----------------------------------------------------

  lemma {:induction false} LeadOfLevel(v: int, n: nat, rest: seq<int>)
    requires rest == [] || rest[0] != v
    ensures Lead(Level(v, n) + rest, v) == n
  {
    var s := Level(v, n) + rest;
    if n == 0 {
      assert s == rest;
    } else {
      assert s[1..] == Level(v, n - 1) + rest;
      LeadOfLevel(v, n - 1, rest);
    }
  }

  lemma Dropped(front: seq<int>, rest: seq<int>)
    ensures (front + rest)[|front|..] == rest
  {}

  lemma LowTimesOfPulse(low: nat, high: nat, rest: seq<int>)
    requires low > 0 && high > 0 && (rest == [] || rest[0] == 0)
    ensures LowTimes(Pulse(low, high) + rest) == [low] + LowTimes(rest)
  {
    var s := Pulse(low, high) + rest;
    var tail := Level(1, high) + rest;
    Regrouped(Level(0, low), Level(1, high), rest);
    LeadOfLevel(0, low, tail);
    Dropped(Level(0, low), tail);
    LeadOfLevel(1, high, rest);
    Dropped(Pulse(low, high), rest);
    LowTimesFront(s, low, high);
  }

  lemma {:induction false} BitsWaveFront(t: Timing, bits: seq<bool>)
    requires bits != []
    ensures BitsWave(t, bits) == BitWave(t, bits[0]) + BitsWave(t, bits[1..])
    decreases |bits|
  {
    if |bits| == 1 {
      assert bits[..0] == [] && bits[1..] == [];
    } else {
      var most, last, rest := bits[..|bits| - 1], bits[|bits| - 1], bits[1..];
      BitsWaveFront(t, most);
      assert most[1..] == rest[..|rest| - 1] && rest[|rest| - 1] == last;
      Regrouped(BitWave(t, bits[0]), BitsWave(t, most[1..]), BitWave(t, last));
    }
  }

  lemma StartsLow(t: Timing, bits: seq<bool>)
    requires Known(t)
    ensures BitsWave(t, bits) == [] || BitsWave(t, bits)[0] == 0
  {
    if bits != [] {
      BitsWaveFront(t, bits);
    }
  }

  function LowOf(t: Timing, b: bool): nat {
    if b then t.oneLow else t.zeroLow
  }

  lemma LowTimeOfBit(t: Timing, b: bool)
    requires Known(t)
    ensures ByLowTime(LowOf(t, b) * t.unit) == Some(if b then One else Zero)
  {
    if t == T300 {} else {}
  }

  lemma SymbolIsHeard(low: nat, lows: seq<nat>, unit: nat, b: bool, rest: seq<bool>)
    requires ByLowTime(low * unit) == Some(if b then One else Zero) && BitsHeard(lows, unit) == Some(rest)
    ensures BitsHeard([low] + lows, unit) == Some([b] + rest)
  {
    assert ([low] + lows)[1..] == lows;
  }

  lemma BitIsHeard(t: Timing, b: bool, wave: seq<int>, rest: seq<bool>)
    requires Known(t) && (wave == [] || wave[0] == 0)
    requires BitsHeard(LowTimes(wave), t.unit) == Some(rest)
    ensures BitsHeard(LowTimes(BitWave(t, b) + wave), t.unit) == Some([b] + rest)
  {
    LowTimesOfPulse(LowOf(t, b), if b then t.oneHigh else t.zeroHigh, wave);
    LowTimeOfBit(t, b);
    SymbolIsHeard(LowOf(t, b), LowTimes(wave), t.unit, b, rest);
  }

  lemma {:induction false} BitsAreHeard(t: Timing, bits: seq<bool>)
    requires Known(t)
    ensures BitsHeard(LowTimes(BitsWave(t, bits)), t.unit) == Some(bits)
    decreases |bits|
  {
    if bits != [] {
      var rest, b := bits[1..], bits[0];
      BitsWaveFront(t, bits);
      StartsLow(t, rest);
      BitsAreHeard(t, rest);
      BitIsHeard(t, b, BitsWave(t, rest), rest);
      assert bits == [b] + rest;
    } else {
      assert Lead([], 0) == 0;
    }
  }

  function Weight(n: nat): nat
    requires n <= 8
  {
    if n == 8 then 128 else if n == 7 then 64 else if n == 6 then 32 else if n == 5 then 16
    else if n == 4 then 8 else if n == 3 then 4 else if n == 2 then 2 else if n == 1 then 1 else 0
  }

  function Scale(n: nat): (k: nat)
    requires n <= 8
    ensures k > 0 && (n > 0 ==> Weight(n) * k == 128 && Weight(n) / 2 == Weight(n - 1))
  {
    if n == 8 then 1 else if n == 7 then 2 else if n == 6 then 4 else if n == 5 then 8
    else if n == 4 then 16 else if n == 3 then 32 else if n == 2 then 64 else if n == 1 then 128 else 256
  }

  /** The lower bits of a byte are what they weigh, when the others have been shifted out. */
  lemma {:induction false} ByteIsHeard(b: Byte, n: nat, lower: nat)
    requires n <= 8 && b == lower * Scale(n)
    ensures Weighted(ByteBits(b, n), Weight(n)) == lower
    decreases n
  {
    if n > 0 {
      var rest := lower - if b >= 128 then Weight(n) else 0;
      ShiftedOut(b, n, lower, rest);
      ByteIsHeard(b * 2 % 256, n - 1, rest);
      assert ByteBits(b, n)[1..] == ByteBits(b * 2 % 256, n - 1);
    }
  }

  lemma ShiftedOut(b: Byte, n: nat, lower: nat, rest: int)
    requires 0 < n <= 8 && b == lower * Scale(n) && rest == lower - if b >= 128 then Weight(n) else 0
    ensures rest >= 0 && b * 2 % 256 == rest * Scale(n - 1)
  {
    assert b * 2 % 256 == 2 * b - if b >= 128 then 256 else 0;
    if n == 8 {} else if n == 7 {} else if n == 6 {} else if n == 5 {}
    else if n == 4 {} else if n == 3 {} else if n == 2 {} else {}
  }

  function Sent(message: seq<Byte>, k: nat): (blocks: seq<Heard>)
    requires k <= |message|
    decreases |message| - k
  {
    if k == |message| then [] else [Heard(message[k], k + 1 == |message|, false)] + Sent(message, k + 1)
  }

  lemma {:induction false} BlocksAreHeard(message: seq<Byte>, k: nat)
    requires k <= |message|
    ensures BlocksHeard(MessageBits(message, k)) == Sent(message, k)
    decreases |message| - k
  {
    if k < |message| {
      var block, rest := BlockBits(message[k], k + 1 == |message|), MessageBits(message, k + 1);
      var bits := block + rest;
      assert bits[..8] == ByteBits(message[k], 8) && bits[8] == (k + 1 == |message|) && !bits[9];
      assert bits[10..] == rest;
      ByteIsHeard(message[k], 8, message[k]);
      BlocksAreHeard(message, k + 1);
    }
  }

  /** A listener that goes by the low times hears the message, and the end-of-message flag with the
      last byte only. */
  lemma ListenerHearsTheMessage(t: Timing, message: seq<Byte>)
    requires Known(t)
    ensures Decoded(Wave(t, message), t.unit) == Some(Sent(message, 0))
  {
    var bits := MessageBits(message, 0);
    StartsLow(t, bits);
    BitsAreHeard(t, bits);
    StartIsHeard(t, BitsWave(t, bits), bits);
    BlocksAreHeard(message, 0);
  }

  lemma StartIsHeard(t: Timing, wave: seq<int>, bits: seq<bool>)
    requires Known(t) && (wave == [] || wave[0] == 0)
    requires BitsHeard(LowTimes(wave), t.unit) == Some(bits)
    ensures Decoded(Pulse(t.startLow, t.startHigh) + wave, t.unit) == Some(BlocksHeard(bits))
  {
    LowTimesOfPulse(t.startLow, t.startHigh, wave);
    var lows := [t.startLow] + LowTimes(wave);
    assert lows[1..] == LowTimes(wave);
    assert ByLowTime(t.startLow * t.unit) == Some(Start);
  }

  // ----- a line that stays high ----------------------------------------------------------

  ghost predicate IsWave(samples: seq<int>) {
    forall k :: 0 <= k < |samples| ==> samples[k] == 0 || samples[k] == 1
  }

  lemma {:induction false} BitsWaveIsWave(t: Timing, bits: seq<bool>)
    ensures IsWave(BitsWave(t, bits))
    decreases |bits|
  {
    if bits != [] {
      BitsWaveIsWave(t, bits[..|bits| - 1]);
    }
  }

  predicate IsHigh(s: seq<int>) {
    s != [] && s[|s| - 1] == 1
  }

  lemma {:induction false} LeadOfFront(s: seq<int>, rest: seq<int>, v: int)
    ensures Lead(s + rest, v) == if Lead(s, v) < |s| then Lead(s, v) else |s| + Lead(rest, v)
  {
    if s == [] {
      assert s + rest == rest;
    } else if s[0] == v {
      assert (s + rest)[1..] == s[1..] + rest;
      LeadOfFront(s[1..], rest, v);
    }
  }

  lemma {:induction false} LeadIsLevel(s: seq<int>, v: int, k: nat)
    requires k < |s|
    ensures k < Lead(s, v) ==> s[k] == v
    ensures k == Lead(s, v) ==> s[k] != v
  {
    if s[0] == v && k > 0 {
      LeadIsLevel(s[1..], v, k - 1);
    }
  }

  lemma LowTimesFront(s: seq<int>, low: nat, high: nat)
    requires low == Lead(s, 0) && high == Lead(s[low..], 1) && low + high > 0
    ensures LowTimes(s) == [low] + LowTimes(s[low + high..])
  {}

  /** The first pulse of a waveform, alone and when the line then stays high. */
  predicate Starts(s: seq<int>, longer: seq<int>, n: nat, low: nat, high: nat) {
    && high > 0 && low + high <= |s| && longer == s + Level(1, n)
    && low == Lead(s, 0) == Lead(longer, 0) && high == Lead(s[low..], 1)
    && Lead(longer[low..], 1) == if low + high == |s| then high + n else high
  }

  lemma FirstPulse(s: seq<int>, n: nat) returns (low: nat, high: nat)
    requires IsWave(s) && IsHigh(s)
    ensures Starts(s, s + Level(1, n), n, low, high)
  {
    low := Lead(s, 0);
    if low == |s| {
      LeadIsLevel(s, 0, |s| - 1);
    }
    LeadIsLevel(s, 0, low);
    high := Lead(s[low..], 1);
    assert s[low] == s[low..][0] == 1;
    LeadOfFront(s, Level(1, n), 0);
    Behind(s, Level(1, n), low);
    LeadOfFront(s[low..], Level(1, n), 1);
    LeadOfLevel(1, n, []);
    assert Level(1, n) + [] == Level(1, n);
  }

  lemma Behind(s: seq<int>, more: seq<int>, k: nat)
    requires k <= |s|
    ensures (s + more)[k..] == s[k..] + more
  {}

  lemma IdlesAtOnce(s: seq<int>, longer: seq<int>, n: nat, low: nat, high: nat)
    requires Starts(s, longer, n, low, high) && low + high == |s|
    ensures LowTimes(longer) == LowTimes(s)
  {
    LowTimesFront(s, low, high);
    LowTimesFront(longer, low, high + n);
    assert longer[low + high + n..] == s[low + high..] == [];
  }

  lemma IdlesLater(s: seq<int>, longer: seq<int>, n: nat, low: nat, high: nat)
    requires Starts(s, longer, n, low, high) && low + high < |s|
    requires LowTimes(s[low + high..] + Level(1, n)) == LowTimes(s[low + high..])
    ensures LowTimes(longer) == LowTimes(s)
  {
    LowTimesFront(s, low, high);
    LowTimesFront(longer, low, high);
    Behind(s, Level(1, n), low + high);
  }

  /** A line that stays high after a waveform that ends high adds nothing to its low times. */
  lemma {:induction false} IdleIsSilent(s: seq<int>, n: nat)
    requires IsWave(s) && IsHigh(s)
    ensures LowTimes(s + Level(1, n)) == LowTimes(s)
    decreases |s|
  {
    var low, high := FirstPulse(s, n);
    if low + high == |s| {
      IdlesAtOnce(s, s + Level(1, n), n, low, high);
    } else {
      IdleIsSilent(s[low + high..], n);
      IdlesLater(s, s + Level(1, n), n, low, high);
    }
  }

  lemma OneMoreBit(t: Timing, bits: seq<bool>, b: bool)
    ensures var start := Pulse(t.startLow, t.startHigh);
            start + BitsWave(t, bits + [b]) == start + BitsWave(t, bits) + BitWave(t, b)
  {
    assert (bits + [b])[..|bits|] == bits;
    Regrouped(Pulse(t.startLow, t.startHigh), BitsWave(t, bits), BitWave(t, b));
  }

  lemma EndsHigh(t: Timing, bits: seq<bool>)
    requires Known(t)
    ensures IsHigh(Pulse(t.startLow, t.startHigh) + BitsWave(t, bits))
  {
    if bits != [] {
      var last := BitWave(t, bits[|bits| - 1]);
      assert IsHigh(last);
      assert IsHigh(BitsWave(t, bits[..|bits| - 1]) + last);
    }
  }

  lemma IdleListener(t: Timing, message: seq<Byte>, n: nat)
    requires Known(t)
    ensures Decoded(Wave(t, message) + Level(1, n), t.unit) == Some(Sent(message, 0))
  {
    var bits := MessageBits(message, 0);
    BitsWaveIsWave(t, bits);
    EndsHigh(t, bits);
    ListenerHearsTheMessage(t, message);
    IdleIsSilent(Wave(t, message), n);
  }
}
