/** The waveform of a CEC message in numbers: every sample of it, from the bits of its bytes. */
module CecSamples {
  import opened Bytes
  import opened Words
  import opened CecWave

  function BitSamples(t: Timing): nat {
    if t == T300 then 8 else 24
  }

  lemma {:induction false} BitsWaveAt(t: Timing, bits: seq<bool>, j: nat, k: nat, at: nat)
    requires Known(t) && j < |bits| && k < BitSamples(t) && at == BitSamples(t) * j + k
    ensures at < |BitsWave(t, bits)| && BitsWave(t, bits)[at] == BitWave(t, bits[j])[k]
    decreases |bits|
  {
    var most := bits[..|bits| - 1];
    BitsWaveLength(t, bits);
    BitsWaveLength(t, most);
    if j < |most| {
      BitsWaveAt(t, most, j, k, at);
    }
  }

  lemma {:induction false} MessageBitsAt(message: seq<Byte>, from: nat, i: nat, j: nat)
    requires from <= i < |message| && j < 10
    ensures MessageBits(message, from)[10 * (i - from) + j] == BlockBits(message[i], i + 1 == |message|)[j]
    decreases i - from
  {
    if from < i {
      MessageBitsAt(message, from + 1, i, j);
      ItemBehind(BlockBits(message[from], false), MessageBits(message, from + 1), 10 * (i - from - 1) + j);
    }
  }

  lemma ItemBehind(block: seq<bool>, rest: seq<bool>, k: nat)
    requires k < |rest|
    ensures (block + rest)[|block| + k] == rest[k]
  {}

  lemma Divided(x: int, y: int, q: int, r: int)
    requires x == q * y + r && 0 <= r < y
    ensures x / y == q
  {
    var d := x / y;
    assert x == d * y + x % y;
    if d > q {
      Apart(d, q, y);
    } else if q > d {
      Apart(q, d, y);
    }
  }

  lemma Halves(x: nat, w: nat)
    requires w > 0
    ensures 2 * x / (2 * w) == x / w
  {
    Doubled(x / w, w, 2 * w);
    Divided(2 * x, 2 * w, x / w, 2 * (x % w));
  }

  lemma HigherBit(x: nat, w: nat, m: nat)
    requires m * w == 64
    ensures w > 0 && (x + 128) / w == x / w + 2 * m
  {
    assert w > 0;
    Sum(x / w, 2 * m, w);
    Doubled(w, m, 2 * m);
    Divided(x + 128, w, x / w + 2 * m, x % w);
  }

  lemma Sum(x: int, y: int, z: int)
    ensures (x + y) * z == x * z + y * z
  {}

  /** A shift to the left, with the highest bit lost, moves every bit below it up by one. */
  lemma OneShift(b: Byte, w: nat, m: nat)
    requires m * w == 64
    ensures w > 0 && b * 2 % 256 / (2 * w) % 2 == b / w % 2
  {
    var low := b % 128;
    HigherBit(low, w, m);
    Halves(low, w);
    assert b * 2 % 256 == 2 * low && (b == low || b == low + 128);
  }

  lemma WeightsInNumbers(j: nat)
    requires j < 8
    ensures [128, 64, 32, 16, 8, 4, 2, 1][j] == Weight(8 - j) > 0
    ensures j > 0 ==> Weight(9 - j) == 2 * Weight(8 - j) && [1, 2, 4, 8, 16, 32, 64][j - 1] * Weight(8 - j) == 64
  {}

  lemma {:induction false} ByteBitsAt(b: Byte, n: nat, j: nat)
    requires j < n <= 8
    ensures ByteBits(b, n)[j] <==> b / Weight(8 - j) % 2 == 1
    decreases n
  {
    if j > 0 {
      ByteBitsAt(b * 2 % 256, n - 1, j - 1);
      WeightsInNumbers(j);
      OneShift(b, Weight(8 - j), [1, 2, 4, 8, 16, 32, 64][j - 1]);
    }
  }

  /** Bit j of block i: the byte from its highest bit down, then the end-of-message flag of the last
      block, then a 0. */
  predicate BitSent(message: seq<Byte>, i: nat, j: nat)
    requires i < |message| && j < 10
  {
    if j < 8 then message[i] / [128, 64, 32, 16, 8, 4, 2, 1][j] % 2 == 1 else j == 8 && i == |message| - 1
  }

  lemma BitIsSent(message: seq<Byte>, i: nat, j: nat)
    requires i < |message| && j < 10
    ensures MessageBits(message, 0)[10 * i + j] == BitSent(message, i, j)
  {
    MessageBitsAt(message, 0, i, j);
    if j < 8 {
      WeightsInNumbers(j);
      ByteBitsAt(message[i], 8, j);
    }
  }

  lemma SampleOfBit(t: Timing, message: seq<Byte>, q: nat, k: nat, start: nat, at: nat)
    requires Known(t) && q < |MessageBits(message, 0)| && k < BitSamples(t)
    requires start == t.startLow + t.startHigh && at == BitSamples(t) * q + k
    ensures start + at < |Wave(t, message)|
    ensures Wave(t, message)[start + at] == if k < LowOf(t, MessageBits(message, 0)[q]) then 0 else 1
  {
    BitsWaveAt(t, MessageBits(message, 0), q, k, at);
  }

  /** Every sample of a bit with a clock of 300 microseconds: the line is low for 600 or 1500, and then
      high. */
  lemma SamplesOf300us(message: seq<Byte>, i: nat, j: nat, k: nat)
    requires i < |message| && j < 10 && k < 8
    ensures 15 + 80 * i + 8 * j + k < |Wave(T300, message)|
    ensures Wave(T300, message)[15 + 80 * i + 8 * j + k]
            == if k < (if BitSent(message, i, j) then 2 else 5) then 0 else 1
  {
    BitIsSent(message, i, j);
    SampleOfBit(T300, message, 10 * i + j, k, 15, 80 * i + 8 * j + k);
  }

  /** The same with a clock of 100 microseconds. */
  lemma SamplesOf100us(message: seq<Byte>, i: nat, j: nat, k: nat)
    requires i < |message| && j < 10 && k < 24
    ensures 45 + 240 * i + 24 * j + k < |Wave(T100, message)|
    ensures Wave(T100, message)[45 + 240 * i + 24 * j + k]
            == if k < (if BitSent(message, i, j) then 6 else 15) then 0 else 1
  {
    BitIsSent(message, i, j);
    SampleOfBit(T100, message, 10 * i + j, k, 45, 240 * i + 24 * j + k);
  }

  /** Every sample of the start bit. */
  lemma StartInNumbers(message: seq<Byte>, k: nat)
    ensures k < 15 ==> k < |Wave(T300, message)| && Wave(T300, message)[k] == if k < 12 then 0 else 1
    ensures k < 45 ==> k < |Wave(T100, message)| && Wave(T100, message)[k] == if k < 37 then 0 else 1
  {}
}
