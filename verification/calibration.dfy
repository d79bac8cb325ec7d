/** The loop calibration of the CPU frequency driver (cpu_frequ/cpu_frequ.c): how many loops of the
    delay loop last one clock tick. */
module Calibration {
  import opened Words

  const FIRST := 4096
  const PRECISION := 8             // lps_precision

  /** What a calibration should give for a tick of this many loops: a number just below it, the
      difference less than a 256th of it. */
  predicate Calibrated(loops: nat, tick: nat) {
    loops < tick && 256 * (tick - loops) < tick
  }

  /** Twenty doublings of 4096 are one too many. */
  lemma PowerWraps(k: nat)
    requires 0 < k <= 20
    ensures FIRST * Power(k) == 2 * (FIRST * Power(k - 1))
    ensures if k == 20 then FIRST * Power(k) == WORD else FIRST * Power(k) <= WORD / 2
  {
    if k < 20 {
      PowerGrows(k, 19);
    }
    assert Power(4) == 16;
    assert Power(8) == 256;
    assert Power(12) == 4096;
    assert Power(16) == 65536;
    assert Power(19) == 524288 && Power(20) == 1048576;
  }

  lemma {:induction false} PowerGrows(i: nat, k: nat)
    requires i <= k
    ensures Power(i) <= Power(k)
  {
    if i < k {
      PowerGrows(i, k - 1);
    }
  }

  /** calc_bogomips on a machine on which a delay spans a tick exactly from so many loops on. The last
      bit tried is returned beside the loops. */
  method CalcBogomips(tick: nat) returns (loopsPerJiffy: nat, step: nat)
    ensures 4096 < tick <= 0x8000_0000 ==>
              && loopsPerJiffy < tick <= loopsPerJiffy + step
              && 256 * step <= loopsPerJiffy < 512 * step && loopsPerJiffy % step == 0
              && exists k: nat :: step == 16 * Power(k)
    ensures tick <= 4096 ==> loopsPerJiffy == 4096
    ensures tick > 0x8000_0000 ==> loopsPerJiffy == 0
    ensures Calibrated(loopsPerJiffy, tick) <==> 4096 < tick <= 0x8000_0000
  {
    ghost var k;
    loopsPerJiffy, k := DoubleUp(tick);
    ghost var unit := loopsPerJiffy / 512;
    loopsPerJiffy := loopsPerJiffy / 2;
    loopsPerJiffy, step := Refine(loopsPerJiffy, tick, unit);
    assert unit > 0 ==> unit == 16 * Power(k);
  }

  /** The first loop: doubling until a tick is spanned, or until the word is 0. */
  method DoubleUp(tick: nat) returns (loopsPerJiffy: nat, ghost power: nat)
    ensures loopsPerJiffy == 0 || loopsPerJiffy == 2 * FIRST * Power(power)
    ensures tick > WORD / 2 ==> loopsPerJiffy == 0
    ensures tick <= WORD / 2 ==>
              && tick <= loopsPerJiffy && 2 * FIRST <= loopsPerJiffy
              && (loopsPerJiffy / 2 < tick || loopsPerJiffy == 2 * FIRST)
  {
    ghost var k: nat := 0;
    loopsPerJiffy, power := FIRST, 0;
    while true
      invariant k <= 19 && loopsPerJiffy == FIRST * Power(k) && (k == 0 || loopsPerJiffy < tick)
      decreases 20 - k
    {
      k := k + 1;
      PowerWraps(k);
      loopsPerJiffy, power := loopsPerJiffy * 2 % WORD, k - 1;
      if loopsPerJiffy == 0 || loopsPerJiffy >= tick {
        break;
      }
    }
  }

  /** The second loop: the lower bits, one after the other, kept where the delay stays below a tick. */
  method Refine(start: nat, tick: nat, ghost unit: nat) returns (loopsPerJiffy: nat, step: nat)
    requires start == 256 * unit && (tick <= 2 * start || start == 0)
    ensures start < tick ==> start <= loopsPerJiffy && step == unit
    ensures start < tick && start > 0 ==>
              loopsPerJiffy < tick <= loopsPerJiffy + step && loopsPerJiffy < 512 * step && loopsPerJiffy % step == 0
    ensures tick <= start || start == 0 ==> loopsPerJiffy == start
  {
    loopsPerJiffy, step := start, start;
    var lpsPrecision: nat := PRECISION;
    assert Power(PRECISION) == 256 by { assert Power(4) == 16; }
    ghost var q := 1;
    while lpsPrecision > 0 && step / 2 > 0
      invariant lpsPrecision <= PRECISION && step == unit * Power(lpsPrecision)
      invariant loopsPerJiffy == q * step && start <= loopsPerJiffy
      invariant start < tick && start > 0 ==> loopsPerJiffy < tick <= loopsPerJiffy + step
      invariant tick <= start || start == 0 ==> loopsPerJiffy == start
      decreases lpsPrecision
    {
      lpsPrecision := lpsPrecision - 1;
      Halved(step, q, unit, lpsPrecision);
      step := step / 2;
      loopsPerJiffy, q := TryBit(loopsPerJiffy, tick, step, q);
    }
    if lpsPrecision > 0 {
      Exhausted(unit, lpsPrecision);
    }
    if step > 0 {
      Multiple(q, step);
    }
  }

  /** One bit is tried: kept where the delay stays below a tick, otherwise cleared again. */
  method TryBit(loops: nat, tick: nat, bit: nat, ghost q: nat) returns (loopsPerJiffy: nat, ghost q': nat)
    requires bit > 0 && loops == 2 * q * bit
    ensures loopsPerJiffy == q' * bit && loops <= loopsPerJiffy
    ensures loops < tick <= loops + 2 * bit ==> loopsPerJiffy < tick <= loopsPerJiffy + bit
    ensures tick <= loops ==> loopsPerJiffy == loops
  {
    LowerBit(q, bit);
    loopsPerJiffy, q' := SetBit(loops, bit), 2 * q + 1;
    if loopsPerJiffy >= tick {
      loopsPerJiffy, q' := ClearBit(loopsPerJiffy, bit), 2 * q;
    }
  }

  lemma Exhausted(unit: nat, k: nat)
    requires k > 0 && unit * Power(k) < 2
    ensures unit == 0
  {}

  lemma Halved(bit: nat, q: nat, unit: nat, k: nat)
    requires bit == unit * Power(k + 1)
    ensures bit / 2 == unit * Power(k) && q * bit == 2 * q * (bit / 2)
  {
    assert bit == 2 * (unit * Power(k));
    assert 2 * q * (bit / 2) == q * (2 * (bit / 2));
  }
}
