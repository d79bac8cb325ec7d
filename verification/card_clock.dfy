/** Clock and baud rate of the smart card slots (smartcard/sci_params.c). */
module CardClock {
  import opened Words

  const SYS_CLK := 63_000_000          // __STB_SYS_CLK
  const MAIN_FREQ := 100_000_000
  const MAIN_FREQ_P1 := 1000
  const MAIN_FREQ_P2 := 100_000
  const PW_2_16 := 65536
  const THRESHOLD_BAUDRATE := 19200
  const FRACTIONAL := 0x1000           // the mode's bit in the control register

  // ----- the card's clock ----------------------------------------------------------------

  /** The clock for a divisor. */
  function Clock(divisor: nat): int
    requires divisor > 0
  {
    SYS_CLK / (2 * divisor)
  }

  lemma Slower(x: nat, y: nat, z: nat)
    requires 0 < y <= z
    ensures x / z <= x / y
  {
    Quotient(x, y);
    Quotient(x, z);
    var p, q := x / y, x / z;
    assert (z - y) * q >= 0;
    if q > p {
      Apart(q, p, y);
    }
  }

  lemma ClockFalls(d: nat, e: nat)
    requires 0 < d <= e
    ensures Clock(e) <= Clock(d)
  {
    Slower(SYS_CLK, 2 * d, 2 * e);
  }

  lemma ClockStops(divisor: nat)
    requires divisor >= 31_500_001
    ensures Clock(divisor) == 0
  {
    Quotient(SYS_CLK, 2 * divisor);
    if Clock(divisor) > 0 {
      Apart(Clock(divisor), 0, 2 * divisor);
    }
  }

  /** sci_atom_set_para_f: the fastest clock that is not faster than the one asked for. */
  method SetClock(f: nat) returns (frequency: int, divisor: nat)
    ensures divisor > 0 && frequency == 63_000_000 / (2 * divisor) <= f
    ensures divisor > 1 ==> f < 63_000_000 / (2 * (divisor - 1))
    ensures forall d: nat :: d > 0 && Clock(d) <= f ==> Clock(d) <= frequency
    ensures 2 * divisor < WORD
  {
    divisor := 1;
    frequency := Clock(divisor);
    while frequency > f
      invariant 1 <= divisor <= 31_500_001 && frequency == Clock(divisor)
      invariant forall d: nat :: 0 < d < divisor ==> Clock(d) > f
      decreases 31_500_001 - divisor
    {
      if divisor == 31_500_001 {
        ClockStops(divisor);
      }
      divisor := divisor + 1;
      frequency := Clock(divisor);
    }
    assert divisor > 1 ==> Clock(divisor - 1) > f;
    forall d: nat | d > 0 && Clock(d) <= f ensures Clock(d) <= frequency {
      ClockFalls(divisor, d);
    }
  }

  // ----- the baud rate -------------------------------------------------------------------

  function BaudMode0(baud: nat): nat
    requires 16 * baud % WORD != 0
  {
    MAIN_FREQ / (16 * baud % WORD)
  }

  function BaudMode1(baud: nat): nat {
    16 * baud % WORD / MAIN_FREQ_P1 * PW_2_16 % WORD / MAIN_FREQ_P2
  }

  /** The value for mode 0 is the largest that gives at least the rate asked for. */
  lemma Mode0IsClosest(baud: nat)
    requires 0 < baud < WORD / 16
    ensures BaudMode0(baud) * (16 * baud) <= 100_000_000 < (BaudMode0(baud) + 1) * (16 * baud)
  {}

  lemma Mode0Fits(baud: nat)
    requires 96 <= baud < WORD / 16
    ensures 0 <= BaudMode0(baud) < 65536
  {
    Quotient(MAIN_FREQ, 16 * baud);
    var r := BaudMode0(baud);
    if r >= 65536 {
      Product(r, 16 * baud, 65536, 1536);
    }
  }

  lemma Product(a: nat, b: nat, c: nat, d: nat)
    requires a >= c && b >= d
    ensures a * b >= c * d && b * a == a * b
  {
    assert a * b >= c * b >= c * d;
  }

  lemma Mode1Fits(baud: nat)
    ensures 0 <= BaudMode1(baud) < 65536
  {}

  /** The value for mode 1 lies at most 1.66 below the exact ratio, and not above it, exactly for rates
      below 4096000: from there on the product no longer fits a word. Everything is taken times a hundred
      million. */
  lemma Mode1IsCloseExactlyWhen(baud: nat)
    requires baud < WORD
    ensures var exact, r := 16 * baud * 65536, BaudMode1(baud) * 100_000_000;
            r <= exact < r + 166_000_000 <==> baud < 4_096_000
  {
    if baud < 4_096_000 {
      Mode1BelowTheWrap(baud);
    } else if baud < WORD / 16 {
      Mode1PastTheWrap(baud);
    } else {
      Mode1Max(baud);
    }
  }

  lemma Mode1Max(baud: nat)
    ensures BaudMode1(baud) <= 42949
  {
    Quotient(16 * baud % WORD / MAIN_FREQ_P1 * PW_2_16 % WORD, MAIN_FREQ_P2);
  }

  lemma Fits(x: nat)
    requires x < WORD
    ensures x % WORD == x
  {}

  lemma Wrapped(x: nat)
    requires x >= WORD
    ensures x % WORD <= x - WORD
  {}

  lemma Mode1PastTheWrap(baud: nat)
    requires 4_096_000 <= baud < WORD / 16
    ensures BaudMode1(baud) * MAIN_FREQ + 166_000_000 <= 16 * baud * PW_2_16
  {
    var q := 16 * baud / MAIN_FREQ_P1;
    var product := q * PW_2_16;
    Fits(16 * baud);
    Quotient(16 * baud, MAIN_FREQ_P1);
    Wrapped(product);
    Quotient(product % WORD, MAIN_FREQ_P2);
  }

  lemma Mode1BelowTheWrap(baud: nat)
    requires baud < 4_096_000
    ensures var exact, r := 16 * baud * PW_2_16, BaudMode1(baud) * MAIN_FREQ;
            r <= exact < r + 166_000_000
  {
    var q := 16 * baud / MAIN_FREQ_P1;
    var product := q * PW_2_16;
    Fits(16 * baud);
    Quotient(16 * baud, MAIN_FREQ_P1);
    Fits(product);
    Quotient(product, MAIN_FREQ_P2);
  }

  /** The first rate for which it fails: the product has just wrapped to a small number. */
  lemma TheFirstRateThatWraps()
    ensures BaudMode1(4_096_000) == 0
    ensures 16 * 4_096_000 * 65536 > 42949 * 100_000_000
  {
  }

  lemma OrIntoLowerHalf(above: nat, value: nat)
    ensures Or(above * 65536, value) == Or(above, value / 65536) * 65536 + value % 65536
  {
    assert Power(8) == 256;
    assert Power(16) == 65536;
    OrIntoField(above, value / 65536, value % 65536, 16);
  }

  lemma ModeBit(x: nat)
    ensures var y := SetBit(x, FRACTIONAL);
            y / 0x1000 % 2 == 1 && y % 0x1000 == x % 0x1000 && y / 0x2000 == x / 0x2000
    ensures var z := ClearBit(x, FRACTIONAL);
            z / 0x1000 % 2 == 0 && z % 0x1000 == x % 0x1000 && z / 0x2000 == x / 0x2000
  {
    var q, r := x / 0x1000, x % 0x1000;
    assert x == 0x1000 * q + r;
    if q % 2 == 0 {
      BitAbove(q + 1, r);
    } else {
      BitAbove(q - 1, r);
    }
    BitAbove(q, r);
  }

  lemma BitAbove(q: nat, r: nat)
    requires r < 0x1000
    ensures var x := 0x1000 * q + r; x / 0x1000 == q && x % 0x1000 == r && x / 0x2000 == q / 2
  {}

  class Asc {
    var ctrl: nat
    var baudrate: nat

    /** set_reg on the baud rate register, with the mask of its field. */
    method SetBaudrate(value: nat)
      modifies this`baudrate
      ensures baudrate % 65536 == value % 65536
      ensures baudrate / 65536 == Or(old(baudrate) / 65536, value / 65536)
      ensures value < 65536 ==> value % 65536 == value && baudrate / 65536 == old(baudrate) / 65536
    {
      OrIntoLowerHalf(baudrate / 65536, value);
      baudrate := Or(baudrate / 65536 * 65536, value);
    }

    /** set_req_baud. Rates of 96 and more fit the register's field. */
    method SetReqBaud(reqBaud: nat)
      requires 0 < reqBaud < WORD
      modifies this
      ensures reqBaud > 19200 ==>
                && ctrl / 0x1000 % 2 == 1 && baudrate % 65536 == BaudMode1(reqBaud)
                && baudrate % 65536 == 16 * reqBaud % 0x1_0000_0000 / 1000 * 65536 % 0x1_0000_0000 / 100_000
      ensures ctrl % 0x1000 == old(ctrl) % 0x1000 && ctrl / 0x2000 == old(ctrl) / 0x2000
      ensures reqBaud <= 19200 ==>
                && ctrl / 0x1000 % 2 == 0
                && baudrate % 65536 == 100_000_000 / (16 * reqBaud) % 65536
      ensures reqBaud >= 96 ==>
                && baudrate / 65536 == old(baudrate) / 65536
                && (reqBaud <= 19200 ==> 100_000_000 / (16 * reqBaud) < 65536)
    {
      var value;
      ModeBit(ctrl);
      if reqBaud > THRESHOLD_BAUDRATE {
        ctrl := SetBit(ctrl, FRACTIONAL);
        value := BaudMode1(reqBaud);
        Mode1Fits(reqBaud);
      } else {
        ctrl := ClearBit(ctrl, FRACTIONAL);
        value := BaudMode0(reqBaud);
        if reqBaud >= 96 {
          Mode0Fits(reqBaud);
        }
      }
      SetBaudrate(value);
    }
  }
}
