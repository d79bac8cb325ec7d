/** The clock dividers of the STB7100's two PLLs: the search for them (cpu_frequ/pll0_check_stb7100.c and
    pll1_check_stb7100.c), and their register (cpu_frequ/cpu_frequ.c). The search computes with exact
    numbers here. */
module PllDividers {
  import opened Words
  import opened Bytes

  const CRYSTAL := 27          // _CONFIG_SH_EXTERNAL_CLOCK, in MHz

  // ----- the search ----------------------------------------------------------------------

  /** The conversion of a number to an int. */
  function Truncated(x: real): int {
    if x >= 0.0 then x.Floor else -((-x).Floor)
  }

  datatype Dividers = Dividers(ndiv: int, mdiv: int)

  /** A frequency in MHz with the PLL's factor is, times the divider, a multiple of twice the
      crystal's. */
  predicate Divides(a: int, mdiv: int) {
    a * mdiv % 54 == 0
  }

  predicate Least(a: int, mdiv: int) {
    1 <= mdiv <= 255 && Divides(a, mdiv) && forall k :: 1 <= k < mdiv ==> !Divides(a, k)
  }

  /** The multiplier that belongs to a divider fits its field, and is not below 3. */
  predicate InRange(a: int, mdiv: int) {
    3 * 54 <= a * mdiv <= 255 * 54
  }

  lemma ExactlyWhenDivided(a: int, x: real)
    requires x == a as real / 54.0
    ensures x == Truncated(x) as real <==> a % 54 == 0
    ensures a % 54 == 0 ==> 54 * Truncated(x) == a
    ensures Truncated(x) <= 255 <==> a < 256 * 54
  {
    assert x * 54.0 == a as real;
    if a % 54 == 0 {
      assert x == (a / 54) as real;
    }
    if x == Truncated(x) as real {
      assert (54 * Truncated(x)) as real == a as real;
    }
  }

  lemma Scaled(f: int, k: int, x: real)
    requires x == f as real / 2.0 / 27.0
    ensures x * k as real == (f * k) as real / 54.0
  {
    assert (f * k) as real == f as real * k as real;
  }

  /** Past a multiplier that is too large there are only larger ones. */
  lemma NothingFurther(a: int, mdiv: int, m: int)
    requires a * mdiv >= 256 * 54 && 1 <= mdiv <= m
    ensures !InRange(a, m)
  {
    assert a > 0;
    assert a * (m - mdiv) >= 0;
  }

  /** Where the search stops: at the least divider, or with nothing found in range. */
  predicate Stopped(a: int, mdiv: int, ndiv: int) {
    && 1 <= mdiv <= 256 && (Divides(a, mdiv) ==> 54 * ndiv == a * mdiv)
    && (ndiv <= 255 <==> a * mdiv < 256 * 54)
    && (Divides(a, mdiv) || mdiv > 255 || ndiv > 255)
    && forall k :: 1 <= k < mdiv ==> !Divides(a, k)
  }

  lemma Rejected(a: int, mdiv: int, ndiv: int, m: int)
    requires Stopped(a, mdiv, ndiv) && (mdiv > 255 || ndiv < 3 || ndiv > 255) && Least(a, m)
    ensures !InRange(a, m)
  {
    assert m >= mdiv;
    if ndiv > 255 {
      NothingFurther(a, mdiv, m);
    } else {
      assert Divides(a, mdiv) && m == mdiv;
    }
  }

  /** The search program for PLL0 (factor 1) or PLL1 (factor 2): None is a frequency that cannot be used. */
  method Search(f: int, factor: nat) returns (r: Option<Dividers>)
    requires factor in {1, 2}
    ensures r.Some? ==>
              var Dividers(n, m) := r.value;
              Least(f * factor, m) && 54 * n == f * factor * m && 3 <= n <= 255
    ensures r.None? ==> forall m :: Least(f * factor, m) ==> !InRange(f * factor, m)
  {
    ghost var a := f * factor;
    var ndiv, mdiv := Loop(f, factor, a);
    if mdiv < 0 || mdiv > 255 || ndiv < 3 || ndiv > 255 {
      forall m | Least(a, m) ensures !InRange(a, m) {
        Rejected(a, mdiv, ndiv, m);
      }
      return None;
    }
    r := Some(Dividers(ndiv, mdiv));
  }

  method Loop(f: int, factor: nat, ghost a: int) returns (ndiv: int, mdiv: int)
    requires a == f * factor
    ensures Stopped(a, mdiv, ndiv)
  {
    ndiv, mdiv := 0, 0;
    var frequ, frequCheck: real := f as real, 1.0;
    frequ := frequ / 2.0 / 27.0;
    while frequCheck != ndiv as real && mdiv <= 255 && ndiv <= 255
      invariant 0 <= mdiv <= 256
      invariant mdiv == 0 ==> ndiv == 0 && frequCheck == 1.0
      invariant mdiv > 0 ==> Checked(a, mdiv, ndiv, frequCheck)
      invariant forall k :: 1 <= k < mdiv ==> !Divides(a, k)
      decreases 256 - mdiv
    {
      mdiv := mdiv + 1;
      frequCheck := frequ * (mdiv * factor) as real;
      ndiv := Truncated(frequCheck);
      Check(f, factor, a, mdiv, frequ, frequCheck);
    }
  }

  /** What a turn of the loop finds out about its divider. */
  predicate Checked(a: int, mdiv: int, ndiv: int, frequCheck: real) {
    && (frequCheck == ndiv as real <==> Divides(a, mdiv))
    && (Divides(a, mdiv) ==> 54 * ndiv == a * mdiv)
    && (ndiv <= 255 <==> a * mdiv < 256 * 54)
  }

  lemma Check(f: int, factor: int, a: int, mdiv: int, frequ: real, frequCheck: real)
    requires a == f * factor && frequ == f as real / 2.0 / 27.0 && frequCheck == frequ * (mdiv * factor) as real
    ensures Checked(a, mdiv, Truncated(frequCheck), frequCheck)
  {
    Scaled(f, mdiv * factor, frequ);
    assert f * (mdiv * factor) == a * mdiv;
    ExactlyWhenDivided(a * mdiv, frequCheck);
  }

  // ----- the register --------------------------------------------------------------------

  /** What the search program prints for the driver: the two dividers in one number. */
  function Packed(d: Dividers): int {
    d.mdiv + d.ndiv * 256
  }

  function Mdiv(value: nat): nat {
    value % 256
  }

  function Ndiv(value: nat): nat {
    value / 256 % 256
  }

  function Pdiv(value: nat): nat {
    value / 65536 % 8
  }

  /** The fields lie below bit 19: a byte for the divider, one for the multiplier, and three bits. */
  lemma FieldsInNumbers(value: nat)
    ensures value % 0x8_0000 == 65536 * Pdiv(value) + 256 * Ndiv(value) + Mdiv(value)
  {
    var above, low := value / 65536, value % 65536;
    assert value == 65536 * above + low;
    Below(above, low);
    assert value % 0x8_0000 == 65536 * (above % 8) + low;
  }

  const BYPASS := 0x10_0000    // 1 << 20: the clock comes from SYSACLKIN
  const ENABLE := 0x8_0000     // 1 << 19

  /** The fields of the register: the dividers below bit 19, and what lies above them. */
  lemma Fields(above: nat, pdiv: nat, ndiv: nat, mdiv: nat)
    requires ndiv < 256 && mdiv < 256 && pdiv < 8
    ensures var value := above * 0x8_0000 + pdiv * 65536 + ndiv * 256 + mdiv;
            && Mdiv(value) == mdiv && Ndiv(value) == ndiv && Pdiv(value) == pdiv
            && value / 0x8_0000 == above
  {
    var low := ndiv * 256 + mdiv;
    assert low < 65536 && low % 256 == mdiv && low / 256 == ndiv;
    Below(above * 8 + pdiv, low);
  }

  lemma Below(above: nat, low: nat)
    requires low < 65536
    ensures var value := above * 65536 + low;
            && value % 256 == low % 256 && value / 256 % 256 == low / 256
            && value / 65536 == above && value / 0x8_0000 == above / 8
  {
    assert (above * 65536 + low) / 256 == above * 256 + low / 256;
  }

  lemma Remainder(x: nat, d: nat, q: nat, r: nat)
    requires d in {256, 65536, 0x8_0000} && r < d && x == q * d + r
    ensures x % d == r
  {
    if d == 256 {} else if d == 65536 {} else {}
  }

  lemma Masked(value: nat)
    ensures var a := value - value % 256;
            var b := a - a % 65536;
            b - b % 0x8_0000 == value / 0x8_0000 * 0x8_0000
  {
    var above, rest := value / 0x8_0000, value % 0x8_0000;
    var pdiv, low := rest / 65536, rest % 65536;
    var ndiv, mdiv := low / 256, low % 256;
    Remainder(value, 256, above * 2048 + pdiv * 256 + ndiv, mdiv);
    Remainder(value - mdiv, 65536, above * 8 + pdiv, ndiv * 256);
    Remainder(value - mdiv - ndiv * 256, 0x8_0000, above, pdiv * 65536);
  }

  /** The three masks and three ors that put new dividers into the register. The second mask, a
      complement shifted, clears the bits below it too. */
  method Merge(value: nat, ndiv: nat, mdiv: nat, pdiv: nat) returns (merged: nat)
    requires ndiv < 256 && mdiv < 256 && pdiv < 8
    ensures Mdiv(merged) == mdiv && Ndiv(merged) == ndiv && Pdiv(merged) == pdiv
    ensures merged / 0x8_0000 == value / 0x8_0000
  {
    var regdata := value - value % 256;
    regdata := regdata - regdata % 65536;
    regdata := regdata - regdata % 0x8_0000;
    Masked(value);
    merged := regdata + mdiv;                    // |, as the lower bits are clear
    merged := merged + ndiv * 256;
    merged := merged + pdiv * 65536;
    Fields(value / 0x8_0000, pdiv, ndiv, mdiv);
  }

  /** Setting or clearing a bit above the dividers leaves them alone, and every other bit. */
  lemma EnableBit(value: nat)
    ensures Changed(value, SetBit(value, ENABLE), Has(value, BYPASS), true)
    ensures Changed(value, ClearBit(value, ENABLE), Has(value, BYPASS), false)
  {
    var above, low := value / 0x8_0000, value % 0x8_0000;
    assert value == above * 0x8_0000 + low;
    var even := above - above % 2;
    FirstBit(above);
    Lifted(above, low);
    assert SetBit(value, ENABLE) == (even + 1) * 0x8_0000 + low;
    assert ClearBit(value, ENABLE) == even * 0x8_0000 + low;
    ChangedAbove(above, even + 1, low);
    ChangedAbove(above, even, low);
  }

  lemma BypassBit(value: nat)
    ensures Changed(value, SetBit(value, BYPASS), true, Has(value, ENABLE))
    ensures Changed(value, ClearBit(value, BYPASS), false, Has(value, ENABLE))
  {
    var above, low := value / 0x8_0000, value % 0x8_0000;
    assert value == above * 0x8_0000 + low;
    var clear := above - above / 2 % 2 * 2;
    SecondBit(above);
    Lifted(above, low);
    assert SetBit(value, BYPASS) == (clear + 2) * 0x8_0000 + low;
    assert ClearBit(value, BYPASS) == clear * 0x8_0000 + low;
    ChangedAbove(above, clear + 2, low);
    ChangedAbove(above, clear, low);
  }

  lemma FirstBit(a: nat)
    ensures var even := a - a % 2;
            && even >= 0 && even / 4 == (even + 1) / 4 == a / 4 && even / 2 == (even + 1) / 2 == a / 2
            && even % 2 == 0 && (even + 1) % 2 == 1
  {
    var q, r := a / 4, a % 4;
    assert a == 4 * q + r && a % 2 == r % 2;
  }

  lemma SecondBit(a: nat)
    ensures var clear := a - a / 2 % 2 * 2;
            && clear >= 0 && clear / 4 == (clear + 2) / 4 == a / 4 && clear % 2 == (clear + 2) % 2 == a % 2
            && clear / 2 % 2 == 0 && (clear + 2) / 2 % 2 == 1
  {
    var q, r := a / 4, a % 4;
    assert a == 4 * q + r && a / 2 % 2 == r / 2;
  }

  predicate Changed(value: nat, after: nat, bypass: bool, enable: bool) {
    && SameDividers(after, value) && after / 0x20_0000 == value / 0x20_0000
    && Has(after, BYPASS) == bypass && Has(after, ENABLE) == enable
  }

  lemma ChangedAbove(above: nat, other: nat, low: nat)
    requires low < 0x8_0000 && above / 4 == other / 4
    ensures Changed(above * 0x8_0000 + low, other * 0x8_0000 + low, other / 2 % 2 == 1, other % 2 == 1)
  {
    Lifted(above, low);
    Lifted(other, low);
  }

  predicate SameDividers(v: nat, w: nat) {
    Mdiv(v) == Mdiv(w) && Ndiv(v) == Ndiv(w) && Pdiv(v) == Pdiv(w)
  }

  lemma Lifted(above: nat, low: nat)
    requires low < 0x8_0000
    ensures var v := above * 0x8_0000 + low;
            && SameDividers(v, low) && v / ENABLE == above && v / BYPASS == above / 2 && v / 0x20_0000 == above / 4
  {
    Below(low / 65536, low % 65536);
    Below(above * 8 + low / 65536, low % 65536);
  }

  // ----- the frequency -------------------------------------------------------------------

  /** get_pll0_frequ, and the same formula for PLL1, in words of 32 bits. */
  function Frequency(value: nat): nat
    requires Mdiv(value) != 0
  {
    2 * (CRYSTAL * 1000) * Ndiv(value) / Mdiv(value) / Power(Pdiv(value)) * 1000 % WORD
  }

  /** What a reader of the frequency gets; None is a division by zero. */
  function FrequencyRead(value: nat): Option<nat> {
    if Mdiv(value) == 0 then None else Some(Frequency(value))
  }

  /** Dividers that the search found give the frequency they were found for, as far as a word can say
      it in Hz: up to 4294 MHz. */
  lemma FrequencyAsChecked(f: int, factor: nat, d: Dividers, value: nat)
    requires factor in {1, 2} && 54 * d.ndiv == f * factor * d.mdiv && 3 <= d.ndiv <= 255 && 1 <= d.mdiv <= 255
    requires Mdiv(value) == d.mdiv && Ndiv(value) == d.ndiv && Pdiv(value) == factor - 1
    ensures f > 0 && Frequency(value) == f * 1000000 % WORD
    ensures Frequency(value) == f * 1000000 <==> f <= 4294
  {
    Ratio(f * factor, d.ndiv, d.mdiv);
    Positive(f, factor);
    assert Power(0) == 1 && Power(1) == 2;
    if factor == 1 {
      assert 54000 * d.ndiv / d.mdiv / Power(Pdiv(value)) == 1000 * f;
    } else {
      assert 54000 * d.ndiv / d.mdiv / Power(Pdiv(value)) == 1000 * f;
    }
  }

  /** A frequency that the search accepts and the formula does not give back. */
  lemma FrequencyThatWraps(value: nat)
    requires Mdiv(value) == 1 && Ndiv(value) == 80 && Pdiv(value) == 0
    ensures Least(4320, 1) && InRange(4320, 1)
    ensures Frequency(value) == 25_032_704 != 4320 * 1000000
  {
    FrequencyAsChecked(4320, 1, Dividers(80, 1), value);
  }

  lemma Ratio(a: int, n: nat, m: nat)
    requires 54 * n == a * m && n > 0 && m > 0
    ensures a > 0 && 54000 * n / m == 1000 * a
  {
    Positive(a, m);
    assert 1000 * a * m == 1000 * (a * m);
    ExactQuotient(1000 * a, m, 54000 * n);
  }

  lemma Positive(a: int, b: int)
    requires a * b > 0 && b > 0
    ensures a > 0
  {}

  // ----- the driver ----------------------------------------------------------------------

  /** Between two values of PLL0's register: the dividers change only while the clock comes from
      elsewhere, and the PLL was off. */
  predicate SafeChange(before: nat, after: nat) {
    SameDividers(before, after) || (Has(before, BYPASS) && Has(after, BYPASS) && !Has(before, ENABLE))
  }

  ghost predicate SafeChanges(values: seq<nat>) {
    forall k :: 0 < k < |values| ==> SafeChange(values[k - 1], values[k])
  }

  class Pll {
    var cfg: nat                 // CKGA_PLL0_CFG or CKGA_PLL1_CFG
    ghost var values: seq<nat>   // that the register held, the present one last

    ghost predicate Valid()
      reads this
    {
      values != [] && values[|values| - 1] == cfg
    }

    constructor (cfg: nat)
      ensures Valid() && this.cfg == cfg && values == [cfg]
    {
      this.cfg, values := cfg, [cfg];
    }

    method Out(value: nat)
      modifies this
      ensures Valid() && cfg == value && values == old(values) + [value]
    {
      cfg := value;
      values := values + [value];
    }

    /** write_pll0_ndiv_mdiv, up to the wait for the lock and from there on. Multipliers below 3 change
        nothing. */
    method WritePll0(ndivMdiv: int)
      requires Valid()
      modifies this
      ensures Valid()
      ensures var n, m := ndivMdiv / 256 % 256, ndivMdiv % 256;
              if n < 3 then values == old(values)
              else
                && Mdiv(cfg) == m && Ndiv(cfg) == n && Pdiv(cfg) == 0
                && cfg % 0x8_0000 == 256 * n + m && cfg / 0x8_0000 % 2 == 1 && cfg / 0x10_0000 % 2 == 0
                && Has(cfg, ENABLE) && !Has(cfg, BYPASS) && cfg / 0x20_0000 == old(cfg) / 0x20_0000
                && old(values) <= values && |values| == |old(values)| + 4
                && (old(SafeChanges(values)) ==> SafeChanges(values))
                && (FrequencyRead(cfg) == None <==> m == 0)
    {
      var mdiv: nat, ndiv: nat := ndivMdiv % 256, ndivMdiv / 256 % 256;
      if mdiv < 0 || mdiv > 255 || ndiv < 3 || ndiv > 255 {
        return;
      }
      var regdata := cfg;
      BypassBit(regdata);
      regdata := SetBit(regdata, BYPASS);
      Out(regdata);
      EnableBit(regdata);
      regdata := ClearBit(regdata, ENABLE);
      Out(regdata);
      var merged := Merge(regdata, ndiv, mdiv, 0);
      SameAbove(regdata, merged);
      EnableBit(merged);
      regdata := SetBit(merged, ENABLE);
      Out(regdata);
      BypassBit(regdata);
      regdata := ClearBit(regdata, BYPASS);
      Out(regdata);
      FieldsInNumbers(cfg);
    }

    /** write_pll1_ndiv_mdiv: the dividers alone change, and PDIV is 1. */
    method WritePll1(ndivMdiv: int)
      requires Valid()
      modifies this
      ensures Valid()
      ensures var n, m := ndivMdiv / 256 % 256, ndivMdiv % 256;
              if n < 3 then values == old(values)
              else
                && Mdiv(cfg) == m && Ndiv(cfg) == n && Pdiv(cfg) == 1
                && cfg % 0x8_0000 == 65536 + 256 * n + m
                && cfg / 0x8_0000 == old(cfg) / 0x8_0000 && values == old(values) + [cfg]
                && (FrequencyRead(cfg) == None <==> m == 0)
    {
      var mdiv: nat, ndiv: nat := ndivMdiv % 256, ndivMdiv / 256 % 256;
      if mdiv < 0 || mdiv > 255 || ndiv < 3 || ndiv > 255 {
        return;
      }
      var regdata := cfg;
      regdata := Merge(regdata, ndiv, mdiv, 1);
      Out(regdata);
      FieldsInNumbers(cfg);
    }
  }

  lemma SameAbove(v: nat, w: nat)
    requires v / 0x8_0000 == w / 0x8_0000
    ensures v / 0x20_0000 == w / 0x20_0000
    ensures Has(v, BYPASS) == Has(w, BYPASS) && Has(v, ENABLE) == Has(w, ENABLE)
  {
    Lifted(v / 0x8_0000, v % 0x8_0000);
    Lifted(w / 0x8_0000, w % 0x8_0000);
  }

  lemma Unpacked(d: Dividers)
    requires 0 <= d.ndiv < 256 && 0 <= d.mdiv < 256
    ensures Packed(d) / 256 % 256 == d.ndiv && Packed(d) % 256 == d.mdiv
  {}

  method WritePll(pll: Pll, factor: nat, d: Dividers)
    requires pll.Valid() && factor in {1, 2} && 3 <= d.ndiv < 256 && 0 <= d.mdiv < 256
    modifies pll
    ensures pll.Valid() && Mdiv(pll.cfg) == d.mdiv && Ndiv(pll.cfg) == d.ndiv && Pdiv(pll.cfg) == factor - 1
  {
    Unpacked(d);
    if factor == 1 {
      pll.WritePll0(Packed(d));
    } else {
      pll.WritePll1(Packed(d));
    }
  }

  /** From the search to the running clock: the number it prints for a frequency that it accepts,
      written to the driver, makes the register decode to that frequency. */
  method CheckThenWrite(f: int, pll: Pll, factor: nat) returns (ok: bool)
    requires pll.Valid() && factor in {1, 2}
    modifies pll
    ensures pll.Valid() && (!ok ==> pll.cfg == old(pll.cfg))
    ensures ok ==> FrequencyRead(pll.cfg) == Some(f * 1000000 % WORD)
    ensures ok <==> exists m :: Least(f * factor, m) && InRange(f * factor, m)
  {
    var r := Search(f, factor);
    ok := r.Some?;
    if ok {
      assert Least(f * factor, r.value.mdiv) && InRange(f * factor, r.value.mdiv);
      WritePll(pll, factor, r.value);
      FrequencyAsChecked(f, factor, r.value, pll.cfg);
    }
  }
}
