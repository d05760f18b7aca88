/** The CC1101 data-rate search, in whole numbers: every rate and error is scaled by 2^28. */
module Cc1101 {
  const F_OSC := 26_000_000
  const SCALE := 0x1000_0000
  const MDMCFG4 := 0x10
  const MDMCFG3 := 0x11
  const REGISTERS := 0x40

  /** The initial best_error, 1e30, scaled. */
  const WORST := 1_000_000_000_000_000_000_000_000_000_000 * SCALE

  function Pow2(e: nat): (p: nat)
    ensures p > 0
  {
    if e == 0 then 1 else 2 * Pow2(e - 1)
  }

  /** (256 + DRATE_M) * 2^DRATE_E. */
  function Value(e: nat, m: nat): (v: nat)
  {
    (256 + m) * Pow2(e)
  }

  function Distance(x: int, y: int): (d: nat) {
    if x <= y then y - x else x - y
  }

  /** |bitrate - target|, scaled. */
  function Error(bps: int, v: nat): (d: nat) {
    Distance(v * F_OSC, bps * SCALE)
  }

  function ErrorOf(bps: int, e: nat, m: nat): (d: nat) {
    Error(bps, Value(e, m))
  }

  predicate Setting(e: nat, m: nat) {
    e <= 15 && m <= 255
  }

  /** The setting (e, m) is no farther from the target than (i, j), and nearer when it comes later. */
  predicate Beats(bps: int, e: nat, m: nat, i: nat, j: nat) {
    ErrorOf(bps, e, m) <= ErrorOf(bps, i, j)
    && (i < e || (i == e && j < m) ==> ErrorOf(bps, e, m) < ErrorOf(bps, i, j))
  }

  /** The first of the nearest settings. */
  ghost predicate Best(bps: int, e: nat, m: nat) {
    Setting(e, m) && forall i: nat, j: nat :: Setting(i, j) ==> Beats(bps, e, m, i, j)
  }

  // ----- The values on offer -----

  lemma {:induction false} Pow2Grows(e: nat, i: nat)
    requires e < i
    ensures 2 * Pow2(e) <= Pow2(i)
  {
    if e + 1 < i {
      Pow2Grows(e, i - 1);
    }
  }

  lemma Pow2At15()
    ensures Pow2(15) == 0x8000
  {
    assert Pow2(3) == 8;
    assert Pow2(7) == 128;
    assert Pow2(11) == 2048;
  }

  lemma ValueBounds(e: nat, m: nat)
    requires m <= 255
    ensures 256 * Pow2(e) + m * Pow2(e) == Value(e, m) <= 511 * Pow2(e)
  {
    var p := Pow2(e);
    Times(m, 255, p);
  }

  lemma Times(a: nat, b: nat, p: nat)
    requires a <= b
    ensures a * p <= b * p
  {
  }

  /** Two settings differ by a whole step of the lower exponent; from a mantissa of 0 down, by half a step. */
  lemma Apart(e: nat, m: nat, i: nat, j: nat)
    requires m <= 255 && j <= 255 && (e != i || m != j)
    ensures Distance(Value(e, m), Value(i, j)) >= Pow2(e)
      || (m == 0 && e > 0 && Value(i, j) + Pow2(e - 1) <= Value(e, m))
  {
    hide Value, Pow2;
    if i > e {
      LowerExponent(i, j, e, m);
      SomeSteps(e, i);
    } else if i == e {
      SameExponent(e, m, j);
    } else {
      LowerExponent(e, m, i, j);
      SomeMantissa(e, m);
    }
  }

  lemma SomeSteps(e: nat, i: nat)
    requires e < i
    ensures Pow2(e) <= Pow2(i - 1)
  {
    if e < i - 1 { Pow2Grows(e, i - 1); }
  }

  lemma SomeMantissa(e: nat, m: nat)
    ensures m > 0 ==> m * Pow2(e) >= Pow2(e)
  {
    if m > 0 { Times(1, m, Pow2(e)); }
  }

  lemma SameExponent(e: nat, m: nat, j: nat)
    requires m != j
    ensures Distance(Value(e, m), Value(e, j)) >= Pow2(e)
  {
    hide Pow2;
    var p := Pow2(e);
    if j < m {
      Times(257 + j, 256 + m, p);
      OneMore(256 + j, p);
    } else {
      Times(257 + m, 256 + j, p);
      OneMore(256 + m, p);
    }
  }

  lemma OneMore(a: nat, p: nat)
    ensures (a + 1) * p == a * p + p
  {
  }

  lemma LowerExponent(e: nat, m: nat, i: nat, j: nat)
    requires m <= 255 && j <= 255 && i < e
    ensures Value(i, j) + Pow2(e - 1) + m * Pow2(e) <= Value(e, m)
  {
    hide Value;
    ValueBounds(e, m);
    ValueBounds(i, j);
    if i < e - 1 {
      Pow2Grows(i, e - 1);
    }
    assert Pow2(e) == 2 * Pow2(e - 1);
  }

  // ----- How good the best is -----

  lemma TimesF(a: nat, p: nat)
    ensures (a * p) * F_OSC == a * (p * F_OSC)
  {
  }

  lemma ValueTimesF(e: nat, m: nat)
    ensures Value(e, m) * F_OSC == (256 + m) * (Pow2(e) * F_OSC)
  {
    TimesF(256 + m, Pow2(e));
  }

  /** The exponent whose octave holds the target, or the highest one. */
  lemma {:induction false} Octave(target: nat, top: nat) returns (e: nat)
    requires 256 * (Pow2(0) * F_OSC) <= target
    ensures e <= top && 256 * (Pow2(e) * F_OSC) <= target
    ensures e == top || target < 512 * (Pow2(e) * F_OSC)
  {
    if 256 * (Pow2(top) * F_OSC) <= target {
      e := top;
    } else {
      e := Octave(target, top - 1);
      if e == top - 1 {
        assert Pow2(top) == 2 * Pow2(e);
      }
    }
  }

  /** One of the two multiples of a unit around a target is within half a unit. */
  lemma NearMultiple(target: nat, unit: nat) returns (k: nat)
    requires unit > 0
    ensures 2 * Distance(k * unit, target) <= unit
    ensures k * unit <= target + unit / 2
  {
    k := target / unit;
    assert target == k * unit + target % unit;
    if 2 * (target % unit) > unit {
      assert (k + 1) * unit == k * unit + unit;
      k := k + 1;
    }
  }

  lemma MultipleAtLeast(k: nat, n: nat, unit: nat, target: nat)
    requires unit > 0 && n * unit <= target && 2 * Distance(k * unit, target) <= unit
    ensures k >= n
  {
    if k < n {
      Times(k + 1, n, unit);
      assert false;
    }
  }

  lemma MultipleAtMost(k: nat, n: nat, unit: nat, target: nat)
    requires unit > 0 && target <= n * unit && 2 * Distance(k * unit, target) <= unit
    ensures k <= n
  {
    if k > n {
      Times(n + 1, k, unit);
      assert false;
    }
  }

  lemma Lowest()
    ensures Pow2(0) == 1
  {
  }

  lemma BelowTop(bps: int, e: nat, unit: nat)
    requires bps <= 1_625_000 && unit == Pow2(e) * F_OSC
    requires e == 15 || bps * SCALE < 512 * unit
    ensures bps * SCALE <= 512 * unit
  {
    if e == 15 {
      Pow2At15();
    }
  }

  lemma NextOctave(e: nat, unit: nat)
    requires unit == Pow2(e) * F_OSC
    ensures Value(e + 1, 0) * F_OSC == 512 * unit
  {
    ValueTimesF(e + 1, 0);
    assert Pow2(e + 1) == 2 * Pow2(e);
  }

  /** Within the radio's range some setting is within 1/512 of the target. */
  lemma CloseSetting(bps: int) returns (e: nat, m: nat)
    requires 25 <= bps <= 1_625_000
    ensures Setting(e, m) && 512 * ErrorOf(bps, e, m) <= bps * SCALE
  {
    hide Pow2;
    var target := bps * SCALE;
    Lowest();
    e := Octave(target, 15);
    var unit := Pow2(e) * F_OSC;
    var k := NearMultiple(target, unit);
    MultipleAtLeast(k, 256, unit, target);
    BelowTop(bps, e, unit);
    MultipleAtMost(k, 512, unit, target);
    if k <= 511 {
      m := k - 256;
      ValueTimesF(e, m);
    } else if e < 15 {
      NextOctave(e, unit);
      e, m := e + 1, 0;
    } else {
      m := 255;
      ValueTimesF(e, m);
    }
  }

  /** Every value on offer lies between 256 and 511 * 2^15. */
  lemma OnOffer(e: nat, m: nat)
    requires Setting(e, m)
    ensures 256 <= Value(e, m) <= 511 * 0x8000
  {
    hide Value, Pow2;
    ValueBounds(e, m);
    PowerBounds(e);
    Times(0, m, Pow2(e));
  }

  lemma PowerBounds(e: nat)
    requires e <= 15
    ensures 1 <= Pow2(e) <= 0x8000
  {
    hide Pow2;
    Pow2At15();
    if e < 15 { Pow2Grows(e, 15); }
  }

  /** The search lands within 1/512 of the target exactly for targets of 25 to 1625000 bps. */
  lemma PrecisionIff(bps: int, e: nat, m: nat)
    requires bps > 0 && Best(bps, e, m)
    ensures 512 * ErrorOf(bps, e, m) <= bps * SCALE <==> 25 <= bps <= 1_625_000
  {
    hide ErrorOf, Beats;
    if 25 <= bps <= 1_625_000 {
      var i, j := CloseSetting(bps);
      BestBeats(bps, e, m, i, j);
    } else {
      OnOffer(e, m);
      OutOfRange(bps, e, m);
    }
  }

  lemma BestBeats(bps: int, e: nat, m: nat, i: nat, j: nat)
    requires Best(bps, e, m) && Setting(i, j)
    ensures ErrorOf(bps, e, m) <= ErrorOf(bps, i, j)
  {
    assert Beats(bps, e, m, i, j);
  }

  lemma OutOfRange(bps: int, e: nat, m: nat)
    requires 256 <= Value(e, m) <= 511 * 0x8000
    requires 0 < bps < 25 || bps > 1_625_000
    ensures 512 * ErrorOf(bps, e, m) > bps * SCALE
  {
  }

  // ----- The search -----

  /** Settings the double loop has reached before (e, m). */
  predicate Before(i: nat, j: nat, e: nat, m: nat) {
    i < e || (i == e && j < m)
  }

  ghost predicate BestBefore(bps: int, e: nat, m: nat, bestE: nat, bestM: nat) {
    Setting(bestE, bestM) && Before(bestE, bestM, e, m)
    && forall i: nat, j: nat :: Setting(i, j) && Before(i, j, e, m) ==> Beats(bps, bestE, bestM, i, j)
  }

  lemma BestBeforeNext(bps: int, e: nat, m: nat, bestE: nat, bestM: nat)
    requires Setting(e, m) && BestBefore(bps, e, m, bestE, bestM)
    ensures ErrorOf(bps, e, m) < ErrorOf(bps, bestE, bestM) ==> BestBefore(bps, e, m + 1, e, m)
    ensures ErrorOf(bps, e, m) >= ErrorOf(bps, bestE, bestM) ==> BestBefore(bps, e, m + 1, bestE, bestM)
  {
    hide ErrorOf;
  }

  lemma BestBeforeRow(bps: int, e: nat, bestE: nat, bestM: nat)
    requires BestBefore(bps, e, 256, bestE, bestM)
    ensures BestBefore(bps, e + 1, 0, bestE, bestM)
  {
    hide Beats;
  }

  /** The double loop of cc1101_set_datarate. */
  method Search(bps: int) returns (bestM: nat, bestE: nat)
    requires 0 < bps < 0x8000_0000
    ensures Best(bps, bestE, bestM)
  {
    hide ErrorOf, Best, Beats, BestBefore, Before;
    bestM, bestE := 0, 0;
    var bestError: nat := WORST;
    for e := 0 to 16
      invariant e == 0 ==> bestError == WORST
      invariant e > 0 ==> BestBefore(bps, e, 0, bestE, bestM) && bestError == ErrorOf(bps, bestE, bestM)
    {
      for m := 0 to 256
        invariant e == m == 0 ==> bestError == WORST
        invariant e > 0 || m > 0 ==> BestBefore(bps, e, m, bestE, bestM) && bestError == ErrorOf(bps, bestE, bestM)
      {
        var error := ErrorOf(bps, e, m);
        if e == m == 0 {
          FirstIsTaken(bps);
        } else {
          BestBeforeNext(bps, e, m, bestE, bestM);
        }
        if error < bestError {
          bestError := error;
          bestM := m;
          bestE := e;
        }
      }
      BestBeforeRow(bps, e, bestE, bestM);
    }
    AllSearched(bps, bestE, bestM);
  }

  lemma FirstIsTaken(bps: int)
    requires 0 < bps < 0x8000_0000
    ensures ErrorOf(bps, 0, 0) < WORST && BestBefore(bps, 0, 1, 0, 0)
  {
    assert Value(0, 0) == 256;
  }

  lemma AllSearched(bps: int, e: nat, m: nat)
    requires BestBefore(bps, 16, 0, e, m)
    ensures Best(bps, e, m)
  {
    hide Beats;
  }

  // ----- Reading back -----

  /** llround of a scaled, non-negative rate: ties go up. */
  function Rounded(v: nat): (bps: nat)
    ensures 2 * Error(bps, v) <= SCALE
  {
    (v * F_OSC + SCALE / 2) / SCALE
  }

  /** What is reported after setting a rate in range is the rate asked for, within 1/512 and half a bit. */
  lemma ReportedIsClose(bps: int, e: nat, m: nat)
    requires 25 <= bps <= 1_625_000 && Best(bps, e, m)
    ensures 512 * Distance(Rounded(Value(e, m)), bps) <= bps + 256
  {
    hide Best, Value;
    PrecisionIff(bps, e, m);
    CloseEnough(bps, Value(e, m));
  }

  lemma CloseEnough(bps: int, v: nat)
    requires bps > 0 && 512 * Error(bps, v) <= bps * SCALE
    ensures 512 * Distance(Rounded(v), bps) <= bps + 256
  {
  }

  /** Setting the reported rate again selects the very same registers, for every mantissa, from exponent 4 up only. */
  lemma StableIff(e: nat)
    requires e <= 15
    ensures (forall m: nat :: m <= 255 ==> Best(Rounded(Value(e, m)), e, m)) <==> e >= 4
  {
    hide Value, Rounded, Best, ErrorOf;
    if e >= 4 {
      forall m: nat | m <= 255
        ensures Best(Rounded(Value(e, m)), e, m)
      {
        Stable(e, m);
      }
    } else {
      var m := Unstable(e);
    }
  }

  lemma Stable(e: nat, m: nat)
    requires Setting(e, m) && e >= 4
    ensures Best(Rounded(Value(e, m)), e, m)
  {
    hide Value, Rounded, ErrorOf;
    var bps := Rounded(Value(e, m));
    forall i: nat, j: nat | Setting(i, j)
      ensures Beats(bps, e, m, i, j)
    {
      if e != i || m != j {
        Farther(e, m, i, j);
      }
    }
  }

  /** Below exponent 4 rounding to whole bits moves some setting to a neighbour. */
  lemma Unstable(e: nat) returns (m: nat)
    requires e < 4
    ensures m <= 255 && !Best(Rounded(Value(e, m)), e, m)
  {
    hide Best;
    assert Pow2(2) == 4 && Pow2(3) == 8;
    var i: nat, j: nat;
    if e == 3 {
      m, i, j := 0, 2, 255;
    } else {
      m, i, j := 1, e, 2;
    }
    if Best(Rounded(Value(e, m)), e, m) {
      BestBeats(Rounded(Value(e, m)), e, m, i, j);
      assert false;
    }
  }

  lemma Farther(e: nat, m: nat, i: nat, j: nat)
    requires Setting(e, m) && Setting(i, j) && e >= 4 && (e != i || m != j)
    ensures ErrorOf(Rounded(Value(e, m)), i, j) > ErrorOf(Rounded(Value(e, m)), e, m)
  {
    hide Value, Pow2;
    Apart(e, m, i, j);
    Sixteen(e);
    if e == 4 && m == 0 {
      assert Value(4, 0) == 4096 by { FirstOfFour(); }
      assert Rounded(4096) == 397;
    }
  }

  lemma FirstOfFour()
    ensures Value(4, 0) == 4096
  {
    assert Pow2(4) == 16;
  }

  lemma Sixteen(e: nat)
    requires e >= 4
    ensures Pow2(e) >= 16 && Pow2(e - 1) >= 8 && (e > 4 ==> Pow2(e - 1) >= 16)
  {
    assert Pow2(3) == 8;
    if e > 4 {
      Pow2Grows(3, e - 1);
      Pow2Grows(3, e);
    } else {
      assert Pow2(4) == 16;
    }
  }

  // ----- The registers -----

  /** A register's value; its nibbles are taken by division, v & 0xF0 being v / 16 * 16 and v & 0x0F v % 16. */
  type Register = v: int | 0 <= v < 0x100

  function High(v: Register): (h: Register)
    ensures h % 16 == 0 && h <= v < h + 16
  {
    v / 16 * 16
  }

  function ExponentOf(mdmcfg4: Register): (e: nat)
    ensures e <= 15
  {
    mdmcfg4 % 16
  }

  /** A register is 16 times its bandwidth nibble and its exponent nibble. */
  lemma NibblesSpell(bandwidth: nat, e: nat)
    requires bandwidth < 16 && e < 16
    ensures ExponentOf(16 * bandwidth + e) == e && High(16 * bandwidth + e) == 16 * bandwidth
  {
  }

  /** The bandwidth nibble stays, the exponent nibble is the new one. */
  function WithExponent(old4: Register, e: nat): (new4: Register)
    requires e <= 15
    ensures ExponentOf(new4) == e && High(new4) == High(old4)
  {
    High(old4) + e
  }

  class Radio {
    const regs: array<Register>

    constructor ()
      ensures regs.Length == REGISTERS && fresh(regs)
    {
      regs := new Register[REGISTERS];
    }

    /** cc1101_set_datarate. */
    method SetDatarate(bps: int) returns (ok: bool)
      requires regs.Length == REGISTERS && bps < 0x8000_0000
      modifies regs
      ensures ok <==> bps > 0
      ensures !ok ==> regs[..] == old(regs[..])
      ensures ok ==> Best(bps, ExponentOf(regs[MDMCFG4]), regs[MDMCFG3])
      ensures High(regs[MDMCFG4]) == High(old(regs[MDMCFG4]))
      ensures ok ==> Best(bps, regs[MDMCFG4] % 16, regs[MDMCFG3]) && regs[MDMCFG4] / 16 == old(regs[MDMCFG4]) / 16
      ensures forall r :: 0 <= r < REGISTERS && r != MDMCFG4 && r != MDMCFG3 ==> regs[r] == old(regs[r])
    {
      hide Best, WithExponent;
      if bps <= 0 {
        return false;
      }
      var bestM, bestE := Search(bps);
      BestIsSetting(bps, bestE, bestM);
      regs[MDMCFG4] := WithExponent(regs[MDMCFG4], bestE);
      regs[MDMCFG3] := bestM;
      return true;
    }

    /** cc1101_cmd_get_datarate. */
    method GetDatarate() returns (bps: nat)
      requires regs.Length == REGISTERS
      ensures bps == Rounded(Value(ExponentOf(regs[MDMCFG4]), regs[MDMCFG3]))
    {
      bps := Rounded(Value(ExponentOf(regs[MDMCFG4]), regs[MDMCFG3]));
    }

    /** Setting a rate in the radio's range and asking for it gives it back, within 1/512 and half a bit. */
    method SetThenGet(bps: int) returns (reported: nat)
      requires regs.Length == REGISTERS && 25 <= bps <= 1_625_000
      modifies regs
      ensures 512 * Distance(reported, bps) <= bps + 256
    {
      hide Best, Value, Rounded;
      var _ := SetDatarate(bps);
      ReportedIsClose(bps, ExponentOf(regs[MDMCFG4]), regs[MDMCFG3]);
      reported := GetDatarate();
    }
  }

  lemma BestIsSetting(bps: int, e: nat, m: nat)
    requires Best(bps, e, m)
    ensures Setting(e, m)
  {
  }
}
