/** The Wheatstone bridge: the sensor R and R3 form one divider, R1 and R2 the
    other, and the output is the difference of the two midpoint voltages. */
module Wheatstone {
  import opened Units

  /** `wheatstone_voltage`: V_out = V_in·R2/(R1+R2) − V_in·R3/(R+R3). There is no
      guard, so a zero divisor raises Python's division error. */
  function WheatstoneVoltage(r: real, r1: real, r2: real, r3: real, vIn: real): (v: Outcome)
    ensures v.ZeroDivisionError? <==> r1 + r2 == 0.0 || r + r3 == 0.0
    ensures !v.ValueError?
    ensures v.Ok? ==> v.q.unit == Volt
  {
    if r1 + r2 == 0.0 || r + r3 == 0.0 then ZeroDivisionError
    else Ok(Quantity(vIn * r2 / (r1 + r2) - vIn * r3 / (r + r3), Volt))
  }

  /** The bridge is balanced, with no output, exactly when R·R2 = R1·R3. */
  lemma BridgeBalance(r: real, r1: real, r2: real, r3: real, vIn: real)
    requires r1 + r2 != 0.0 && r + r3 != 0.0 && vIn != 0.0
    ensures WheatstoneVoltage(r, r1, r2, r3, vIn).q.value == 0.0 <==> r * r2 == r1 * r3
  {
    var a := vIn * r2 / (r1 + r2);
    var b := vIn * r3 / (r + r3);
    assert a * ((r1 + r2) * (r + r3)) == vIn * r2 * (r + r3);
    assert b * ((r1 + r2) * (r + r3)) == vIn * r3 * (r1 + r2);
    assert (r1 + r2) * (r + r3) != 0.0;
    if a == b {
      assert vIn * (r2 * (r + r3)) == vIn * (r3 * (r1 + r2));
      NonZeroFactor(vIn, r2 * (r + r3), r3 * (r1 + r2));
    }
  }

  lemma NonZeroFactor(k: real, x: real, y: real)
    requires k != 0.0 && k * x == k * y
    ensures x == y
  {
  }

  lemma VoltageExamples()
    ensures WheatstoneVoltage(100.0, 100.0, 100.0, 100.0, 5.0) == Ok(Quantity(0.0, Volt))
    ensures WheatstoneVoltage(150.0, 100.0, 100.0, 100.0, 5.0) == Ok(Quantity(0.5, Volt))
  {
  }

  /** `wheatstone_balance_voltage`: ((R−R1)/(R+R1))·(V_in/2), the bridge with R2 = R3
      and R1 in both lower arms; unguarded. */
  function BalanceVoltage(r: real, r1: real, vIn: real): (v: Outcome)
    ensures v.ZeroDivisionError? <==> r + r1 == 0.0
    ensures !v.ValueError?
    ensures v.Ok? ==> v.q.unit == Volt
  {
    if r + r1 == 0.0 then ZeroDivisionError
    else Ok(Quantity(((r - r1) / (r + r1)) * (vIn / 2.0), Volt))
  }

  /** The half bridge is the full bridge with R1 in the sensor's opposite arm and R2
      = R3 = R1: both read ((R−R1)/(R+R1))·(V_in/2). */
  lemma BalanceIsFullBridge(r: real, r1: real, vIn: real)
    requires r + r1 != 0.0 && r1 != 0.0
    ensures BalanceVoltage(r, r1, vIn).Ok? && WheatstoneVoltage(r, r1, r1, r1, vIn).Ok?
    ensures BalanceVoltage(r, r1, vIn).q.value == WheatstoneVoltage(r, r1, r1, r1, vIn).q.value
  {
    var a := vIn * r1 / (r1 + r1);
    var b := vIn * r1 / (r + r1);
    var c := ((r - r1) / (r + r1)) * (vIn / 2.0);
    HalfOfDouble(vIn, r1, a);
    HalfBridgeAlgebra(r, r1, vIn, a, b, c);
  }

  lemma HalfOfDouble(vIn: real, r1: real, a: real)
    requires r1 != 0.0 && a == vIn * r1 / (r1 + r1)
    ensures a == vIn / 2.0
  {
    assert a * (2.0 * r1) == vIn * r1;
    assert (vIn / 2.0) * (2.0 * r1) == vIn * r1;
  }

  lemma HalfBridgeAlgebra(r: real, r1: real, vIn: real, a: real, b: real, c: real)
    requires r + r1 != 0.0 && a == vIn / 2.0
    requires b == vIn * r1 / (r + r1) && c == ((r - r1) / (r + r1)) * (vIn / 2.0)
    ensures c == a - b
  {
    assert b * (r + r1) == vIn * r1;
    assert ((r - r1) / (r + r1)) * (r + r1) == r - r1;
    assert c * (r + r1) == (r - r1) * (vIn / 2.0);
    assert (a - b) * (r + r1) == (vIn / 2.0) * (r + r1) - vIn * r1;
    assert (c - (a - b)) * (r + r1) == 0.0;
  }

  /** The half bridge reads 0 exactly when the sensor equals R1. */
  lemma BalanceVoltageZero(r: real, r1: real, vIn: real)
    requires r + r1 != 0.0 && vIn != 0.0
    ensures BalanceVoltage(r, r1, vIn).q.value == 0.0 <==> r == r1
  {
    var q := (r - r1) / (r + r1);
    assert q * (r + r1) == r - r1;
    if q * (vIn / 2.0) == 0.0 {
      assert q == 0.0;
    }
  }

  lemma BalanceVoltageExample()
    ensures BalanceVoltage(120.0, 100.0, 5.0) == Ok(Quantity((20.0 / 220.0) * 2.5, Volt))
  {
  }

  /** `wheatstone_resistance` as written: after the two guards it computes
      R = R1·(R2·V_out + R3·(V_in+V_out)) / (R2·(V_in−V_out) − R3·V_out), whose
      divisor neither guard covers. */
  function WheatstoneResistanceAsWritten(vOut: real, r1: real, r2: real, r3: real, vIn: real): (r: Outcome)
    ensures r.ValueError? <==> vIn == 0.0 || r1 + r2 == 0.0
    ensures vIn == 0.0 ==> r == ValueError("Vin cannot be zero")
    ensures vIn != 0.0 && r1 + r2 == 0.0 ==> r == ValueError("R1 + R2 cannot be zero")
    ensures r.ZeroDivisionError? <==> vIn != 0.0 && r1 + r2 != 0.0 && r2 * (vIn - vOut) - r3 * vOut == 0.0
    ensures r.Ok? ==> r.q.unit == Ohm
  {
    if vIn == 0.0 then ValueError("Vin cannot be zero")
    else if r1 + r2 == 0.0 then ValueError("R1 + R2 cannot be zero")
    else
      var d := r2 * (vIn - vOut) - r3 * vOut;
      if d == 0.0 then ZeroDivisionError
      else Ok(Quantity(r1 * ((r2 * vOut + r3 * (vIn + vOut)) / d), Ohm))
  }

  /** As written, the formula inverts the bridge whose R1 and R3 are exchanged. */
  lemma AsWrittenInvertsSwapped(r: real, r1: real, r2: real, r3: real, vIn: real)
    requires r3 + r2 != 0.0 && r + r1 != 0.0 && vIn != 0.0 && r1 != 0.0 && r1 + r2 != 0.0
    ensures var v := WheatstoneVoltage(r, r3, r2, r1, vIn);
            v.Ok? && WheatstoneResistanceAsWritten(v.q.value, r1, r2, r3, vIn) == Ok(Quantity(r, Ohm))
  {
    RoundTrip(r, r3, r2, r1, vIn);
    var vOut := WheatstoneVoltage(r, r3, r2, r1, vIn).q.value;
    assert r2 * (vIn - vOut) - r3 * vOut == vIn * r2 - vOut * (r3 + r2);
    assert r2 * vOut + r3 * (vIn + vOut) == vIn * r3 + vOut * (r3 + r2);
  }

  /** So with R1 = R3 the same-argument round trip holds for every R, as in the
      repository's test with all three at 100 Ω; `AsWrittenRoundTripFails` gives
      arguments with R1 ≠ R3 for which it does not. */
  lemma AsWrittenRoundTripWhenSymmetric(r: real, r1: real, r2: real, vIn: real)
    requires r1 + r2 != 0.0 && r + r1 != 0.0 && vIn != 0.0 && r1 != 0.0
    ensures var v := WheatstoneVoltage(r, r1, r2, r1, vIn);
            v.Ok? && WheatstoneResistanceAsWritten(v.q.value, r1, r2, r1, vIn) == Ok(Quantity(r, Ohm))
  {
    AsWrittenInvertsSwapped(r, r1, r2, r1, vIn);
  }

  /** With R3 ≠ R1 the as-written round trip fails: R = 150 Ω, R1 = R2 = 100 Ω,
      R3 = 50 Ω and V_in = 5 V give V_out = 1.25 V, which is read back as 140 Ω. */
  lemma AsWrittenRoundTripFails()
    ensures WheatstoneVoltage(150.0, 100.0, 100.0, 50.0, 5.0) == Ok(Quantity(1.25, Volt))
    ensures WheatstoneResistanceAsWritten(1.25, 100.0, 100.0, 50.0, 5.0) == Ok(Quantity(140.0, Ohm))
  {
    assert 100.0 * 1.25 + 50.0 * (5.0 + 1.25) == 437.5;
    assert 100.0 * (5.0 - 1.25) - 50.0 * 1.25 == 312.5;
    assert 437.5 / 312.5 == 1.4;
  }

  /** Both guards can pass while the divisor is zero: with R1 = R2 = R3 = 100 Ω and
      V_in = 5 V, V_out = 2.5 V raises a division error rather than a `ValueError`. */
  lemma AsWrittenUnguardedDivisor()
    ensures WheatstoneResistanceAsWritten(2.5, 100.0, 100.0, 100.0, 5.0) == ZeroDivisionError
  {
  }

  /** The inverse of `WheatstoneVoltage`: R = R3·(V_in·R1 + V_out·(R1+R2)) /
      (V_in·R2 − V_out·(R1+R2)), under the same guards and messages. */
  function WheatstoneResistance(vOut: real, r1: real, r2: real, r3: real, vIn: real): (r: Outcome)
    ensures r.ValueError? <==> vIn == 0.0 || r1 + r2 == 0.0
    ensures vIn == 0.0 ==> r == ValueError("Vin cannot be zero")
    ensures vIn != 0.0 && r1 + r2 == 0.0 ==> r == ValueError("R1 + R2 cannot be zero")
    ensures r.ZeroDivisionError? <==> vIn != 0.0 && r1 + r2 != 0.0 && vIn * r2 - vOut * (r1 + r2) == 0.0
    ensures r.Ok? ==> r.q.unit == Ohm
  {
    if vIn == 0.0 then ValueError("Vin cannot be zero")
    else if r1 + r2 == 0.0 then ValueError("R1 + R2 cannot be zero")
    else
      var d := vIn * r2 - vOut * (r1 + r2);
      if d == 0.0 then ZeroDivisionError
      else Ok(Quantity(r3 * ((vIn * r1 + vOut * (r1 + r2)) / d), Ohm))
  }

  /** The sensor is recovered from the bridge's output. */
  lemma RoundTrip(r: real, r1: real, r2: real, r3: real, vIn: real)
    requires r1 + r2 != 0.0 && r + r3 != 0.0 && vIn != 0.0 && r3 != 0.0
    ensures var v := WheatstoneVoltage(r, r1, r2, r3, vIn);
            v.Ok? && WheatstoneResistance(v.q.value, r1, r2, r3, vIn) == Ok(Quantity(r, Ohm))
  {
    var s := r1 + r2;
    var t := r + r3;
    var b := vIn * r3 / t;
    var vOut := vIn * r2 / s - b;
    var d := vIn * r2 - vOut * s;
    var n := vIn * r1 + vOut * s;
    OutputToSensor(r, r1, r2, r3, vIn, s, t, b, vOut, d, n);
    assert WheatstoneVoltage(r, r1, r2, r3, vIn) == Ok(Quantity(vOut, Volt));
    assert WheatstoneResistance(vOut, r1, r2, r3, vIn) == Ok(Quantity(r3 * (n / d), Ohm));
  }

  /** The algebra of `RoundTrip`: with a·s = V_in·R2 and b·t = V_in·R3 the divisor is
      b·s and the numerator (V_in − b)·s, so the quotient times R3 is R. */
  lemma OutputToSensor(r: real, r1: real, r2: real, r3: real, vIn: real,
                       s: real, t: real, b: real, vOut: real, d: real, n: real)
    requires s == r1 + r2 && s != 0.0 && t == r + r3 && t != 0.0 && vIn != 0.0 && r3 != 0.0
    requires b == vIn * r3 / t && vOut == vIn * r2 / s - b
    requires d == vIn * r2 - vOut * s && n == vIn * r1 + vOut * s
    ensures d != 0.0 && r3 * (n / d) == r
  {
    Quotient(vIn * r2, s);
    Quotient(vIn * r3, t);
    assert d == b * s;
    assert n == (vIn - b) * s;
    NonZeroProduct(b, t);
    NonZeroProduct(b, s);
    Cancel(vIn - b, b, s);
    Recover(r, r3, vIn, b);
  }

  lemma Quotient(x: real, y: real)
    requires y != 0.0
    ensures (x / y) * y == x
  {
  }

  lemma NonZeroProduct(x: real, y: real)
    requires x * y != 0.0 || (y != 0.0 && x != 0.0)
    ensures x != 0.0 && y != 0.0 && x * y != 0.0
  {
  }

  lemma Cancel(x: real, y: real, z: real)
    requires y != 0.0 && z != 0.0
    ensures (x * z) / (y * z) == x / y
  {
    assert (x / y) * (y * z) == x * z;
  }

  /** From b·(R + R3) = V_in·R3: R3·(V_in − b)/b = R. */
  lemma Recover(r: real, r3: real, vIn: real, b: real)
    requires b != 0.0 && b * (r + r3) == vIn * r3
    ensures r3 * ((vIn - b) / b) == r
  {
    assert r3 * (vIn - b) == r * b;
    assert r3 * ((vIn - b) / b) == (r3 * (vIn - b)) / b;
  }

  /** And the output is recovered from the sensor. */
  lemma RoundTripBack(vOut: real, r1: real, r2: real, r3: real, vIn: real)
    requires r1 + r2 != 0.0 && vIn != 0.0 && r3 != 0.0
    requires vIn * r2 - vOut * (r1 + r2) != 0.0
    ensures var r := WheatstoneResistance(vOut, r1, r2, r3, vIn);
            r.Ok? && WheatstoneVoltage(r.q.value, r1, r2, r3, vIn) == Ok(Quantity(vOut, Volt))
  {
    var s := r1 + r2;
    var d := vIn * r2 - vOut * s;
    var n := vIn * r1 + vOut * s;
    var g := n / d;
    var r := r3 * g;
    SensorFromOutput(vOut, r1, r2, r3, vIn, s, d, n, g, r);
    assert WheatstoneResistance(vOut, r1, r2, r3, vIn) == Ok(Quantity(r, Ohm));
    assert WheatstoneVoltage(r, r1, r2, r3, vIn) == Ok(Quantity(vIn * r2 / s - vIn * r3 / (r + r3), Volt));
  }

  /** The algebra of `RoundTripBack`: the resistance computed from V_out puts V_out
      back on the bridge. */
  lemma SensorFromOutput(vOut: real, r1: real, r2: real, r3: real, vIn: real,
                         s: real, d: real, n: real, g: real, r: real)
    requires s == r1 + r2 && s != 0.0 && vIn != 0.0 && r3 != 0.0
    requires d == vIn * r2 - vOut * s && d != 0.0 && n == vIn * r1 + vOut * s
    requires g == n / d && r == r3 * g
    ensures r + r3 != 0.0 && vIn * r2 / s - vIn * r3 / (r + r3) == vOut
  {
    Quotient(n, d);
    // R + R3 = R3·(g + 1) and (g + 1)·d = n + d = V_in·(R1 + R2).
    assert n + d == vIn * s;
    PlusOne(g, d, n, vIn, s);
    var x := r + r3;
    assert x == r3 * (g + 1.0);
    NonZeroProduct(r3, g + 1.0);
    SensorShare(vIn, r3, g, d, s);
    assert vIn * r3 / x == d / s;
    Difference(vIn, r2, d, s, vOut);
  }

  lemma PlusOne(g: real, d: real, n: real, vIn: real, s: real)
    requires g * d == n && n + d == vIn * s && vIn != 0.0 && s != 0.0
    ensures (g + 1.0) * d == vIn * s && g + 1.0 != 0.0
  {
    assert (g + 1.0) * d == g * d + d;
    NonZeroProduct(vIn, s);
  }

  /** The sensor's divider takes V_in·R3/(R3·(g + 1)) = d/(R1 + R2). */
  lemma SensorShare(vIn: real, r3: real, g: real, d: real, s: real)
    requires r3 != 0.0 && g + 1.0 != 0.0 && s != 0.0 && (g + 1.0) * d == vIn * s
    ensures vIn * r3 / (r3 * (g + 1.0)) == d / s
  {
    assert r3 * (g + 1.0) == (g + 1.0) * r3;
    Cancel(vIn, g + 1.0, r3);
    CrossRatio(vIn, g + 1.0, d, s);
  }

  lemma CrossRatio(a: real, b: real, c: real, e: real)
    requires b != 0.0 && e != 0.0 && a * e == c * b
    ensures a / b == c / e
  {
    assert (a / b) * (b * e) == a * e;
    assert (c / e) * (b * e) == c * b;
  }

  /** V_in·R2/s − d/s = V_out when d = V_in·R2 − V_out·s. */
  lemma Difference(vIn: real, r2: real, d: real, s: real, vOut: real)
    requires s != 0.0 && d == vIn * r2 - vOut * s
    ensures vIn * r2 / s - d / s == vOut
  {
    assert vIn * r2 / s - d / s == (vIn * r2 - d) / s;
    assert vIn * r2 - d == vOut * s;
  }

  /** `wheatstone_balance_resistance`: R = R1·(1 + 4·dV/(V_in − 2·dV)); unguarded. */
  function BalanceResistance(r1: real, vIn: real, dV: real): (r: Outcome)
    ensures r.ZeroDivisionError? <==> vIn - 2.0 * dV == 0.0
    ensures !r.ValueError?
    ensures r.Ok? ==> r.q.unit == Ohm
  {
    if vIn - 2.0 * dV == 0.0 then ZeroDivisionError
    else Ok(Quantity(r1 * (1.0 + (4.0 * dV) / (vIn - 2.0 * dV)), Ohm))
  }

  /** The balance formulas invert each other: from output to sensor and back ... */
  lemma BalanceRoundTrip(r1: real, vIn: real, dV: real)
    requires r1 != 0.0 && vIn != 0.0 && vIn - 2.0 * dV != 0.0
    ensures var r := BalanceResistance(r1, vIn, dV);
            r.Ok? && BalanceVoltage(r.q.value, r1, vIn) == Ok(Quantity(dV, Volt))
  {
    var e := vIn - 2.0 * dV;
    var f := (4.0 * dV) / e;
    var r := r1 * (1.0 + f);
    Quotient(4.0 * dV, e);
    TwoPlus(f, e, vIn, dV);
    // R − R1 = R1·f and R + R1 = R1·(2 + f), which is not zero.
    assert r - r1 == f * r1;
    assert r + r1 == (2.0 + f) * r1;
    NonZeroProduct(2.0 + f, r1);
    ShiftedRatio(r1, f, e, vIn, dV);
    Halves(dV, vIn);
  }

  /** With f·e = 4·dV and e = V_in − 2·dV: (2 + f)·e = 2·V_in, so 2 + f is not zero. */
  lemma TwoPlus(f: real, e: real, vIn: real, dV: real)
    requires vIn != 0.0 && e == vIn - 2.0 * dV && f * e == 4.0 * dV
    ensures (2.0 + f) * e == 2.0 * vIn && 2.0 + f != 0.0
  {
    assert (2.0 + f) * e == 2.0 * e + f * e;
  }

  /** f·R1/((2 + f)·R1) = 4·dV/(2·V_in), cancelling R1 and then multiplying by e. */
  lemma ShiftedRatio(r1: real, f: real, e: real, vIn: real, dV: real)
    requires r1 != 0.0 && e != 0.0 && 2.0 + f != 0.0
    requires f * e == 4.0 * dV && (2.0 + f) * e == 2.0 * vIn
    ensures (f * r1) / ((2.0 + f) * r1) == (4.0 * dV) / (2.0 * vIn)
  {
    Cancel(f, 2.0 + f, r1);
    Cancel(f, 2.0 + f, e);
  }

  /** (4·dV/(2·V_in))·(V_in/2) = dV. */
  lemma Halves(dV: real, vIn: real)
    requires vIn != 0.0
    ensures ((4.0 * dV) / (2.0 * vIn)) * (vIn / 2.0) == dV
  {
    assert (4.0 * dV) / (2.0 * vIn) == (2.0 * dV) / vIn;
    assert ((2.0 * dV) / vIn) * vIn == 2.0 * dV;
  }

  /** ... and from sensor to output and back. */
  lemma BalanceRoundTripBack(r: real, r1: real, vIn: real)
    requires r + r1 != 0.0 && r1 != 0.0 && vIn != 0.0
    ensures var v := BalanceVoltage(r, r1, vIn);
            v.Ok? && BalanceResistance(r1, vIn, v.q.value) == Ok(Quantity(r, Ohm))
  {
    var q := (r - r1) / (r + r1);
    Quotient(r - r1, r + r1);
    var dV := q * (vIn / 2.0);
    var e := vIn - 2.0 * dV;
    // e = V_in·(1 − q) and 1 − q = 2·R1/(R + R1).
    assert e == vIn * (1.0 - q);
    assert (1.0 - q) * (r + r1) == 2.0 * r1;
    NonZeroProduct(1.0 - q, r + r1);
    NonZeroProduct(vIn, 1.0 - q);
    assert 4.0 * dV == 2.0 * q * vIn;
    Cancel(2.0 * q, 1.0 - q, vIn);
    assert (4.0 * dV) / e == (2.0 * q) / (1.0 - q);
    Ratio(q, r, r1);
    assert BalanceVoltage(r, r1, vIn) == Ok(Quantity(dV, Volt));
    assert r1 * (1.0 + (4.0 * dV) / e) == r;
  }

  /** With q·(R + R1) = R − R1: R1·(1 + 2q/(1 − q)) = R. */
  lemma Ratio(q: real, r: real, r1: real)
    requires r + r1 != 0.0 && r1 != 0.0 && q * (r + r1) == r - r1
    ensures 1.0 - q != 0.0
    ensures r1 * (1.0 + (2.0 * q) / (1.0 - q)) == r
  {
    assert (1.0 - q) * (r + r1) == 2.0 * r1;
    NonZeroProduct(1.0 - q, r + r1);
    assert 1.0 + (2.0 * q) / (1.0 - q) == (1.0 + q) / (1.0 - q);
    assert (1.0 + q) * (r + r1) == 2.0 * r;
    assert r1 * (1.0 + q) == r * (1.0 - q);
  }
}
