/** Power and divider formulas. */
module BasicFunctions {
  import opened Units

  /** `power_vi`: P = V·I. */
  function PowerVI(voltage: real, current: real): (p: Quantity)
    ensures p.unit == Watt
    ensures voltage == 0.0 || current == 0.0 <==> p.value == 0.0
  {
    Quantity(voltage * current, Watt)
  }

  /** `power_ri`: P = R·I². */
  function PowerRI(resistance: real, current: real): (p: Quantity)
    ensures p.unit == Watt
    ensures resistance >= 0.0 ==> p.value >= 0.0
  {
    Quantity(resistance * (current * current), Watt)
  }

  /** `power_rv`: P = V²/R, refused for R = 0. */
  function PowerRV(resistance: real, voltage: real): (r: Outcome)
    ensures r.ValueError? <==> resistance == 0.0
    ensures r.ValueError? ==> r.message == "Resistance cannot be zero."
    ensures r.Ok? ==> r.q.unit == Watt && (resistance > 0.0 ==> r.q.value >= 0.0)
    ensures !r.ZeroDivisionError?
  {
    if resistance == 0.0 then ValueError("Resistance cannot be zero.")
    else Ok(Quantity((voltage * voltage) / resistance, Watt))
  }

  /** The three power formulas agree on any resistor that obeys Ohm's law. */
  lemma PowerConsistent(resistance: real, current: real)
    requires resistance != 0.0
    ensures var voltage := current * resistance;
            PowerVI(voltage, current).value == PowerRI(resistance, current).value &&
            PowerRV(resistance, voltage) == Ok(PowerRI(resistance, current))
  {
    var voltage := current * resistance;
    assert voltage * voltage == (resistance * (current * current)) * resistance;
  }

  lemma PowerExamples()
    ensures PowerVI(5.0, 10.0).value == 50.0
    ensures PowerRI(5.0, 10.0).value == 500.0
    ensures PowerRV(5.0, 10.0) == Ok(Quantity(20.0, Watt))
  {
  }

  /** `voltage_divider`: the voltage over R1, R1/(R1+R2)·V_in, refused when
      R1 + R2 = 0. */
  function VoltageDivider(vIn: real, r1: real, r2: real): (r: Outcome)
    ensures r.ValueError? <==> r1 + r2 == 0.0
    ensures r.ValueError? ==> r.message == "The sum of R1 and R2 cannot be zero."
    ensures r.Ok? ==> r.q.unit == Volt
    ensures !r.ZeroDivisionError?
  {
    if r1 + r2 == 0.0 then ValueError("The sum of R1 and R2 cannot be zero.")
    else Ok(Quantity((r1 / (r1 + r2)) * vIn, Volt))
  }

  /** `current_divider`: the current through R1, R2/(R1+R2)·I_in, refused when
      R1 + R2 = 0. */
  function CurrentDivider(iIn: real, r1: real, r2: real): (r: Outcome)
    ensures r.ValueError? <==> r1 + r2 == 0.0
    ensures r.ValueError? ==> r.message == "The sum of R1 and R2 cannot be zero."
    ensures r.Ok? ==> r.q.unit == Ampere
    ensures !r.ZeroDivisionError?
  {
    if r1 + r2 == 0.0 then ValueError("The sum of R1 and R2 cannot be zero.")
    else Ok(Quantity((r2 / (r1 + r2)) * iIn, Ampere))
  }

  /** The voltages over the two resistors add up to V_in, and each is the series
      current through its resistor. */
  lemma VoltageDividerSplits(vIn: real, r1: real, r2: real)
    requires r1 + r2 != 0.0
    ensures VoltageDivider(vIn, r1, r2).q.value + VoltageDivider(vIn, r2, r1).q.value == vIn
    ensures VoltageDivider(vIn, r1, r2).q.value == (vIn / (r1 + r2)) * r1
  {
    var s := r1 + r2;
    assert (r1 / s) * vIn + (r2 / (r2 + r1)) * vIn == ((r1 + r2) / s) * vIn;
  }

  /** The currents through the two resistors add up to I_in, and both see the same
      voltage. */
  lemma CurrentDividerSplits(iIn: real, r1: real, r2: real)
    requires r1 + r2 != 0.0
    ensures CurrentDivider(iIn, r1, r2).q.value + CurrentDivider(iIn, r2, r1).q.value == iIn
    ensures CurrentDivider(iIn, r1, r2).q.value * r1 == CurrentDivider(iIn, r2, r1).q.value * r2
  {
    var s := r1 + r2;
    assert (r2 / s) * iIn + (r1 / (r2 + r1)) * iIn == ((r1 + r2) / s) * iIn;
    assert (r2 / s) * iIn * r1 == (r1 * r2 / s) * iIn;
    assert (r1 / (r2 + r1)) * iIn * r2 == (r1 * r2 / s) * iIn;
  }

  /** Equal resistors halve the input. */
  lemma DividersHalve(vIn: real, iIn: real, r: real)
    requires r != 0.0
    ensures VoltageDivider(vIn, r, r) == Ok(Quantity(vIn / 2.0, Volt))
    ensures CurrentDivider(iIn, r, r) == Ok(Quantity(iIn / 2.0, Ampere))
  {
    assert r / (r + r) == 1.0 / 2.0;
  }

  lemma DividerExamples()
    ensures VoltageDivider(12.0, 1000.0, 2000.0) == Ok(Quantity(4.0, Volt))
    ensures CurrentDivider(0.03, 1000.0, 2000.0) == Ok(Quantity(0.02, Ampere))
    ensures VoltageDivider(12.0, 0.0, 0.0).ValueError?
  {
    assert 1000.0 / 3000.0 == 1.0 / 3.0;
    assert 2000.0 / 3000.0 == 2.0 / 3.0;
  }
}
