/** Series and parallel combination of resistors. */
module Resistance {
  import opened Units

  function Sum(xs: seq<real>): real
  {
    if xs == [] then 0.0 else xs[0] + Sum(xs[1..])
  }

  lemma {:induction false} SumConcat(a: seq<real>, b: seq<real>)
    ensures Sum(a + b) == Sum(a) + Sum(b)
  {
    if a == [] {
      assert a + b == b;
    } else {
      assert (a + b)[1..] == a[1..] + b;
      SumConcat(a[1..], b);
    }
  }

  /** `series_resistance`: the sum of the resistors, 0 for none. */
  function SeriesResistance(resistors: seq<real>): (r: Quantity)
    ensures r.unit == Ohm
  {
    Quantity(Sum(resistors), Ohm)
  }

  /** Resistors in series may be grouped at will: the chain of two chains is their
      sum. */
  lemma SeriesChains(a: seq<real>, b: seq<real>)
    ensures SeriesResistance(a + b).value == SeriesResistance(a).value + SeriesResistance(b).value
  {
    SumConcat(a, b);
  }

  /** A series chain of positive resistors is at least each of its resistors, and
      larger than each when it has two or more. */
  lemma {:induction false} SeriesExceeds(resistors: seq<real>, i: nat)
    requires forall j :: 0 <= j < |resistors| ==> resistors[j] > 0.0
    requires i < |resistors|
    ensures SeriesResistance(resistors).value >= resistors[i]
    ensures |resistors| >= 2 ==> SeriesResistance(resistors).value > resistors[i]
  {
    if i > 0 {
      SeriesExceeds(resistors[1..], i - 1);
    } else {
      SumPositive(resistors[1..]);
    }
  }

  lemma {:induction false} SumPositive(xs: seq<real>)
    requires forall j :: 0 <= j < |xs| ==> xs[j] > 0.0
    ensures Sum(xs) >= 0.0
    ensures xs != [] ==> Sum(xs) > 0.0
  {
    if xs != [] {
      SumPositive(xs[1..]);
    }
  }

  lemma SeriesExample()
    ensures SeriesResistance([10.0, 20.0, 30.0]).value == 60.0
    ensures SeriesResistance([]).value == 0.0
  {
    assert [10.0, 20.0, 30.0][1..] == [20.0, 30.0];
    assert [20.0, 30.0][1..] == [30.0];
  }

  /** What `parallell_resistance` returns: a resistance, or Python's bare `inf`
      when the reciprocals sum to 0, or the division error of a zero resistor. */
  datatype Parallel = Combined(q: Quantity) | BareInfinity | DivisionByZero

  predicate NoZero(xs: seq<real>) {
    forall j :: 0 <= j < |xs| ==> xs[j] != 0.0
  }

  /** The conductances `1/r`, for resistors none of which is zero. */
  function Reciprocals(xs: seq<real>): (ys: seq<real>)
    requires NoZero(xs)
    ensures |ys| == |xs|
    ensures forall j :: 0 <= j < |xs| ==> ys[j] == 1.0 / xs[j]
  {
    seq(|xs|, j requires 0 <= j < |xs| => 1.0 / xs[j])
  }

  /** `parallell_resistance`: a zero resistor raises while the reciprocals are summed;
      otherwise 1/Σ(1/r) when the sum is not 0, else bare `inf`. */
  function ParallelResistance(resistors: seq<real>): (r: Parallel)
    ensures r.DivisionByZero? <==> !NoZero(resistors)
    ensures r.BareInfinity? <==> NoZero(resistors) && Sum(Reciprocals(resistors)) == 0.0
    ensures r.Combined? ==> r.q.unit == Ohm && r.q.value * Sum(Reciprocals(resistors)) == 1.0
  {
    if !NoZero(resistors) then DivisionByZero
    else
      var reciprocal := Sum(Reciprocals(resistors));
      if reciprocal != 0.0 then Combined(Quantity(1.0 / reciprocal, Ohm)) else BareInfinity
  }

  /** With no resistors the reciprocal sum is 0, and the result is bare `inf`. */
  lemma ParallelOfNone()
    ensures ParallelResistance([]) == BareInfinity
  {
  }

  /** Conductances add: combining two groups in parallel is combining their
      combinations. */
  lemma ParallelGroups(a: seq<real>, b: seq<real>)
    requires NoZero(a) && NoZero(b)
    requires Sum(Reciprocals(a)) != 0.0 && Sum(Reciprocals(b)) != 0.0
    requires Sum(Reciprocals(a)) + Sum(Reciprocals(b)) != 0.0
    ensures ParallelResistance(a + b).Combined?
    ensures 1.0 / ParallelResistance(a + b).q.value ==
            1.0 / ParallelResistance(a).q.value + 1.0 / ParallelResistance(b).q.value
  {
    assert NoZero(a + b);
    assert Reciprocals(a + b) == Reciprocals(a) + Reciprocals(b);
    SumConcat(Reciprocals(a), Reciprocals(b));
    Reciprocal(Sum(Reciprocals(a)));
    Reciprocal(Sum(Reciprocals(b)));
    Reciprocal(Sum(Reciprocals(a + b)));
  }

  lemma Reciprocal(x: real)
    requires x != 0.0
    ensures 1.0 / (1.0 / x) == x
  {
  }

  lemma ReciprocalBelow(s: real, r: real)
    requires r > 0.0 && s >= 1.0 / r
    ensures 0.0 < 1.0 / s <= r
    ensures s > 1.0 / r ==> 1.0 / s < r
  {
    assert r * s >= r * (1.0 / r) == 1.0;
    if s > 1.0 / r {
      assert r * s > r * (1.0 / r) == 1.0;
    }
  }

  /** Two resistors in parallel: R1·R2/(R1+R2). */
  lemma ParallelOfTwo(r1: real, r2: real)
    requires r1 != 0.0 && r2 != 0.0 && r1 + r2 != 0.0
    ensures ParallelResistance([r1, r2]) == Combined(Quantity(r1 * r2 / (r1 + r2), Ohm))
  {
    var g := Reciprocals([r1, r2]);
    assert g == [1.0 / r1, 1.0 / r2];
    assert g[1..] == [1.0 / r2] && g[1..][1..] == [];
    assert Sum(g[1..][1..]) == 0.0;
    assert Sum(g[1..]) == 1.0 / r2;
    assert Sum(g) == 1.0 / r1 + 1.0 / r2;
    assert 1.0 / r1 + 1.0 / r2 == (r1 + r2) / (r1 * r2);
  }

  /** `n` equal resistors in parallel: R/n. */
  lemma ParallelOfEqual(r: real, n: nat)
    requires r != 0.0 && n > 0
    ensures ParallelResistance(seq(n, j => r)) == Combined(Quantity(r / (n as real), Ohm))
  {
    EqualReciprocals(r, n);
  }

  lemma {:induction false} EqualReciprocals(r: real, n: nat)
    requires r != 0.0
    ensures NoZero(seq(n, j => r))
    ensures Sum(Reciprocals(seq(n, j => r))) == (n as real) / r
  {
    if n > 0 {
      EqualReciprocals(r, n - 1);
      assert Reciprocals(seq(n, j => r))[1..] == Reciprocals(seq(n - 1, j => r));
    }
  }

  /** Positive resistors in parallel combine to a positive value no larger than each
      of them, and smaller than each when there are two or more. */
  lemma ParallelBelow(resistors: seq<real>, i: nat)
    requires forall j :: 0 <= j < |resistors| ==> resistors[j] > 0.0
    requires i < |resistors|
    ensures ParallelResistance(resistors).Combined?
    ensures 0.0 < ParallelResistance(resistors).q.value <= resistors[i]
    ensures |resistors| >= 2 ==> ParallelResistance(resistors).q.value < resistors[i]
  {
    var g := Reciprocals(resistors);
    assert forall j :: 0 <= j < |g| ==> g[j] > 0.0;
    SeriesExceeds(g, i);
    ReciprocalBelow(Sum(g), resistors[i]);
  }

  lemma ParallelExamples()
    ensures ParallelResistance([10.0, 20.0]) == Combined(Quantity(20.0 / 3.0, Ohm))
    ensures ParallelResistance([5.0, 5.0, 5.0]) == Combined(Quantity(5.0 / 3.0, Ohm))
    ensures ParallelResistance([100.0, 0.0]) == DivisionByZero
  {
    ParallelOfTwo(10.0, 20.0);
    ParallelOfEqual(5.0, 3);
    assert seq(3, j => 5.0) == [5.0, 5.0, 5.0];
    assert [100.0, 0.0][1] == 0.0;
  }
}
