/**
 * Integer helpers of include/util/UtilFunctions.h and the constants of include/util/Constants.h
 * that do not depend on the utilization list: membership test, hyper-cycle and gcd folds,
 * transmission delay and frame counts.
 */
module UtilFunctions {

  /** Delays in macro ticks (micro seconds) and the link speed in Mbit/s. */
  const PropagationDelay: nat := 1
  const ProcessingDelay: nat := 4
  const NetworkSpeed: nat := 1000

  /** vector_contains: a linear find. */
  function VectorContains<T(==)>(s: seq<T>, x: T): (b: bool)
    ensures b <==> x in s
  {
    if s == [] then false
    else if s[0] == x then true
    else VectorContains(s[1..], x)
  }

  /** d divides n (0 divides only 0). */
  ghost predicate Divides(d: nat, n: nat) {
    exists k: int :: n == d * k
  }

  /** std::gcd on non-negative arguments, by Euclid's algorithm. */
  function Gcd(a: nat, b: nat): nat
    decreases b
  {
    if b == 0 then a else Gcd(b, a % b)
  }

  /** std::lcm: 0 when either argument is 0. */
  function Lcm(a: nat, b: nat): nat {
    if a == 0 || b == 0 then 0
    else
      GcdPositive(a, b);
      var q: nat := a / Gcd(a, b);
      MulNat(q, b);
      q * b
  }

  lemma MulNat(x: nat, y: nat)
    ensures x * y >= 0
  {
  }

  lemma {:induction false} GcdPositive(a: nat, b: nat)
    requires a > 0
    ensures Gcd(a, b) > 0
    decreases b
  {
    if b > 0 {
      GcdPositive(b, a % b);
    }
  }

  lemma DivOfMultiple(g: nat, x: int)
    requires g > 0
    ensures (g * x) / g == x
  {
    var q, r := (g * x) / g, (g * x) % g;
    assert g * x == g * q + r && 0 <= r < g;
    assert g * (x - q) == r;
    MulSign(g, x - q);
  }

  lemma MulSign(g: nat, m: int)
    requires g > 0
    ensures m >= 1 ==> g * m >= g
    ensures m <= -1 ==> g * m + g <= 0
  {
    if m >= 1 {
      assert g * m - g == g * (m - 1);
    }
    if m <= -1 {
      assert g * m + g == g * (m + 1);
    }
  }

  lemma DividesTransitive(a: nat, b: nat, c: nat)
    requires Divides(a, b) && Divides(b, c)
    ensures Divides(a, c)
  {
    var x: int :| b == a * x;
    var y: int :| c == b * y;
    assert c == a * (x * y);
  }

  /** (a % b) is a - b * q, so a common divisor of a and b divides it. */
  lemma DividesRemainder(d: nat, a: nat, b: nat)
    requires b > 0 && Divides(d, a) && Divides(d, b)
    ensures Divides(d, a % b)
  {
    var x: int :| a == d * x;
    var y: int :| b == d * y;
    var q := a / b;
    assert a % b == a - b * q;
    RemainderMultiple(d, x, y, q);
  }

  lemma RemainderMultiple(d: int, x: int, y: int, q: int)
    ensures d * x - (d * y) * q == d * (x - y * q)
  {
    assert (d * y) * q == d * (y * q);
    assert d * x - d * (y * q) == d * (x - y * q);
  }

  lemma {:induction false} GcdDividesBoth(a: nat, b: nat)
    ensures Divides(Gcd(a, b), a) && Divides(Gcd(a, b), b)
    decreases b
  {
    if b == 0 {
      assert a == a * 1 && 0 == a * 0;
    } else {
      GcdDividesBoth(b, a % b);
      var g := Gcd(a, b);
      var x: int :| b == g * x;
      var y: int :| a % b == g * y;
      var q := a / b;
      assert a == b * q + a % b;
      assert b * q == (g * x) * q == g * (x * q);
      assert a == g * (x * q + y);
    }
  }

  lemma {:induction false} GcdGreatest(a: nat, b: nat, d: nat)
    requires Divides(d, a) && Divides(d, b)
    ensures Divides(d, Gcd(a, b))
    decreases b
  {
    if b > 0 {
      DividesRemainder(d, a, b);
      GcdGreatest(b, a % b, d);
    }
  }

  /** Lcm(a, b) is a common multiple of a and b, and positive when both are. */
  lemma LcmIsCommonMultiple(a: nat, b: nat)
    ensures Divides(a, Lcm(a, b)) && Divides(b, Lcm(a, b))
    ensures a > 0 && b > 0 ==> Lcm(a, b) > 0
  {
    if a == 0 || b == 0 {
      assert Lcm(a, b) == a * 0 && Lcm(a, b) == b * 0;
    } else {
      var g := Gcd(a, b);
      GcdDividesBoth(a, b);
      GcdPositive(a, b);
      var x: int :| a == g * x;
      var y: int :| b == g * y;
      DivOfMultiple(g, x);
      LcmWitnesses(a, b, g, x, y);
    }
  }

  lemma LcmWitnesses(a: nat, b: nat, g: nat, x: int, y: int)
    requires a > 0 && b > 0 && g > 0 && a == g * x && b == g * y && a / g == x
    ensures a / g * b == b * x && a / g * b == a * y && a / g * b > 0
  {
    assert x * (g * y) == (g * x) * y;
    assert x > 0;
  }

  /** Bezout's identity for Euclid's gcd: it is an integer combination of the two arguments. */
  lemma {:induction false} Bezout(a: nat, b: nat) returns (u: int, v: int)
    ensures Gcd(a, b) == a * u + b * v
    decreases b
  {
    if b == 0 {
      u, v := 1, 0;
    } else {
      var u', v' := Bezout(b, a % b);
      var q := a / b;
      BezoutStep(a, b, q, a % b, u', v');
      u, v := v', u' - q * v';
    }
  }

  lemma BezoutStep(a: int, b: int, q: int, r: int, u': int, v': int)
    requires a == b * q + r
    ensures b * u' + r * v' == a * v' + b * (u' - q * v')
  {
    assert r * v' == a * v' - (b * q) * v';
    assert (b * q) * v' == b * (q * v');
  }

  /** Every common multiple m > 0 of a and b is a multiple of Lcm(a, b). */
  lemma LcmLeast(a: nat, b: nat, m: nat)
    requires m > 0 && Divides(a, m) && Divides(b, m)
    ensures Divides(Lcm(a, b), m)
  {
    var s: int :| m == a * s;
    var t: int :| m == b * t;
    assert a != 0 && b != 0;
    var g := Gcd(a, b);
    GcdPositive(a, b);
    GcdDividesBoth(a, b);
    var x: int :| a == g * x;
    DivOfMultiple(g, x);
    var u, v := Bezout(a, b);
    LcmLeastAlgebra(a, b, g, x, m, s, t, u, v);
    assert Lcm(a, b) == x * b;
  }

  lemma LcmLeastAlgebra(a: int, b: int, g: int, x: int, m: int, s: int, t: int, u: int, v: int)
    requires g > 0 && a == g * x && m == a * s && m == b * t && g == a * u + b * v
    ensures m == (x * b) * (t * u + s * v)
  {
    var k := t * u + s * v;
    assert m * g == m * (a * u) + m * (b * v);
    assert m * (a * u) == (a * b) * (t * u) by {
      assert m * (a * u) == (b * t) * (a * u);
    }
    assert m * (b * v) == (a * b) * (s * v) by {
      assert m * (b * v) == (a * s) * (b * v);
    }
    assert m * g == (a * b) * k;
    assert a * b == g * (x * b);
    assert m * g == ((x * b) * k) * g;
    CancelFactor(g, m, (x * b) * k);
  }

  lemma CancelFactor(g: int, p: int, q: int)
    requires g > 0 && p * g == q * g
    ensures p == q
  {
    assert (p - q) * g == 0;
  }

  /**
   * calculate_hyper_cycle: the lcm of all periods, folded from 1. Every positive period
   * divides it; a period of 0 makes it 0.
   */
  function HyperCycle(periods: seq<nat>): (hc: nat)
    ensures periods == [] ==> hc == 1
    ensures (exists i :: 0 <= i < |periods| && periods[i] == 0) ==> hc == 0
    ensures (forall i :: 0 <= i < |periods| ==> periods[i] > 0) ==>
              hc > 0 && forall i :: 0 <= i < |periods| ==> Divides(periods[i], hc)
  {
    if periods == [] then 1
    else
      var init := periods[..|periods| - 1];
      var rest := HyperCycle(init);
      var p := periods[|periods| - 1];
      HyperCycleStep(periods, init, rest, p);
      Lcm(rest, p)
  }

  lemma HyperCycleStep(periods: seq<nat>, init: seq<nat>, rest: nat, p: nat)
    requires |periods| > 0 && init == periods[..|periods| - 1] && p == periods[|periods| - 1]
    requires (exists i :: 0 <= i < |init| && init[i] == 0) ==> rest == 0
    requires (forall i :: 0 <= i < |init| ==> init[i] > 0) ==>
               rest > 0 && forall i :: 0 <= i < |init| ==> Divides(init[i], rest)
    ensures (exists i :: 0 <= i < |periods| && periods[i] == 0) ==> Lcm(rest, p) == 0
    ensures (forall i :: 0 <= i < |periods| ==> periods[i] > 0) ==>
              Lcm(rest, p) > 0 && forall i :: 0 <= i < |periods| ==> Divides(periods[i], Lcm(rest, p))
  {
    LcmIsCommonMultiple(rest, p);
    assert forall i :: 0 <= i < |init| ==> init[i] == periods[i];
    if exists i :: 0 <= i < |periods| && periods[i] == 0 {
      var i :| 0 <= i < |periods| && periods[i] == 0;
      if i < |init| {
        assert init[i] == 0;
      }
    }
    if forall i :: 0 <= i < |periods| ==> periods[i] > 0 {
      forall i | 0 <= i < |periods| - 1 ensures Divides(periods[i], Lcm(rest, p)) {
        DividesTransitive(periods[i], rest, Lcm(rest, p));
      }
    }
  }

  /** The hyper-cycle is the least common multiple: it divides every positive common multiple of the periods. */
  lemma {:induction false} HyperCycleLeast(periods: seq<nat>, m: nat)
    requires m > 0 && forall i :: 0 <= i < |periods| ==> Divides(periods[i], m)
    ensures Divides(HyperCycle(periods), m)
  {
    if periods == [] {
      assert m == 1 * m;
    } else {
      var init := periods[..|periods| - 1];
      assert forall i :: 0 <= i < |init| ==> init[i] == periods[i];
      HyperCycleLeast(init, m);
      LcmLeast(HyperCycle(init), periods[|periods| - 1], m);
    }
  }

  /** The hyper-cycle of periods 10, 15, 25 and 10 is 150. */
  lemma HyperCycleOfFourPeriods()
    ensures HyperCycle([10, 15, 25, 10]) == 150
  {
    assert 1 % 10 == 1 && 10 % 1 == 0 && Gcd(1, 10) == 1;
    assert 10 % 15 == 10 && 15 % 10 == 5 && 10 % 5 == 0 && Gcd(10, 15) == 5;
    assert 30 % 25 == 5 && 25 % 5 == 0 && Gcd(30, 25) == 5;
    assert 150 % 10 == 0 && Gcd(150, 10) == 10;
    assert Lcm(1, 10) == 10 && Lcm(10, 15) == 30 && Lcm(30, 25) == 150 && Lcm(150, 10) == 150;
    assert [10, 15, 25, 10][..3] == [10, 15, 25] && [10, 15, 25][..2] == [10, 15] && [10, 15][..1] == [10];
    assert [10][..0] == [];
    assert HyperCycle([10]) == 10;
    assert HyperCycle([10, 15]) == 30;
    assert HyperCycle([10, 15, 25]) == 150;
  }

  /**
   * calculate_gcd_period: gcd of the distinct periods, folded from the first one. It divides
   * every period and every common divisor of the periods divides it.
   */
  function GcdPeriod(periods: seq<nat>): (g: nat)
    requires |periods| > 0
    ensures forall i :: 0 <= i < |periods| ==> Divides(g, periods[i])
  {
    if |periods| == 1 then
      assert periods[0] == periods[0] * 1;
      periods[0]
    else
      var init := periods[..|periods| - 1];
      var rest := GcdPeriod(init);
      var p := periods[|periods| - 1];
      GcdPeriodStep(periods, init, rest, p);
      Gcd(rest, p)
  }

  lemma GcdPeriodStep(periods: seq<nat>, init: seq<nat>, rest: nat, p: nat)
    requires |periods| > 0 && init == periods[..|periods| - 1] && p == periods[|periods| - 1]
    requires forall i :: 0 <= i < |init| ==> Divides(rest, init[i])
    ensures forall i :: 0 <= i < |periods| ==> Divides(Gcd(rest, p), periods[i])
  {
    GcdDividesBoth(rest, p);
    forall i | 0 <= i < |periods| ensures Divides(Gcd(rest, p), periods[i]) {
      if i < |init| {
        assert init[i] == periods[i];
        DividesTransitive(Gcd(rest, p), rest, periods[i]);
      }
    }
  }

  lemma {:induction false} GcdPeriodGreatest(periods: seq<nat>, d: nat)
    requires |periods| > 0
    requires forall i :: 0 <= i < |periods| ==> Divides(d, periods[i])
    ensures Divides(d, GcdPeriod(periods))
  {
    if |periods| > 1 {
      var init := periods[..|periods| - 1];
      assert forall i :: 0 <= i < |init| ==> init[i] == periods[i];
      GcdPeriodGreatest(init, d);
      GcdGreatest(GcdPeriod(init), periods[|periods| - 1], d);
    }
  }

  /** calculate_transmission_delay: whole macro ticks needed to send `size` bytes at 1000 Mbit/s. */
  function TransmissionDelay(size: nat): (tx: nat)
    ensures 125 * tx <= size < 125 * (tx + 1)
  {
    (size * 8) / NetworkSpeed
  }

  lemma QuotientNat(a: nat, b: nat)
    requires b > 0
    ensures a / b >= 0
  {
  }

  /** calculate_number_of_frames: frames per hyper-cycle summed over the given flows' periods. */
  function NumberOfFrames(hc: nat, periods: seq<nat>): (n: nat)
    requires forall i :: 0 <= i < |periods| ==> periods[i] > 0
    ensures periods == [] ==> n == 0
    ensures |periods| == 1 ==> n == hc / periods[0]
    ensures forall i :: 0 <= i < |periods| ==> hc / periods[i] <= n
  {
    if periods == [] then 0
    else
      var rest := NumberOfFrames(hc, periods[1..]);
      var mine := hc / periods[0];
      QuotientNat(hc, periods[0]);
      assert |periods| == 1 ==> rest == 0;
      assert forall i :: 1 <= i < |periods| ==> periods[1..][i - 1] == periods[i];
      assert forall i :: 0 <= i < |periods| ==> hc / periods[i] <= mine + rest by {
        forall i | 0 <= i < |periods| ensures hc / periods[i] <= mine + rest {
          if i > 0 {
            assert hc / periods[1..][i - 1] <= rest;
          }
        }
      }
      mine + rest
  }

  /** Periods 250, 500 and 1000 in a hyper-cycle of 1000 make 4 + 2 + 1 = 7 frames. */
  lemma SevenFrames()
    ensures NumberOfFrames(1000, [250, 500, 1000]) == 7
  {
    assert [250, 500, 1000][1..] == [500, 1000] && [500, 1000][1..] == [1000];
    assert NumberOfFrames(1000, [1000]) == 1;
    assert NumberOfFrames(1000, [500, 1000]) == 3;
  }

  /** The frame count does not depend on how the flows are split up. */
  lemma {:induction false} NumberOfFramesAppend(hc: nat, a: seq<nat>, b: seq<nat>)
    requires forall i :: 0 <= i < |a| ==> a[i] > 0
    requires forall i :: 0 <= i < |b| ==> b[i] > 0
    ensures NumberOfFrames(hc, a + b) == NumberOfFrames(hc, a) + NumberOfFrames(hc, b)
  {
    if a == [] {
      assert a + b == b;
    } else {
      assert (a + b)[1..] == a[1..] + b;
      NumberOfFramesAppend(hc, a[1..], b);
    }
  }
}
