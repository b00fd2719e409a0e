/** `mathlib::polynomial<R>`: a vector of coefficients, lowest power first,
    and `evaluate`, which accumulates the power sum one coefficient at a
    time. The template is modelled at the two instantiations with exact
    arithmetic, `R = int` and `R = rational<int>`. */
module Polynomial {
  import opened Text
  import opened Rational

  // ---------------------------------------------------------------------
  // R = int

  /** `x` to the `k`-th power, one factor at a time as `xx = xx * x` builds
      it. */
  function Pow(x: int, k: nat): int
  {
    if k == 0 then 1 else Pow(x, k - 1) * x
  }

  /** The sum of `cs[i] * x^i` over all coefficients. */
  function PowerSum(cs: seq<int>, x: int): int
  {
    if cs == [] then 0 else PowerSum(cs[..|cs| - 1], x) + cs[|cs| - 1] * Pow(x, |cs| - 1)
  }

  /** Horner's rule, an independent definition of the same value. */
  function Horner(cs: seq<int>, x: int): int
  {
    if cs == [] then 0 else cs[0] + x * Horner(cs[1..], x)
  }

  lemma PowSucc(x: int, k: nat)
    ensures Pow(x, k + 1) == x * Pow(x, k)
  {
  }

  /** Peeling the constant coefficient off the power sum. */
  lemma {:induction false} PowerSumCons(c: int, t: seq<int>, x: int)
    ensures PowerSum([c] + t, x) == c + x * PowerSum(t, x)
    decreases |t|
  {
    if t != [] {
      var s := [c] + t;
      var t' := t[..|t| - 1];
      var last := t[|t| - 1];
      assert s[..|s| - 1] == [c] + t';
      assert s[|s| - 1] == last;
      PowerSumCons(c, t', x);
      PowSucc(x, |t| - 1);
      assert last * (x * Pow(x, |t| - 1)) == x * (last * Pow(x, |t| - 1));
      assert x * PowerSum(t, x) == x * PowerSum(t', x) + x * (last * Pow(x, |t| - 1));
    }
  }

  /** `evaluate`'s power sum equals Horner evaluation. */
  lemma {:induction false} PowerSumIsHorner(cs: seq<int>, x: int)
    ensures PowerSum(cs, x) == Horner(cs, x)
    decreases |cs|
  {
    if cs != [] {
      assert cs == [cs[0]] + cs[1..];
      PowerSumCons(cs[0], cs[1..], x);
      PowerSumIsHorner(cs[1..], x);
    }
  }

  /** The power sum of no coefficients is 0, and that of one coefficient
      `c` is `c`, at every `x`. */
  lemma PowerSumShort(c: int, x: int)
    ensures PowerSum([], x) == 0
    ensures PowerSum([c], x) == c
  {
    assert [c][..0] == [];
  }

  /** The Python test's vector `[3, 5, 7, 11]` at 2 (there with `double`
      coefficients, whose values here are integers). */
  lemma PythonTestExample()
    ensures PowerSum([3, 5, 7, 11], 2) == 129
  {
    PowerSumIsHorner([3, 5, 7, 11], 2);
    assert [3, 5, 7, 11][1..] == [5, 7, 11] && [5, 7, 11][1..] == [7, 11];
  }

  /** The native C++ demonstration's vector `[2, -3, 5]` at 3. */
  lemma NativeExample()
    ensures PowerSum([2, -3, 5], 3) == 38
  {
    PowerSumIsHorner([2, -3, 5], 3);
    assert [2, -3, 5][1..] == [-3, 5];
  }

  /** The C++ main program's vector `[2, 3, 5, 7, 11, -13]` at -2. */
  lemma MainExample()
    ensures PowerSum([2, 3, 5, 7, 11, -13], -2) == 552
  {
    PowerSumIsHorner([2, 3, 5, 7, 11, -13], -2);
    assert [2, 3, 5, 7, 11, -13][1..] == [3, 5, 7, 11, -13];
    assert [3, 5, 7, 11, -13][1..] == [5, 7, 11, -13];
    assert [5, 7, 11, -13][1..] == [7, 11, -13] && [7, 11, -13][1..] == [11, -13];
  }

  /** `polynomial<int>`. */
  class IntPolynomial {
    var coeffs: seq<int>

    constructor (cs: seq<int>)
      ensures coeffs == cs
    {
      coeffs := cs;
    }

    /** `evaluate`: a `const` member, so it changes nothing. */
    method Evaluate(x: int) returns (result: int)
      ensures result == PowerSum(coeffs, x)
    {
      result := 0;
      var xx := 1;
      var i := 0;
      while i < |coeffs|
        invariant 0 <= i <= |coeffs|
        invariant xx == Pow(x, i)
        invariant result == PowerSum(coeffs[..i], x)
      {
        assert coeffs[..i + 1][..i] == coeffs[..i];
        result := result + coeffs[i] * xx;
        xx := xx * x;
        i := i + 1;
      }
      assert coeffs[..i] == coeffs;
    }
  }

  // ---------------------------------------------------------------------
  // R = rational<int>

  /** One pass of the loop body on the pair `(result, xx)`: `result + c * xx`
      and `xx * x`, or None when one of the three constructor calls would
      reduce by gcd(0, 0). */
  function EvalStep(acc: (Pair, Pair), c: Pair, x: Pair): Option<(Pair, Pair)>
  {
    var (res, xx) := acc;
    if MulDefined(c, xx) && AddDefined(res, MulPairs(c, xx)) && MulDefined(xx, x) then
      Some((AddPairs(res, MulPairs(c, xx)), MulPairs(xx, x)))
    else None
  }

  /** The fields of `result` and `xx` after the loop has consumed `cs`,
      starting from `R(0)` and `R(1)`. */
  function EvalPairs(cs: seq<Pair>, x: Pair): Option<(Pair, Pair)>
  {
    if cs == [] then Some((Pair(0, 1), Pair(1, 1)))
    else match EvalPairs(cs[..|cs| - 1], x)
      case None => None
      case Some(acc) => EvalStep(acc, cs[|cs| - 1], x)
  }

  /** A run that completes also completes on every prefix. */
  lemma {:induction false} EvalPairsPrefix(cs: seq<Pair>, x: Pair, k: nat)
    requires k <= |cs| && EvalPairs(cs, x).Some?
    ensures EvalPairs(cs[..k], x).Some?
    decreases |cs|
  {
    if k < |cs| {
      assert cs[..|cs| - 1][..k] == cs[..k];
      EvalPairsPrefix(cs[..|cs| - 1], x, k);
    } else {
      assert cs[..k] == cs;
    }
  }

  /** Every coefficient has a non-zero denominator. */
  predicate Proper(cs: seq<Pair>)
  {
    forall i :: 0 <= i < |cs| ==> cs[i].d != 0
  }

  /** The value of `x` to the `k`-th power. */
  function RealPow(v: real, k: nat): real
  {
    if k == 0 then 1.0 else RealPow(v, k - 1) * v
  }

  /** The exact power sum of the coefficients' values at the value of `x`. */
  function ExactSum(cs: seq<Pair>, x: Pair): real
    requires Proper(cs) && x.d != 0
  {
    if cs == [] then 0.0
    else ExactSum(cs[..|cs| - 1], x) + Term(cs[|cs| - 1], x, |cs| - 1)
  }

  /** The term `c * x^k` of the exact power sum. */
  function Term(c: Pair, x: Pair, k: nat): real
    requires c.d != 0 && x.d != 0
  {
    Value(c) * RealPow(Value(x), k)
  }

  /** With non-zero denominators everywhere, `reduce` never meets
      gcd(0, 0), and the loop over `cs` leaves in `result` the exact
      rational power sum and in `xx` the power `x^|cs|`, both with non-zero
      denominators. */
  lemma {:induction false} EvalPairsExact(cs: seq<Pair>, x: Pair) returns (res: Pair, xx: Pair)
    requires Proper(cs) && x.d != 0
    ensures EvalPairs(cs, x) == Some((res, xx))
    ensures res.d != 0 && xx.d != 0
    ensures Value(res) == ExactSum(cs, x) && Value(xx) == RealPow(Value(x), |cs|)
    decreases |cs|
  {
    if cs == [] {
      res, xx := Pair(0, 1), Pair(1, 1);
    } else {
      var init := cs[..|cs| - 1];
      assert Proper(init);
      var r0, x0 := EvalPairsExact(init, x);
      var c := cs[|cs| - 1];
      res, xx := ExactStep(r0, x0, c, x, |init|);
      assert EvalPairs(cs, x) == EvalStep((r0, x0), c, x);
      ExactSumStep(cs, x);
    }
  }

  lemma ExactSumStep(cs: seq<Pair>, x: Pair)
    requires Proper(cs) && x.d != 0 && cs != []
    ensures Proper(cs[..|cs| - 1])
    ensures ExactSum(cs, x) == ExactSum(cs[..|cs| - 1], x) + Term(cs[|cs| - 1], x, |cs| - 1)
  {
  }

  /** One loop pass keeps denominators non-zero, adds the term `c * x^k` to
      the value of `result` and takes `xx` from `x^k` to `x^(k+1)`. */
  lemma ExactStep(res: Pair, xx: Pair, c: Pair, x: Pair, k: nat) returns (res': Pair, xx': Pair)
    requires res.d != 0 && xx.d != 0 && c.d != 0 && x.d != 0
    requires Value(xx) == RealPow(Value(x), k)
    ensures EvalStep((res, xx), c, x) == Some((res', xx'))
    ensures res'.d != 0 && xx'.d != 0
    ensures Value(res') == Value(res) + Term(c, x, k)
    ensures Value(xx') == RealPow(Value(x), k + 1)
  {
    res' := AddedTerm(res, xx, c, x, k);
    xx' := NextPower(xx, x, k);
  }

  lemma AddedTerm(res: Pair, xx: Pair, c: Pair, x: Pair, k: nat) returns (res': Pair)
    requires res.d != 0 && xx.d != 0 && c.d != 0 && x.d != 0
    requires Value(xx) == RealPow(Value(x), k)
    ensures MulDefined(c, xx) && AddDefined(res, MulPairs(c, xx))
    ensures res' == AddPairs(res, MulPairs(c, xx)) && res'.d != 0
    ensures Value(res') == Value(res) + Term(c, x, k)
  {
    MulValue(c, xx);
    AddValue(res, MulPairs(c, xx));
    res' := AddPairs(res, MulPairs(c, xx));
    ScaleEqual(Value(c), Value(xx), RealPow(Value(x), k));
  }

  lemma NextPower(xx: Pair, x: Pair, k: nat) returns (xx': Pair)
    requires xx.d != 0 && x.d != 0
    requires Value(xx) == RealPow(Value(x), k)
    ensures MulDefined(xx, x) && xx' == MulPairs(xx, x) && xx'.d != 0
    ensures Value(xx') == RealPow(Value(x), k + 1)
  {
    MulValue(xx, x);
    xx' := MulPairs(xx, x);
    ScaleEqual(Value(x), Value(xx), RealPow(Value(x), k));
  }

  lemma ScaleEqual(a: real, p: real, q: real)
    requires p == q
    ensures a * p == a * q && p * a == q * a
  {
  }

  /** `polynomial<rational<int>>`. */
  class RationalPolynomial {
    var coeffs: seq<Rational>

    constructor (cs: seq<Rational>)
      ensures coeffs == cs
    {
      coeffs := cs;
    }

    /** The fields of the coefficients. */
    function CoeffFields(): (fs: seq<Pair>)
      reads this, coeffs
      ensures |fs| == |coeffs|
      ensures forall i :: 0 <= i < |coeffs| ==> fs[i] == coeffs[i].Fields()
    {
      FieldsOf(coeffs)
    }

    /** `evaluate`: `R result(0), xx(1)`, then for each coefficient
        `result = result + c * xx; xx = xx * x`. */
    method Evaluate(x: Rational) returns (result: Rational)
      requires EvalPairs(CoeffFields(), x.Fields()).Some?
      ensures result.Fields() == EvalPairs(CoeffFields(), x.Fields()).value.0
    {
      ghost var cs := CoeffFields();
      result := new Rational.FromInt(0);
      var xx := new Rational.FromInt(1);
      var i := 0;
      while i < |coeffs|
        invariant 0 <= i <= |coeffs|
        invariant CoeffFields() == cs
        invariant EvalPairs(cs[..i], x.Fields()) == Some((result.Fields(), xx.Fields()))
      {
        EvalPairsPrefix(cs, x.Fields(), i + 1);
        assert cs[..i + 1][..i] == cs[..i];
        assert cs[i] == coeffs[i].Fields();
        var term := coeffs[i].Times(xx);
        result := result.Plus(term);
        xx := xx.Times(x);
        i := i + 1;
      }
      assert cs[..i] == cs;
    }
  }

  function FieldsOf(rs: seq<Rational>): (fs: seq<Pair>)
    reads rs
    ensures |fs| == |rs|
    ensures forall i :: 0 <= i < |rs| ==> fs[i] == rs[i].Fields()
  {
    if rs == [] then [] else [rs[0].Fields()] + FieldsOf(rs[1..])
  }
}
