/** `mathlib::rational<I>` with `I = int`: a numerator `n` and a denominator
    `d`, reduced by their gcd whenever a rational is built from two integers.
    The two copies of the header (under `src/` and `include/`) define the
    same fields, `reduce`, constructors and operators, and are modelled
    once. */
module Rational {
  import opened Text
  import opened Numeric

  /** The fields `(n, d)` of a `rational<int>`. */
  datatype Pair = Pair(n: int, d: int)

  /** `std::gcd` of the two fields. */
  function FieldGcd(p: Pair): nat
  {
    Gcd(Abs(p.n), Abs(p.d))
  }

  /** What `reduce()` leaves in the fields: both are negated when either is
      negative, then both are divided by their gcd. Two zero fields are
      excluded, since gcd(0, 0) is 0 and the division would be by zero. */
  function Reduced(p: Pair): Pair
    requires p.n != 0 || p.d != 0
  {
    var s := if p.n < 0 || p.d < 0 then Pair(-p.n, -p.d) else p;
    var c := FieldGcd(s);
    GcdPositive(Abs(s.n), Abs(s.d));
    Pair(s.n / c, s.d / c)
  }

  /** The real number a pair with a non-zero denominator stands for. */
  function Value(p: Pair): real
    requires p.d != 0
  {
    (p.n as real) / (p.d as real)
  }

  // ---------------------------------------------------------------------
  // reduce

  lemma DivByGcd(x: int, c: nat, m: nat)
    requires c > 0 && Abs(x) == m * c
    ensures (x / c) * c == x && Abs(x / c) == m
  {
    if x >= 0 {
      ExactQuotient(m, c);
    } else {
      var k: int := 0 - (m as int);
      assert x == k * c;
      ExactQuotient(k, c);
    }
  }

  /** `reduce` negates both fields exactly when at least one of them is
      negative, and divides both by the gcd `c` of their absolute values;
      the resulting fields are coprime. */
  lemma ReducedFields(p: Pair)
    requires p.n != 0 || p.d != 0
    ensures var r := Reduced(p);
      var c := FieldGcd(p);
      && c > 0
      && (p.n < 0 || p.d < 0 ==> r.n * c == -p.n && r.d * c == -p.d)
      && (!(p.n < 0 || p.d < 0) ==> r.n * c == p.n && r.d * c == p.d)
      && FieldGcd(r) == 1
  {
    var s := if p.n < 0 || p.d < 0 then Pair(-p.n, -p.d) else p;
    var c := FieldGcd(s);
    assert c == FieldGcd(p);
    GcdPositive(Abs(s.n), Abs(s.d));
    var a, b := GcdDivides(Abs(s.n), Abs(s.d));
    DivByGcd(s.n, c, a);
    DivByGcd(s.d, c, b);
    assert c * a == Abs(s.n) && c * b == Abs(s.d);
    CoprimeQuotients(c, a, b);
  }

  /** `reduce` keeps the value: the old and new fields cross-multiply to the
      same product (which is meaningful even for a zero denominator). */
  lemma ReducedValue(p: Pair)
    requires p.n != 0 || p.d != 0
    ensures Reduced(p).n * p.d == p.n * Reduced(p).d
    ensures Reduced(p).d == 0 <==> p.d == 0
  {
    var r := Reduced(p);
    var c := FieldGcd(p);
    ReducedFields(p);
    MulSign(r.d, c);
    ScaledCross(r.n, r.d, c, p.n, p.d);
  }

  lemma ScaledCross(x: int, y: int, c: int, u: int, v: int)
    requires (u == x * c && v == y * c) || (u == -(x * c) && v == -(y * c))
    ensures x * v == u * y
  {
    assert x * (y * c) == (x * c) * y;
    if u == -(x * c) && v == -(y * c) {
      assert x * v == -(x * (y * c));
      assert u * y == -((x * c) * y);
    }
  }

  /** The sign quirk: a negative numerator over a positive denominator is
      stored with the minus sign moved to the denominator. */
  lemma ReducedMovesSign(p: Pair)
    requires p.n < 0 && p.d > 0
    ensures Reduced(p).n > 0 && Reduced(p).d < 0
  {
    ReducedFields(p);
    var r := Reduced(p);
    MulSign(r.n, FieldGcd(p));
    MulSign(r.d, FieldGcd(p));
  }

  /** `rational(-5, 7)` stores `(5, -7)`. */
  lemma ReducedMinusFiveSevenths()
    ensures Reduced(Pair(-5, 7)) == Pair(5, -7)
  {
    assert Gcd(5, 7) == 1;
  }

  /** Reducing again changes nothing exactly when the fields' product is not
      negative; with mixed signs every `reduce` flips both signs back. */
  lemma ReducedTwice(p: Pair)
    requires p.n != 0 || p.d != 0
    ensures Reduced(p).n != 0 || Reduced(p).d != 0
    ensures Reduced(Reduced(p)) == Reduced(p) <==> p.n * p.d >= 0
  {
    ReducedSigns(p);
    ReducedFields(p);
    ReducedOfCoprime(Reduced(p));
    ProductSign(p.n, p.d);
  }

  /** The signs of the reduced fields: both are non-negative exactly when
      the original fields do not have strictly opposite signs. */
  lemma ReducedSigns(p: Pair)
    requires p.n != 0 || p.d != 0
    ensures Reduced(p).n != 0 || Reduced(p).d != 0
    ensures (Reduced(p).n >= 0 && Reduced(p).d >= 0) <==> (p.n >= 0 && p.d >= 0) || (p.n <= 0 && p.d <= 0)
  {
    var r := Reduced(p);
    var c := FieldGcd(p);
    ReducedFields(p);
    MulSign(r.n, c);
    MulSign(r.d, c);
  }

  /** On coprime fields `reduce` only does the sign flip. */
  lemma ReducedOfCoprime(r: Pair)
    requires (r.n != 0 || r.d != 0) && FieldGcd(r) == 1
    ensures Reduced(r) == if r.n < 0 || r.d < 0 then Pair(-r.n, -r.d) else r
  {
    var s := if r.n < 0 || r.d < 0 then Pair(-r.n, -r.d) else r;
    assert FieldGcd(s) == 1;
  }

  lemma ProductSign(x: int, y: int)
    ensures x * y >= 0 <==> (x >= 0 && y >= 0) || (x <= 0 && y <= 0)
  {
    if x > 0 {
      MulSign(y, x);
      assert y * x == x * y;
    } else if x < 0 {
      MulSign(y, -x);
      assert y * (-x) == -(x * y);
    }
  }

  // ---------------------------------------------------------------------
  // operator+ and operator*

  /** The fields `operator+` hands to the two-argument constructor. */
  function SumFields(a: Pair, b: Pair): Pair
  {
    Pair(a.n * b.d + b.n * a.d, a.d * b.d)
  }

  function ProductFields(a: Pair, b: Pair): Pair
  {
    Pair(a.n * b.n, a.d * b.d)
  }

  /** The constructor call in `operator+` keeps clear of gcd(0, 0). */
  predicate AddDefined(a: Pair, b: Pair) {
    SumFields(a, b).n != 0 || SumFields(a, b).d != 0
  }

  predicate MulDefined(a: Pair, b: Pair) {
    ProductFields(a, b).n != 0 || ProductFields(a, b).d != 0
  }

  /** The fields of `a + b`. */
  function AddPairs(a: Pair, b: Pair): Pair
    requires AddDefined(a, b)
  {
    Reduced(SumFields(a, b))
  }

  /** The fields of `a * b`. */
  function MulPairs(a: Pair, b: Pair): Pair
    requires MulDefined(a, b)
  {
    Reduced(ProductFields(a, b))
  }

  lemma NonZeroProduct(x: int, y: int)
    requires x != 0 && y != 0
    ensures x * y != 0
  {
    ProductSign(x, y);
    ProductSign(-x, y);
    assert (-x) * y == -(x * y);
  }

  /** Equal cross products give equal values. */
  lemma CrossValue(a: int, b: int, x: int, y: int)
    requires b != 0 && y != 0 && a * y == x * b
    ensures (a as real) / (b as real) == (x as real) / (y as real)
  {
    assert (a as real) * (y as real) == (x as real) * (b as real);
  }

  /** The unreduced fields of `a + b` stand for the sum. */
  lemma SumValue(a: Pair, b: Pair)
    requires a.d != 0 && b.d != 0
    ensures SumFields(a, b).d != 0 && Value(SumFields(a, b)) == Value(a) + Value(b)
  {
    NonZeroProduct(a.d, b.d);
    SumFieldsReal(a, b);
    SumOfFractions(a.n as real, a.d as real, b.n as real, b.d as real);
  }

  /** The unreduced fields of `a * b` stand for the product. */
  lemma ProductValue(a: Pair, b: Pair)
    requires a.d != 0 && b.d != 0
    ensures ProductFields(a, b).d != 0 && Value(ProductFields(a, b)) == Value(a) * Value(b)
  {
    NonZeroProduct(a.d, b.d);
    RealProduct(a.n, b.n);
    RealProduct(a.d, b.d);
    ProductOfFractions(a.n as real, a.d as real, b.n as real, b.d as real);
  }

  /** Over a non-zero denominator `reduce` keeps the value. */
  lemma ReducedKeepsValue(f: Pair)
    requires f.d != 0
    ensures Reduced(f).d != 0 && Value(Reduced(f)) == Value(f)
  {
    ReducedValue(f);
    CrossValue(Reduced(f).n, Reduced(f).d, f.n, f.d);
  }

  lemma RealProduct(x: int, y: int)
    ensures ((x * y) as real) == (x as real) * (y as real)
  {
  }

  lemma SumFieldsReal(a: Pair, b: Pair)
    ensures (SumFields(a, b).n as real) == (a.n as real) * (b.d as real) + (b.n as real) * (a.d as real)
    ensures (SumFields(a, b).d as real) == (a.d as real) * (b.d as real)
  {
    RealProduct(a.n, b.d);
    RealProduct(b.n, a.d);
    RealProduct(a.d, b.d);
  }

  lemma SumOfFractions(an: real, ad: real, bn: real, bd: real)
    requires ad != 0.0 && bd != 0.0
    ensures (an * bd + bn * ad) / (ad * bd) == an / ad + bn / bd
  {
  }

  lemma ProductOfFractions(an: real, ad: real, bn: real, bd: real)
    requires ad != 0.0 && bd != 0.0
    ensures (an * bn) / (ad * bd) == (an / ad) * (bn / bd)
  {
  }

  /** With non-zero denominators `a + b` is defined, has a non-zero
      denominator and is the sum of the values. */
  lemma AddValue(a: Pair, b: Pair)
    requires a.d != 0 && b.d != 0
    ensures AddDefined(a, b) && AddPairs(a, b).d != 0
    ensures Value(AddPairs(a, b)) == Value(a) + Value(b)
  {
    SumValue(a, b);
    ReducedKeepsValue(SumFields(a, b));
  }

  /** With non-zero denominators `a * b` is defined, has a non-zero
      denominator and is the product of the values. */
  lemma MulValue(a: Pair, b: Pair)
    requires a.d != 0 && b.d != 0
    ensures MulDefined(a, b) && MulPairs(a, b).d != 0
    ensures Value(MulPairs(a, b)) == Value(a) * Value(b)
  {
    ProductValue(a, b);
    ReducedKeepsValue(ProductFields(a, b));
  }

  /** `a + b` and `b + a` have the same fields, and so have `a * b` and
      `b * a`. */
  lemma Commutative(a: Pair, b: Pair)
    ensures AddDefined(a, b) ==> AddDefined(b, a) && AddPairs(a, b) == AddPairs(b, a)
    ensures MulDefined(a, b) ==> MulDefined(b, a) && MulPairs(a, b) == MulPairs(b, a)
  {
    assert SumFields(a, b) == SumFields(b, a);
    assert ProductFields(a, b) == ProductFields(b, a);
  }

  /** The demonstration program: 2/3 + 5/6 prints 3/2 and 2/3 * 5/6 prints
      5/9. */
  lemma TwoThirdsAndFiveSixths()
    ensures Reduced(Pair(2, 3)) == Pair(2, 3) && Reduced(Pair(5, 6)) == Pair(5, 6)
    ensures AddPairs(Pair(2, 3), Pair(5, 6)) == Pair(3, 2)
    ensures MulPairs(Pair(2, 3), Pair(5, 6)) == Pair(5, 9)
  {
    assert SumFields(Pair(2, 3), Pair(5, 6)) == Pair(27, 18);
    assert Gcd(27, 18) == 9;
    assert ProductFields(Pair(2, 3), Pair(5, 6)) == Pair(10, 18);
    assert Gcd(10, 18) == 2;
    assert Gcd(2, 3) == 1 && Gcd(5, 6) == 1;
  }

  // ---------------------------------------------------------------------
  // operator==, __str__, __repr__

  /** `operator==` on the fields: 1 when both agree, 0 otherwise. */
  function PairEquals(a: Pair, b: Pair): int
  {
    if a.n == b.n && a.d == b.d then 1 else 0
  }

  /** The comparison is on the stored fields, not on values: `rational(-1, 2)`
      and `rational(1, -2)` are the same number but compare unequal. */
  lemma EqualityIsOnFields()
    ensures Reduced(Pair(-1, 2)) == Pair(1, -2) && Reduced(Pair(1, -2)) == Pair(-1, 2)
    ensures Value(Reduced(Pair(-1, 2))) == Value(Reduced(Pair(1, -2)))
    ensures PairEquals(Reduced(Pair(-1, 2)), Reduced(Pair(1, -2))) == 0
  {
    assert Gcd(1, 2) == 1;
  }

  /** `operator==` answers 1 exactly for identical fields. */
  lemma PairEqualsIff(a: Pair, b: Pair)
    ensures PairEquals(a, b) == 1 <==> a == b
    ensures PairEquals(a, b) == 0 <==> a != b
  {
  }

  /** `__str__` and `operator<<`: `"<n>/<d>"`. */
  function StrOf(p: Pair): string
  {
    IntToString(p.n) + "/" + IntToString(p.d)
  }

  /** `__repr__` of the `src/` header: `"rational(<n>,<d>)"`. */
  function ReprOf(p: Pair): string
  {
    "rational(" + IntToString(p.n) + "," + IntToString(p.d) + ")"
  }

  /** Reads back two integers separated by `sep`. */
  function ParseTwo(s: string, sep: char): Option<Pair>
  {
    var fs := SplitAll(s, sep);
    if |fs| != 2 then None
    else match (ParseInt(fs[0]), ParseInt(fs[1]))
      case (Some(n), Some(d)) => Some(Pair(n, d))
      case _ => None
  }

  /** Reads back the text `__str__` prints. */
  function ParseStr(s: string): Option<Pair>
  {
    ParseTwo(s, '/')
  }

  /** Reads back the text `__repr__` prints. */
  function ParseRepr(s: string): Option<Pair>
  {
    if |s| >= 10 && s[..9] == "rational(" && s[|s| - 1] == ')' then ParseTwo(s[9..|s| - 1], ',') else None
  }

  lemma ParseTwoOf(n: int, d: int, sep: char)
    requires sep !in IntToString(n) && sep !in IntToString(d)
    ensures ParseTwo(IntToString(n) + [sep] + IntToString(d), sep) == Some(Pair(n, d))
  {
    SplitAllAfterField(IntToString(n), IntToString(d), sep);
    SplitAllNoSep(IntToString(d), sep);
    ParseIntToString(n);
    ParseIntToString(d);
  }

  lemma Framed(a: string, m: string, b: string)
    ensures (a + m + b)[..|a|] == a && (a + m + b)[|a|..|a| + |m|] == m
    ensures |a + m + b| == |a| + |m| + |b|
  {
  }

  /** The printed form determines the fields. */
  lemma ParseStrOf(p: Pair)
    ensures ParseStr(StrOf(p)) == Some(p)
  {
    ParseTwoOf(p.n, p.d, '/');
  }

  /** The `__repr__` text determines the fields too. */
  lemma ParseReprOf(p: Pair)
    ensures ParseRepr(ReprOf(p)) == Some(p)
  {
    var mid := IntToString(p.n) + "," + IntToString(p.d);
    Framed("rational(", mid, ")");
    assert ReprOf(p) == "rational(" + mid + ")";
    ParseTwoOf(p.n, p.d, ',');
  }

  // ---------------------------------------------------------------------
  // the class

  class Rational {
    var n: int
    var d: int

    function Fields(): Pair
      reads this
    {
      Pair(n, d)
    }

    /** `rational()`: zero as 0/1. */
    constructor Zero()
      ensures n == 0 && d == 1
    {
      n := 0;
      d := 1;
    }

    /** `rational(const rational<I> &)`: both fields copied. */
    constructor Copy(r: Rational)
      ensures n == r.n && d == r.d
    {
      n := r.n;
      d := r.d;
    }

    /** `rational(const I &)`: the integer over 1, not reduced. */
    constructor FromInt(n0: int)
      ensures n == n0 && d == 1
    {
      n := n0;
      d := 1;
    }

    /** `rational(const I &, const I &)`: the fields, reduced. */
    constructor (n0: int, d0: int)
      requires n0 != 0 || d0 != 0
      ensures Fields() == Reduced(Pair(n0, d0))
    {
      n := n0;
      d := d0;
      new;
      Reduce();
    }

    /** `reduce()`, in place. */
    method Reduce()
      requires n != 0 || d != 0
      modifies this
      ensures Fields() == Reduced(old(Fields()))
    {
      if n < 0 || d < 0 {
        n := -n;
        d := -d;
      }
      GcdPositive(Abs(n), Abs(d));
      var c := Gcd(Abs(n), Abs(d));
      n := n / c;
      d := d / c;
    }

    /** `operator+`: a new reduced rational. */
    method Plus(y: Rational) returns (r: Rational)
      requires AddDefined(Fields(), y.Fields())
      ensures fresh(r) && r.Fields() == AddPairs(Fields(), y.Fields())
    {
      r := new Rational(n * y.d + y.n * d, d * y.d);
    }

    /** `operator*`: a new reduced rational. */
    method Times(y: Rational) returns (r: Rational)
      requires MulDefined(Fields(), y.Fields())
      ensures fresh(r) && r.Fields() == MulPairs(Fields(), y.Fields())
    {
      r := new Rational(n * y.n, d * y.d);
    }

    /** `operator==`. */
    function Equals(y: Rational): (r: int)
      reads this, y
      ensures r == 1 <==> Fields() == y.Fields()
    {
      PairEquals(Fields(), y.Fields())
    }

    /** `__str__`. */
    function Str(): (s: string)
      reads this
      ensures ParseStr(s) == Some(Fields())
    {
      ParseStrOf(Fields());
      StrOf(Fields())
    }

    /** `__repr__` (of the `src/` header). */
    function Repr(): (s: string)
      reads this
      ensures ParseRepr(s) == Some(Fields())
    {
      ParseReprOf(Fields());
      ReprOf(Fields())
    }
  }

  /** `os << r`: the stream receives what `__str__` returns. */
  function Write(os: string, r: Rational): (out: string)
    reads r
    ensures |out| >= |os| && out[..|os|] == os && ParseStr(out[|os|..]) == Some(r.Fields())
  {
    ParseStrOf(r.Fields());
    os + StrOf(r.Fields())
  }
}
