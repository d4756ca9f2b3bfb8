/** The algebraic polynomial of the GNFS polynomial stage: a coefficient array built from
    (N, base, degree) by a greedy expansion of N in powers of the base, evaluated at integer
    and rational points, differentiated, searched for moduli that divide its value, and
    rendered as text. */
module Polynomial {
  import opened Sequences
  import opened Text

  // ---------------------------------------------------------------------------------------
  // Integer arithmetic as the C# code performs it (System.Numerics.BigInteger)
  // ---------------------------------------------------------------------------------------

  /** BigInteger.Pow(b, e), with Pow(b, 0) == 1 for every b, 0 included. */
  function Pow(b: int, e: nat): int
    decreases e
  {
    if e == 0 then 1 else b * Pow(b, e - 1)
  }

  function Abs(x: int): nat {
    if x < 0 then -x else x
  }

  /** BigInteger.Divide: the quotient truncated toward zero (not Dafny's Euclidean `/`). */
  function Quot(a: int, b: int): int
    requires b != 0
  {
    var q := Abs(a) / Abs(b);
    if (a < 0) == (b < 0) then q else -q
  }

  lemma {:induction false} PowNonZero(b: int, e: nat)
    requires b != 0
    ensures Pow(b, e) != 0
    decreases e
  {
    if e > 0 {
      PowNonZero(b, e - 1);
    }
  }

  /** For a base of absolute value at least 2 every positive power has absolute value at
      least 2. */
  lemma {:induction false} PowAbsGrows(b: int, e: nat)
    requires Abs(b) >= 2
    ensures Abs(Pow(b, e)) >= 1
    ensures e >= 1 ==> Abs(Pow(b, e)) >= 2
    decreases e
  {
    if e > 0 {
      PowAbsGrows(b, e - 1);
      var p := Pow(b, e - 1);
      AbsMul(b, p);
      MulMonotone(2, Abs(b), Abs(p));
    }
  }

  /** The absolute value of a product is the product of the absolute values. */
  lemma AbsMul(x: int, y: int)
    ensures Abs(x * y) == Abs(x) * Abs(y)
  {
    if x < 0 && y < 0 {
      assert x * y == (-x) * (-y);
    } else if x < 0 {
      assert -(x * y) == (-x) * y;
    } else if y < 0 {
      assert -(x * y) == x * (-y);
    }
  }

  /** Only the place value of degree 0 is 1, unless the base is 1 or -1. */
  lemma PowNotOne(b: int, e: nat)
    requires e >= 1 && b != 1 && b != -1
    ensures Pow(b, e) != 1
  {
    if b != 0 {
      PowAbsGrows(b, e);
    }
  }

  /** Powers of a base greater than 1 are positive and, from degree 1 on, at least the base. */
  lemma {:induction false} PowGrows(b: int, e: nat)
    requires b > 1
    ensures Pow(b, e) >= 1
    ensures e >= 1 ==> Pow(b, e) >= b
    decreases e
  {
    if e > 0 {
      PowGrows(b, e - 1);
      assert b * Pow(b, e - 1) >= b * 1;
    }
  }

  // ---------------------------------------------------------------------------------------
  // The greedy expansion of SetPolynomialValue, step by step
  // ---------------------------------------------------------------------------------------

  /** The divisions of SetPolynomialValue are all by a nonzero place value: Base^d is 0 only
      when Base == 0 and d >= 1, and it is divided by only while the remainder is positive. */
  predicate DivisionSafe(n: int, b: int, degree: int) {
    b != 0 || n <= 0 || degree <= 0
  }

  /** Step `d` assigns Terms[d] exactly when its place value is 1 or below the remainder `t`. */
  predicate Writes(b: int, d: nat, t: int) {
    Pow(b, d) == 1 || Pow(b, d) < t
  }

  /** The value step `d` gives Terms[d] on remainder `t`: all of `t` when the place value is 1,
      the truncated quotient capped at the base when the place value is below `t`, and
      otherwise nothing (the entry keeps its 0). */
  function Digit(b: int, d: nat, t: int): int
    requires Pow(b, d) != 0 || t <= 0
  {
    var placeValue := Pow(b, d);
    if placeValue == 1 then t
    else if placeValue < t then (var q := Quot(t, placeValue); if q > b then b else q)
    else 0
  }

  /** The remainder `toAdd` after step `d`: only the capped-quotient branch subtracts. */
  function NextRemainder(b: int, d: nat, t: int): int
    requires Pow(b, d) != 0 || t <= 0
  {
    var placeValue := Pow(b, d);
    if placeValue != 1 && placeValue < t then t - Digit(b, d, t) * placeValue else t
  }

  /** The remainder `toAdd` on entry to step `d` (d from `degree` down to 0; d == -1 is after
      the loop). */
  function Remainder(n: int, b: int, degree: int, d: int): (t: int)
    requires -1 <= d <= degree && DivisionSafe(n, b, degree)
    ensures b == 0 ==> t == n
    decreases degree - d
  {
    if d == degree then n
    else
      var t := Remainder(n, b, degree, d + 1);
      if b != 0 then PowNonZero(b, d + 1); NextRemainder(b, d + 1, t)
      else NextRemainder(b, d + 1, t)
  }

  /** Whether step `i` writes Terms[i]. */
  predicate Written(n: int, b: int, degree: int, i: int)
    requires 0 <= i <= degree && DivisionSafe(n, b, degree)
  {
    Writes(b, i, Remainder(n, b, degree, i))
  }

  /** Terms[i] after the expansion, for a Terms array that started out zero. */
  function Coefficient(n: int, b: int, degree: int, i: int): int
    requires 0 <= i <= degree && DivisionSafe(n, b, degree)
  {
    var t := Remainder(n, b, degree, i);
    if b != 0 then PowNonZero(b, i); Digit(b, i, t) else Digit(b, i, t)
  }

  /** The coefficient array, index = power, that the constructor builds from (n, b, degree). */
  function Expansion(n: int, b: int, degree: int): (terms: seq<int>)
    requires -1 <= degree && DivisionSafe(n, b, degree)
    ensures |terms| == degree + 1
    ensures forall i :: 0 <= i < |terms| && terms[i] != 0 ==> Written(n, b, degree, i)
  {
    seq(degree + 1, i requires 0 <= i <= degree => Coefficient(n, b, degree, i))
  }

  // ---------------------------------------------------------------------------------------
  // Evaluation: sum of terms[i] * x^i, on integers and on exact rationals (Dafny's real)
  // ---------------------------------------------------------------------------------------

  /** Sum of terms[i] * x^i over lo <= i < |terms|. */
  function Weighted(terms: seq<int>, x: int, lo: nat): int
    decreases |terms| - lo
  {
    if lo >= |terms| then 0 else terms[lo] * Pow(x, lo) + Weighted(terms, x, lo + 1)
  }

  /** The polynomial with coefficients `terms` (index = power) evaluated at `x`. */
  function Value(terms: seq<int>, x: int): int {
    Weighted(terms, x, 0)
  }

  /** Horner's rule, an independent definition of the polynomial's value. */
  function Horner(terms: seq<int>, x: int): int
    decreases |terms|
  {
    if terms == [] then 0 else terms[0] + x * Horner(terms[1..], x)
  }

  /** BigRational.Pow(x, e). */
  function PowReal(x: real, e: nat): real
    decreases e
  {
    if e == 0 then 1.0 else x * PowReal(x, e - 1)
  }

  function WeightedReal(terms: seq<int>, x: real, lo: nat): real
    decreases |terms| - lo
  {
    if lo >= |terms| then 0.0 else (terms[lo] as real) * PowReal(x, lo) + WeightedReal(terms, x, lo + 1)
  }

  /** The polynomial evaluated exactly at a rational point. */
  function ValueReal(terms: seq<int>, x: real): real {
    WeightedReal(terms, x, 0)
  }

  // ---------------------------------------------------------------------------------------
  // Derivative
  // ---------------------------------------------------------------------------------------

  /** Sum of i * terms[i] over lo <= i < |terms|. */
  function IndexSum(terms: seq<int>, lo: nat): int
    decreases |terms| - lo
  {
    if lo >= |terms| then 0 else lo * terms[lo] + IndexSum(terms, lo + 1)
  }

  /** What Derivative computes: the exponent d1 = Degree - 1 is fixed before the loop, so every
      term is weighted by x^(Degree-1), and a polynomial of degree 0 or less gives 0. */
  function DerivativeAsWritten(terms: seq<int>, x: int): int {
    if |terms| >= 2 then Pow(x, |terms| - 2) * IndexSum(terms, 1) else 0
  }

  /** Sum of i * terms[i] * x^(i-1) over max(lo, 1) <= i < |terms|. */
  function DerivativeTerms(terms: seq<int>, x: int, lo: nat): int
    requires lo >= 1
    decreases |terms| - lo
  {
    if lo >= |terms| then 0 else lo * terms[lo] * Pow(x, lo - 1) + DerivativeTerms(terms, x, lo + 1)
  }

  /** The formal (power-rule) derivative evaluated at `x`, the textbook definition. */
  function FormalDerivativeAt(terms: seq<int>, x: int): int {
    DerivativeTerms(terms, x, 1)
  }

  /** `mod` divides `v`: BigInteger's `%` truncates, but whether the remainder is 0 does not
      depend on the rounding, so Dafny's Euclidean `%` decides the same. */
  predicate Divides(mod: int, v: int) {
    mod != 0 && v % mod == 0
  }

  // ---------------------------------------------------------------------------------------
  // Text rendering and its inverse
  // ---------------------------------------------------------------------------------------

  /** The piece FormatString renders for coefficient `c` of `b^k`. */
  function Piece(c: int, b: int, k: nat): string {
    if k > 1 then
      if c == 1 then IntToString(b) + "^" + IntToString(k)
      else IntToString(c) + " * " + IntToString(b) + "^" + IntToString(k)
    else if k == 1 then IntToString(c) + " * " + IntToString(b)
    else IntToString(c)
  }

  /** One piece per coefficient, highest degree first. */
  function Pieces(terms: seq<int>, b: int): (ps: seq<string>)
    ensures |ps| == |terms|
  {
    seq(|terms|, j requires 0 <= j < |terms| => Piece(terms[|terms| - 1 - j], b, |terms| - 1 - j))
  }

  /** Reads the coefficient back from the piece of degree `k`: the whole piece for degree 0,
      else the text before the first space, or 1 when the piece has no " * " part. */
  function PieceCoefficient(piece: string, k: nat): int {
    if k == 0 then ParseInt(piece)
    else
      var j := FirstIndex(piece, ' ');
      if j == |piece| then 1 else ParseInt(piece[..j])
  }

  /** Recovers the coefficient array (index = power) from FormatString's text. */
  function DecodeTerms(s: string): seq<int> {
    if s == "" then []
    else
      var ps := SplitTerms(s);
      seq(|ps|, i requires 0 <= i < |ps| => PieceCoefficient(ps[|ps| - 1 - i], i))
  }

  // ---------------------------------------------------------------------------------------
  // The class
  // ---------------------------------------------------------------------------------------

  class AlgebraicPolynomial {
    var Degree: int
    var N: int
    var Base: int
    var Terms: array<int>
    var BaseTotal: int
    var FormalDerivative: int

    /** Terms holds one coefficient per power 0..Degree. */
    ghost predicate Valid()
      reads this
    {
      -1 <= Degree && Terms.Length == Degree + 1
    }

    /** Zero-filled Terms of Degree + 1 entries, the expansion of `n`, then the cached value
        and derivative at the base. */
    constructor (n: int, polynomialBase: int, degree: int)
      requires -1 <= degree && DivisionSafe(n, polynomialBase, degree)
      ensures Valid() && fresh(Terms)
      ensures Base == polynomialBase && Degree == degree && N == n
      ensures Terms[..] == Expansion(n, polynomialBase, degree)
      ensures BaseTotal == Value(Terms[..], Base)
      ensures FormalDerivative == DerivativeAsWritten(Terms[..], Base)
      ensures polynomialBase != 1 && polynomialBase != -1 && degree >= 0 ==> BaseTotal == n
    {
      Base := polynomialBase;
      Degree := degree;
      Terms := new int[degree + 1](_ => 0);
      N := n;
      new;
      assert forall i :: 0 <= i < Terms.Length ==> Terms[i] == 0;
      SetPolynomialValue(N);
      assert Terms[..] == Expansion(n, polynomialBase, degree);
      BaseTotal := Evaluate(this, Base);
      FormalDerivative := Derivative(this, Base);
      if polynomialBase != 1 && polynomialBase != -1 && degree >= 0 {
        ExpansionValue(n, polynomialBase, degree);
      }
    }

    /** Fills Terms from the highest degree down with the greedy expansion of `value`; an entry
        whose step does not write it keeps what it held. */
    method SetPolynomialValue(value: int)
      requires Valid() && DivisionSafe(value, Base, Degree)
      modifies this`N, Terms
      ensures N == value
      ensures forall i :: 0 <= i < Terms.Length ==>
        Terms[i] == if Written(N, Base, Degree, i) then Coefficient(N, Base, Degree, i) else old(Terms[i])
    {
      N := value;
      var d := Degree;
      var toAdd := N;
      while d >= 0
        invariant -1 <= d <= Degree && N == value
        invariant toAdd == Remainder(N, Base, Degree, d)
        invariant forall i :: d < i <= Degree ==>
          Terms[i] == if Written(N, Base, Degree, i) then Coefficient(N, Base, Degree, i) else old(Terms[i])
        invariant forall i :: 0 <= i <= d ==> Terms[i] == old(Terms[i])
      {
        var placeValue := Pow(Base, d);
        if Base != 0 {
          PowNonZero(Base, d);
        }
        if placeValue == 1 {
          Terms[d] := toAdd;
        } else if placeValue < toAdd {
          var quotient := Quot(toAdd, placeValue);
          if quotient > Base {
            quotient := Base;
          }
          Terms[d] := quotient;
          var toSubtract := quotient * placeValue;
          toAdd := toAdd - toSubtract;
        }
        d := d - 1;
      }
    }

    /** Exact evaluation at a rational point. */
    method EvaluateRational(baseM: real) returns (result: real)
      requires Valid()
      ensures result == ValueReal(Terms[..], baseM)
    {
      result := 0.0;
      var d := Degree;
      while d >= 0
        invariant -1 <= d <= Degree
        invariant result == WeightedReal(Terms[..], baseM, d + 1)
      {
        var placeValue := PowReal(baseM, d);
        var addValue := (Terms[d] as real) * placeValue;
        result := result + addValue;
        d := d - 1;
      }
    }

    /** Evaluation at an integer point. */
    static method Evaluate(polynomial: AlgebraicPolynomial, baseM: int) returns (result: int)
      requires polynomial.Valid()
      ensures result == Value(polynomial.Terms[..], baseM)
    {
      result := 0;
      var d := polynomial.Degree;
      while d >= 0
        invariant -1 <= d <= polynomial.Degree
        invariant result == Weighted(polynomial.Terms[..], baseM, d + 1)
      {
        var placeValue := Pow(baseM, d);
        var addValue := polynomial.Terms[d] * placeValue;
        result := result + addValue;
        d := d - 1;
      }
    }

    /** The derivative as the loop computes it: baseM^(Degree-1) times the sum of
        i * Terms[i] when Degree >= 1, and 0 otherwise. */
    static method Derivative(polynomial: AlgebraicPolynomial, baseM: int) returns (result: int)
      requires polynomial.Valid()
      ensures polynomial.Degree >= 1 ==>
        result == Pow(baseM, polynomial.Degree - 1) * IndexSum(polynomial.Terms[..], 1)
      ensures polynomial.Degree <= 0 ==> result == 0
      ensures result == DerivativeAsWritten(polynomial.Terms[..], baseM)
    {
      result := 0;
      var m := baseM;
      var d := polynomial.Degree;
      var d1 := d - 1;
      ghost var terms := polynomial.Terms[..];
      while d >= 0
        invariant -1 <= d <= polynomial.Degree
        invariant result == if d1 > -1 then Pow(m, d1) * IndexSum(terms, d + 1) else 0
      {
        var placeValue := 0;
        if d1 > -1 {
          placeValue := Pow(m, d1);
        }
        var addValue := (d * placeValue) * polynomial.Terms[d];
        if d1 > -1 {
          calc {
            result + addValue;
            Pow(m, d1) * IndexSum(terms, d + 1) + Pow(m, d1) * (d * terms[d]);
            Pow(m, d1) * (d * terms[d] + IndexSum(terms, d + 1));
          }
        }
        result := result + addValue;
        d := d - 1;
      }
    }

    /** The moduli of `modList`, in their order, that divide the polynomial's value at baseM;
        the value is computed once for the whole list. */
    static function GetRootsMod(polynomial: AlgebraicPolynomial, baseM: int, modList: seq<int>): (r: seq<int>)
      reads polynomial, polynomial.Terms
      requires polynomial.Valid()
      requires forall mod :: mod in modList ==> mod != 0
      ensures forall mod :: mod in r <==> mod in modList && Divides(mod, Value(polynomial.Terms[..], baseM))
      ensures forall mod :: multiset(r)[mod] == if Divides(mod, Value(polynomial.Terms[..], baseM)) then multiset(modList)[mod] else 0
      ensures IsSubsequence(r, modList)
    {
      var polyResult := Value(polynomial.Terms[..], baseM);
      var divides := (mod: int) => Divides(mod, polyResult);
      var r := Filter(modList, divides);
      FilterIsSubsequence(modList, divides);
      assert forall mod :: mod in r <==> mod in modList && divides(mod) by {
        forall mod {
          FilterMembers(modList, divides, mod);
        }
      }
      assert forall mod :: multiset(r)[mod] == if divides(mod) then multiset(modList)[mod] else 0 by {
        forall mod {
          FilterMultiplicity(modList, divides, mod);
        }
      }
      r
    }

    /** The polynomial as text: one piece per coefficient, highest degree first, joined by
        " + "; the text determines the coefficients. */
    static method FormatString(polynomial: AlgebraicPolynomial) returns (s: string)
      ensures s == Join(Pieces(polynomial.Terms[..], polynomial.Base), " + ")
      ensures DecodeTerms(s) == polynomial.Terms[..]
    {
      var stringTerms: seq<string> := [];
      var terms, b := polynomial.Terms, polynomial.Base;
      ghost var all := Pieces(terms[..], b);
      var degree := terms.Length - 1;
      while degree >= 0
        invariant -1 <= degree < terms.Length
        invariant |stringTerms| == terms.Length - 1 - degree
        invariant forall j :: 0 <= j < |stringTerms| ==> stringTerms[j] == all[j]
      {
        var piece;
        if degree > 1 {
          if terms[degree] == 1 {
            piece := IntToString(b) + "^" + IntToString(degree);
          } else {
            piece := IntToString(terms[degree]) + " * " + IntToString(b) + "^" + IntToString(degree);
          }
        } else if degree == 1 {
          piece := IntToString(terms[degree]) + " * " + IntToString(b);
        } else {
          piece := IntToString(terms[degree]);
        }
        assert piece == Piece(terms[..][degree], b, degree);
        stringTerms := stringTerms + [piece];
        degree := degree - 1;
      }
      assert stringTerms == all;
      s := Join(stringTerms, " + ");
      FormatRoundTrip(polynomial.Terms[..], polynomial.Base);
    }
  }

  // ---------------------------------------------------------------------------------------
  // Properties of the expansion
  // ---------------------------------------------------------------------------------------

  /** Each step turns remainder into coefficient without loss: what it subtracts is exactly
      the new coefficient times the place value, unless the place value is 1. */
  lemma StepKeepsTotal(b: int, d: nat, t: int)
    requires Pow(b, d) != 0 || t <= 0
    requires Pow(b, d) != 1
    ensures NextRemainder(b, d, t) + Digit(b, d, t) * Pow(b, d) == t
  {
  }

  /** On entry to every step d >= 0 the remainder plus the coefficients already emitted,
      weighted by their place values, is N (for a base other than 1 and -1, where only the
      place value of degree 0 is 1). */
  lemma {:induction false} RemainderInvariant(n: int, b: int, degree: int, d: int)
    requires 0 <= d <= degree && DivisionSafe(n, b, degree)
    requires b != 1 && b != -1
    ensures Remainder(n, b, degree, d) + Weighted(Expansion(n, b, degree), b, d + 1) == n
    decreases degree - d
  {
    if d == degree {
      assert Weighted(Expansion(n, b, degree), b, d + 1) == 0;
    } else {
      RemainderInvariant(n, b, degree, d + 1);
      RemainderStep(n, b, degree, d);
    }
  }

  /** Step d + 1 moves exactly what it emits from the remainder into the weighted sum. */
  lemma RemainderStep(n: int, b: int, degree: int, d: int)
    requires 0 <= d < degree && DivisionSafe(n, b, degree)
    requires b != 1 && b != -1
    ensures Remainder(n, b, degree, d) + Weighted(Expansion(n, b, degree), b, d + 1) ==
      Remainder(n, b, degree, d + 1) + Weighted(Expansion(n, b, degree), b, d + 2)
  {
    var e := Expansion(n, b, degree);
    var t := Remainder(n, b, degree, d + 1);
    PowNotOne(b, d + 1);
    if b != 0 {
      PowNonZero(b, d + 1);
    }
    StepKeepsTotal(b, d + 1, t);
    var step := Digit(b, d + 1, t) * Pow(b, d + 1);
    assert Remainder(n, b, degree, d) == NextRemainder(b, d + 1, t) == t - step;
    assert e[d + 1] == Digit(b, d + 1, t);
    assert Weighted(e, b, d + 1) == step + Weighted(e, b, d + 2);
  }

  /** BaseTotal == N: the expansion evaluated at its base gives back N, for a base other than
      1 and -1 and a degree of at least 0. */
  lemma ExpansionValue(n: int, b: int, degree: int)
    requires 0 <= degree && DivisionSafe(n, b, degree)
    requires b != 1 && b != -1
    ensures Value(Expansion(n, b, degree), b) == n
  {
    var e := Expansion(n, b, degree);
    RemainderInvariant(n, b, degree, 0);
    assert e[0] == Remainder(n, b, degree, 0);
    assert Value(e, b) == e[0] * Pow(b, 0) + Weighted(e, b, 1);
  }

  /** With base 1 every place value is 1, so every coefficient receives the whole of N. */
  lemma {:induction false} ExpansionBaseOne(n: int, degree: int, i: int)
    requires 0 <= i <= degree
    ensures Remainder(n, 1, degree, i) == n && Expansion(n, 1, degree)[i] == n
    decreases degree - i
  {
    if i < degree {
      ExpansionBaseOne(n, degree, i + 1);
      PowOne(i + 1);
    }
    PowOne(i);
  }

  lemma {:induction false} PowOne(e: nat)
    ensures Pow(1, e) == 1
    decreases e
  {
    if e > 0 {
      PowOne(e - 1);
    }
  }

  /** For base > 1 a step on a remainder t >= 0 leaves a remainder >= 0. */
  lemma NextRemainderNonNegative(b: int, d: nat, t: int)
    requires b > 1 && t >= 0 && Pow(b, d) >= 1
    ensures NextRemainder(b, d, t) >= 0
  {
    var p := Pow(b, d);
    if p != 1 && p < t {
      assert Quot(t, p) == t / p;
      CappedQuotientFits(t, p, b);
    }
  }

  /** Taking at most t / p copies of p out of t >= 0 leaves something non-negative. */
  lemma CappedQuotientFits(t: int, p: int, b: int)
    requires t >= 0 && p >= 1 && b >= 0
    ensures t - (if t / p > b then b else t / p) * p >= 0
  {
    var q := if t / p > b then b else t / p;
    assert 0 <= q <= t / p;
    MulMonotone(q, t / p, p);
    assert (t / p) * p <= t;
  }

  lemma MulMonotone(a: int, b: int, c: int)
    requires a <= b && c >= 0
    ensures a * c <= b * c
  {
  }

  /** For base > 1 and N >= 0 no step drives the remainder negative. */
  lemma {:induction false} RemainderNonNegative(n: int, b: int, degree: int, d: int)
    requires b > 1 && n >= 0 && -1 <= d <= degree
    ensures Remainder(n, b, degree, d) >= 0
    decreases degree - d
  {
    if d < degree {
      RemainderNonNegative(n, b, degree, d + 1);
      PowGrows(b, d + 1);
      NextRemainderNonNegative(b, d + 1, Remainder(n, b, degree, d + 1));
    }
  }

  /** For base > 1 and N >= 0, each coefficient of degree 1 or more lies in [0, Base], and it
      stays 0 whenever its place value is not below the remainder at its step. */
  lemma CoefficientBounds(n: int, b: int, degree: int, d: int)
    requires b > 1 && n >= 0 && 1 <= d <= degree
    ensures 0 <= Expansion(n, b, degree)[d] <= b
    ensures Pow(b, d) >= Remainder(n, b, degree, d) ==> Expansion(n, b, degree)[d] == 0
  {
    RemainderNonNegative(n, b, degree, d);
    PowGrows(b, d);
    var t := Remainder(n, b, degree, d);
    assert Expansion(n, b, degree)[d] == Digit(b, d, t);
    DigitBounds(b, d, t);
  }

  /** One step's value for base > 1, d >= 1 and a non-negative remainder. */
  lemma DigitBounds(b: int, d: nat, t: int)
    requires b > 1 && d >= 1 && t >= 0 && Pow(b, d) >= b
    ensures 0 <= Digit(b, d, t) <= b
    ensures Pow(b, d) >= t ==> Digit(b, d, t) == 0
  {
    var p := Pow(b, d);
    if p < t {
      assert Quot(t, p) == t / p >= 0;
    }
  }

  /** The coefficient of degree 0 receives the whole remaining value, which for base > 1 and
      N >= 0 is not negative (and need not be below the base). */
  lemma ConstantCoefficient(n: int, b: int, degree: int)
    requires b > 1 && n >= 0 && 0 <= degree
    ensures Expansion(n, b, degree)[0] == Remainder(n, b, degree, 0) >= 0
  {
    RemainderNonNegative(n, b, degree, 0);
  }

  /** The expansion is not the canonical base-b numeral: 4 in base 2 of degree 2 is
      0 + 2*2 + 0*4, because at degree 2 the place value 4 is not below 4. */
  lemma ExpansionNotCanonical()
    ensures Expansion(4, 2, 2) == [0, 2, 0]
  {
    assert Pow(2, 2) == 4 && Pow(2, 1) == 2 && Pow(2, 0) == 1;
    assert Remainder(4, 2, 2, 2) == 4;
    assert Remainder(4, 2, 2, 1) == 4;
    assert Remainder(4, 2, 2, 0) == 0;
  }

  /** The sample composite 1062347 in base 31 of degree 3: every quotient is capped at 31,
      so the constant coefficient keeps 108074. */
  lemma ExpansionOfSample()
    ensures Expansion(1062347, 31, 3) == [108074, 31, 31, 31]
    ensures Value(Expansion(1062347, 31, 3), 31) == 1062347
  {
    assert Pow(31, 0) == 1 && Pow(31, 1) == 31 && Pow(31, 2) == 961 && Pow(31, 3) == 29791;
    assert Remainder(1062347, 31, 3, 3) == 1062347;
    assert Remainder(1062347, 31, 3, 2) == 138826;
    assert Remainder(1062347, 31, 3, 1) == 109035;
    assert Remainder(1062347, 31, 3, 0) == 108074;
    ExpansionValue(1062347, 31, 3);
  }

  // ---------------------------------------------------------------------------------------
  // Properties of evaluation
  // ---------------------------------------------------------------------------------------

  /** The sum of the tail from `lo` is x^lo times the Horner value of that tail. */
  lemma {:induction false} WeightedIsHorner(terms: seq<int>, x: int, lo: nat)
    requires lo <= |terms|
    ensures Weighted(terms, x, lo) == Pow(x, lo) * Horner(terms[lo..], x)
    decreases |terms| - lo
  {
    if lo < |terms| {
      WeightedIsHorner(terms, x, lo + 1);
      var h := Horner(terms[lo + 1..], x);
      assert terms[lo..][1..] == terms[lo + 1..];
      assert Horner(terms[lo..], x) == terms[lo] + x * h;
      HornerStep(Pow(x, lo), terms[lo], x, h);
    }
  }

  /** One Horner step, as plain arithmetic: p * (c + x * h) == c * p + (x * p) * h. */
  lemma HornerStep(p: int, c: int, x: int, h: int)
    ensures p * (c + x * h) == c * p + (x * p) * h
  {
    calc {
      p * (c + x * h);
      p * c + p * (x * h);
      c * p + (x * p) * h;
    }
  }

  /** The sum of terms[i] * x^i is what Horner's rule computes. */
  lemma ValueIsHorner(terms: seq<int>, x: int)
    ensures Value(terms, x) == Horner(terms, x)
  {
    WeightedIsHorner(terms, x, 0);
    assert terms[0..] == terms;
  }

  lemma {:induction false} PowRealOfInt(x: int, e: nat)
    ensures PowReal(x as real, e) == Pow(x, e) as real
    decreases e
  {
    if e > 0 {
      PowRealOfInt(x, e - 1);
    }
  }

  lemma {:induction false} WeightedRealOfInt(terms: seq<int>, x: int, lo: nat)
    ensures WeightedReal(terms, x as real, lo) == Weighted(terms, x, lo) as real
    decreases |terms| - lo
  {
    if lo < |terms| {
      WeightedRealOfInt(terms, x, lo + 1);
      PowRealOfInt(x, lo);
    }
  }

  /** At an integer point the exact rational evaluation agrees with the integer one. */
  lemma RationalAgreesAtInteger(terms: seq<int>, x: int)
    ensures ValueReal(terms, x as real) == Value(terms, x) as real
  {
    WeightedRealOfInt(terms, x, 0);
  }

  // ---------------------------------------------------------------------------------------
  // Properties of the derivative
  // ---------------------------------------------------------------------------------------

  /** Up to degree 1 the computed derivative is the formal derivative. */
  lemma DerivativeAgreesUpToDegreeOne(terms: seq<int>, x: int)
    requires |terms| <= 2
    ensures DerivativeAsWritten(terms, x) == FormalDerivativeAt(terms, x)
  {
    if |terms| == 2 {
      assert IndexSum(terms, 1) == terms[1];
      assert DerivativeTerms(terms, x, 1) == terms[1] * Pow(x, 0);
    }
  }

  lemma {:induction false} IndexSumAtOne(terms: seq<int>, lo: nat)
    requires lo >= 1
    ensures IndexSum(terms, lo) == DerivativeTerms(terms, 1, lo)
    decreases |terms| - lo
  {
    if lo < |terms| {
      IndexSumAtOne(terms, lo + 1);
      PowOne(lo - 1);
    }
  }

  /** At the point 1 every power is 1, so the computed derivative is the formal one. */
  lemma DerivativeAgreesAtOne(terms: seq<int>)
    ensures DerivativeAsWritten(terms, 1) == FormalDerivativeAt(terms, 1)
  {
    IndexSumAtOne(terms, 1);
    if |terms| >= 2 {
      PowOne(|terms| - 2);
    }
  }

  /** From degree 2 on the two differ: for 0 + x + x^2 at 2 the loop gives 2^1 * (1 + 2) = 6,
      the formal derivative 1 + 2*2 = 5. */
  lemma DerivativeDiffersFromFormal()
    ensures DerivativeAsWritten([0, 1, 1], 2) == 6
    ensures FormalDerivativeAt([0, 1, 1], 2) == 5
  {
    assert Pow(2, 0) == 1 && Pow(2, 1) == 2;
    assert IndexSum([0, 1, 1], 1) == 3;
    assert DerivativeTerms([0, 1, 1], 2, 1) == 5;
  }

  // ---------------------------------------------------------------------------------------
  // Properties of the text rendering
  // ---------------------------------------------------------------------------------------

  lemma AvoidsConcat(a: string, b: string, c: char)
    requires Avoids(a, c) && Avoids(b, c)
    ensures Avoids(a + b, c)
  {
    forall j | 0 <= j < |a + b|
      ensures (a + b)[j] != c
    {
      if j >= |a| {
        assert (a + b)[j] == b[j - |a|];
      }
    }
  }

  /** Decimal text has neither spaces nor '+'. */
  lemma NumeralAvoids(i: int)
    ensures |IntToString(i)| > 0
    ensures Avoids(IntToString(i), ' ') && Avoids(IntToString(i), '+')
  {
    IntToStringIsNumeral(i);
  }

  /** No piece contains '+', so " + " separates them unambiguously. */
  lemma PieceAvoidsPlus(c: int, b: int, k: nat)
    ensures Avoids(Piece(c, b, k), '+')
  {
    NumeralAvoids(c);
    NumeralAvoids(b);
    NumeralAvoids(k);
    var cs, bs, ks := IntToString(c), IntToString(b), IntToString(k);
    AvoidsConcat(cs, " * ", '+');
    AvoidsConcat(cs + " * ", bs, '+');
    AvoidsConcat(bs, "^", '+');
    AvoidsConcat(bs + "^", ks, '+');
    AvoidsConcat(cs + " * " + bs, "^", '+');
    AvoidsConcat(cs + " * " + bs + "^", ks, '+');
  }

  lemma PieceNonEmpty(c: int, b: int, k: nat)
    ensures |Piece(c, b, k)| > 0
  {
    NumeralAvoids(c);
    NumeralAvoids(b);
  }

  /** Splits off the first of five concatenated strings. */
  lemma Regroup(a: string, b: string, c: string, d: string, e: string)
    ensures a + b + c + d + e == a + (b + c + d + e)
  {
  }

  /** In a numeral followed by text starting with a space, the first space ends the numeral. */
  lemma LeadingNumeral(cs: string, rest: string)
    requires Avoids(cs, ' ') && |rest| > 0 && rest[0] == ' '
    ensures FirstIndex(cs + rest, ' ') == |cs| < |cs + rest|
    ensures (cs + rest)[..|cs|] == cs
  {
    FirstIndexAfter(cs, rest, ' ');
  }

  /** A piece with a written coefficient yields it back. */
  lemma ScaledPieceRoundTrip(c: int, b: int, k: nat)
    requires k == 1 || (k > 1 && c != 1)
    ensures PieceCoefficient(Piece(c, b, k), k) == c
  {
    var cs, bs, ks := IntToString(c), IntToString(b), IntToString(k);
    var rest := if k == 1 then " * " + bs else " * " + bs + "^" + ks;
    if k > 1 {
      Regroup(cs, " * ", bs, "^", ks);
    }
    assert Piece(c, b, k) == cs + rest;
    NumeralAvoids(c);
    LeadingNumeral(cs, rest);
    ParseIntToString(c);
  }

  /** A piece of coefficient 1 omits it, and yields back 1. */
  lemma MonicPieceRoundTrip(b: int, k: nat)
    requires k > 1
    ensures PieceCoefficient(Piece(1, b, k), k) == 1
  {
    var bs, ks := IntToString(b), IntToString(k);
    NumeralAvoids(b);
    NumeralAvoids(k);
    AvoidsConcat(bs, "^", ' ');
    AvoidsConcat(bs + "^", ks, ' ');
    assert FirstIndex(Piece(1, b, k), ' ') == |Piece(1, b, k)|;
  }

  /** Every piece yields back its coefficient. */
  lemma PieceRoundTrip(c: int, b: int, k: nat)
    ensures PieceCoefficient(Piece(c, b, k), k) == c
  {
    if k == 0 {
      ParseIntToString(c);
    } else if k == 1 || c != 1 {
      ScaledPieceRoundTrip(c, b, k);
    } else {
      MonicPieceRoundTrip(b, k);
    }
  }

  /** No piece of a rendered polynomial contains '+'. */
  lemma PiecesAvoidPlus(terms: seq<int>, b: int)
    ensures forall k :: 0 <= k < |Pieces(terms, b)| ==> Avoids(Pieces(terms, b)[k], '+')
  {
    var ps := Pieces(terms, b);
    forall k | 0 <= k < |ps|
      ensures Avoids(ps[k], '+')
    {
      PieceAvoidsPlus(terms[|terms| - 1 - k], b, |terms| - 1 - k);
    }
  }

  /** The piece of degree i sits at position |terms| - 1 - i. */
  lemma PieceAt(terms: seq<int>, b: int, i: nat)
    requires i < |terms|
    ensures Pieces(terms, b)[|terms| - 1 - i] == Piece(terms[i], b, i)
  {
  }

  /** A nonempty list of nonempty pieces joins into nonempty text. */
  lemma JoinNonEmpty(ps: seq<string>, sep: string)
    requires |ps| > 0 && |ps[0]| > 0
    ensures Join(ps, sep) != ""
  {
    if |ps| > 1 {
      assert |Join(ps, sep)| >= |ps[0]|;
    }
  }

  /** The text FormatString produces determines every coefficient and their number. */
  lemma FormatRoundTrip(terms: seq<int>, b: int)
    ensures DecodeTerms(Join(Pieces(terms, b), " + ")) == terms
  {
    var ps := Pieces(terms, b);
    if |terms| > 0 {
      var s := Join(ps, " + ");
      PiecesAvoidPlus(terms, b);
      SplitJoin(ps);
      PieceNonEmpty(terms[|terms| - 1], b, |terms| - 1);
      JoinNonEmpty(ps, " + ");
      var d := DecodeTerms(s);
      assert |d| == |terms|;
      forall i | 0 <= i < |terms|
        ensures d[i] == terms[i]
      {
        PieceAt(terms, b, i);
        PieceRoundTrip(terms[i], b, i);
      }
    } else {
      assert ps == [];
    }
  }
}
