# GNFS polynomial and factor-base stage, in Dafny

This project models the core of the polynomial stage of a General Number Field Sieve
(GNFS) factoriser, and proves properties of that model. There are two parts:

- **`AlgebraicPolynomial`** (module `Polynomial`). From a target `N`, a base `b` and a
  degree `d` it builds the coefficient array `Terms` by a greedy expansion of `N` in powers
  of `b`. It caches the value at the base (`BaseTotal`) and the derivative at the base
  (`FormalDerivative`). It evaluates exactly at integer points and at rational points. It
  finds the moduli of a list that divide its value at a point (`GetRootsMod`), and renders
  itself as text (`FormatString`).
- **`GNFS`** (module `Core`). `PolynomialModP` is the rule the factor-base builders share:
  take the cross product of residues and primes, keep the pairs `(p, r)` where `EvalMod(r, p)`
  is zero, and stable-sort them by prime. The `GNFS` constructor stores `N`, fixes the prime
  bound at 60, builds the two polynomials, and then builds the three factor bases.

The class follows the C# object. `SetPolynomialValue` fills the `Terms` array in place.
`Evaluate`, `EvaluateRational`, `Derivative` and `FormatString` are methods with loops. Each
loop is proved against a specification function on `Terms[..]`. The properties are then
lemmas about those functions:

- the invariant of the expansion, and `BaseTotal == N`;
- bounds on the coefficients;
- Horner's rule as an independent definition of the value;
- exact rational evaluation agrees with integer evaluation at integer points;
- how the computed derivative relates to the formal derivative;
- the rendered text can be decoded back into the coefficients;
- soundness, completeness, multiplicity, order and stability of `PolynomialModP`.

Where the code departs from the textbook algorithm, the model follows the code:

- **Derivative.** `Derivative` does not compute the power-rule derivative. Its exponent `d1`
  is set once to `Degree - 1` (line 149) and never decremented, so every term is weighted by
  `b^(Degree-1)`. The model computes exactly that (`DerivativeAsWritten`). It proves that this
  equals the formal derivative when the degree is at most 1 or the point is 1. It also proves
  that the two differ for `x + x^2` at 2 (6 against 5).
- **Non-canonical expansion.** A place value other than 1 that equals the remainder leaves
  its coefficient 0 (strict `<` at line 49); a place value of 1 always takes the whole
  remainder (line 45). `ExpansionNotCanonical` shows 4 in base 2 expanding to `[0, 2, 0]`.
- **Coefficient bounds.** For `b > 1` and `N >= 0` the coefficients of degree 1 and above lie
  in `[0, b]` (`CoefficientBounds`); the constant coefficient takes the whole remainder and
  can exceed `b`. The cap at lines 52-55 sits only in the branch for a place value other than
  1, so with base 1 (`ExpansionBaseOne`), or base -1 at an even degree, a coefficient of
  degree 1 or above also receives the whole remainder and can exceed `b`. For the sample
  composite 1062347 in base 31 the expansion is `[108074, 31, 31, 31]` (`ExpansionOfSample`).
- **Degree.** Degrees 0 and -1 are accepted, as the code accepts them.

Integers are unbounded, as `BigInteger` is. `BigInteger.Divide` truncates toward zero, and
the model gives it its own function (`Quot`) instead of using Dafny's Euclidean `/`.
`BigRational` is modelled by Dafny's exact `real`.

Things that are parameters of the model rather than code in it:

- `Irreducible.EvalMod` is a parameter of `PolynomialModP`: `evalModIsZero(r, p)` stands for
  `EvalMod(r, p).IsZero`.
- The `Cyclotomic` polynomial and the rational, algebraic and quadratic factor-base
  builders are parameters of the `GNFS` constructor. Each builder receives a `Stage` value:
  `N`, the prime bound and both finished polynomials.

## Model

| member | source | states |
|---|---|---|
| `Polynomial.AlgebraicPolynomial.constructor` | GNFSCore/Polynomial/AlgebraicPolynomial.cs:21-32 | Terms has Degree + 1 entries and holds the greedy expansion of n; BaseTotal is the value at the base and equals n for a base other than 1 and -1 and degree >= 0; FormalDerivative is the loop's derivative at the base |
| `Polynomial.AlgebraicPolynomial.SetPolynomialValue` | GNFSCore/Polynomial/AlgebraicPolynomial.cs:34-64 | N becomes value; each Terms[i] becomes the expansion coefficient when its step writes it (place value 1, or place value below the remainder), and otherwise keeps its old entry |
| `Polynomial.AlgebraicPolynomial.EvaluateRational` | GNFSCore/Polynomial/AlgebraicPolynomial.cs:106-123 | the result is the exact rational sum of Terms[i] * x^i |
| `Polynomial.AlgebraicPolynomial.Evaluate` | GNFSCore/Polynomial/AlgebraicPolynomial.cs:125-142 | the result is the sum of Terms[i] * x^i over i = 0..Degree |
| `Polynomial.AlgebraicPolynomial.Derivative` | GNFSCore/Polynomial/AlgebraicPolynomial.cs:144-166 | for Degree >= 1 the result is m^(Degree-1) * sum of i * Terms[i]; for Degree <= 0 it is 0 |
| `Polynomial.AlgebraicPolynomial.GetRootsMod` | GNFSCore/Polynomial/AlgebraicPolynomial.cs:192-197 | a modulus is in the result exactly when it is in modList and divides the value at baseM; it occurs as often as in modList; the result keeps modList's order |
| `Polynomial.AlgebraicPolynomial.FormatString` | GNFSCore/Polynomial/AlgebraicPolynomial.cs:204-235 | the text joins one piece per coefficient, highest degree first, with " + "; decoding the text gives back every coefficient |
| `Polynomial.Expansion` | GNFSCore/Polynomial/AlgebraicPolynomial.cs:25-63 | the coefficient array has Degree + 1 entries, and an entry is nonzero only if its step writes it (place value 1, or place value below the remainder); the others keep the zero they started with |
| `Polynomial.RemainderInvariant` | GNFSCore/Polynomial/AlgebraicPolynomial.cs:36-63 | on entry to each step d >= 0, the remainder plus the coefficients already emitted, weighted by their place values, equals N (base not 1 or -1) |
| `Polynomial.ExpansionValue` | GNFSCore/Polynomial/AlgebraicPolynomial.cs:28-30 | BaseTotal == N: the expansion's value at its base is N, for a base other than 1 and -1 and degree >= 0 |
| `Polynomial.ExpansionBaseOne` | GNFSCore/Polynomial/AlgebraicPolynomial.cs:45-48 | with base 1 every place value is 1, so every coefficient receives all of N |
| `Polynomial.RemainderNonNegative` | GNFSCore/Polynomial/AlgebraicPolynomial.cs:49-60 | for base > 1 and N >= 0 the remainder never goes negative |
| `Polynomial.CoefficientBounds` | GNFSCore/Polynomial/AlgebraicPolynomial.cs:45-59 | for base > 1 and N >= 0, each coefficient of degree >= 1 lies in [0, Base], and it is 0 whenever Base^d is not below the remainder at step d |
| `Polynomial.ConstantCoefficient` | GNFSCore/Polynomial/AlgebraicPolynomial.cs:45-48 | the degree-0 coefficient is the whole remaining value, which is non-negative for base > 1 and N >= 0 |
| `Polynomial.ExpansionNotCanonical` | GNFSCore/Polynomial/AlgebraicPolynomial.cs:49 | 4 in base 2 of degree 2 expands to [0, 2, 0], not the base-2 numeral [0, 0, 1] |
| `Polynomial.ExpansionOfSample` | GNFSCore/Polynomial/AlgebraicPolynomial.cs:36-63 | 1062347 in base 31 of degree 3 expands to [108074, 31, 31, 31], whose value at 31 is 1062347 |
| `Polynomial.ValueIsHorner` | GNFSCore/Polynomial/AlgebraicPolynomial.cs:125-142 | the value the evaluation loop specifies equals Horner's rule |
| `Polynomial.RationalAgreesAtInteger` | GNFSCore/Polynomial/AlgebraicPolynomial.cs:106-142 | at an integer point the rational evaluation equals the integer evaluation |
| `Polynomial.DerivativeAgreesUpToDegreeOne` | GNFSCore/Polynomial/AlgebraicPolynomial.cs:144-166 | with at most two coefficients the computed derivative is the formal derivative |
| `Polynomial.DerivativeAgreesAtOne` | GNFSCore/Polynomial/AlgebraicPolynomial.cs:144-166 | at the point 1 the computed derivative is the formal derivative, whatever the degree |
| `Polynomial.DerivativeDiffersFromFormal` | GNFSCore/Polynomial/AlgebraicPolynomial.cs:149-159 | for x + x^2 at 2 the computed derivative is 6, the formal derivative 5 |
| `Polynomial.PieceRoundTrip` | GNFSCore/Polynomial/AlgebraicPolynomial.cs:211-229 | each rendered piece, including the one that omits "1 * ", yields back its coefficient |
| `Polynomial.FormatRoundTrip` | GNFSCore/Polynomial/AlgebraicPolynomial.cs:204-235 | the joined text determines the number of coefficients and each of them |
| `Core.Row` | GNFSCore/Core/GNFS.cs:54-55 | for one residue r, no more entries than primes has elements (one per copy of a prime), and every entry is (p, r) with p among the primes and EvalMod(r, p) zero |
| `Core.Candidates` | GNFSCore/Core/GNFS.cs:53-55 | every entry of the cross product (p, r) has p among the primes, r among the residues and EvalMod(r, p) zero |
| `Core.SortByPrime` | GNFSCore/Core/GNFS.cs:56 | ordering by prime returns the same entries with the same multiplicities |
| `Core.PolynomialModP` | GNFSCore/Core/GNFS.cs:51-57 | every entry returned is (p, r) with p among the primes, r among the residues and EvalMod(r, p) zero |
| `Core.SortByPrimeSortsAndPermutes` | GNFSCore/Core/GNFS.cs:56 | ordering by prime gives a sequence non-decreasing in the prime with the same elements and multiplicities |
| `Core.SortByPrimeStable` | GNFSCore/Core/GNFS.cs:56 | ordering by prime keeps the input order among entries with equal prime |
| `Core.PolynomialModPMultiplicity` | GNFSCore/Core/GNFS.cs:53-56 | (p, r) occurs (copies of p in primes) * (copies of r in integers) times when EvalMod(r, p) is zero, otherwise never |
| `Core.PolynomialModPMembers` | GNFSCore/Core/GNFS.cs:53-55 | (p, r) is in the output exactly when p is in primes, r is in integers and EvalMod(r, p) is zero |
| `Core.PolynomialModPSorted` | GNFSCore/Core/GNFS.cs:56 | the output is non-decreasing by prime |
| `Core.PolynomialModPStable` | GNFSCore/Core/GNFS.cs:53-56 | the entries with prime p come residue by residue in the order of integers, each satisfying residue repeated once per copy of p |
| `Core.GNFS.constructor` | GNFSCore/Core/GNFS.cs:27-49 | N is n, PrimeBound is 60, both polynomials are built (the algebraic one with the expansion's Terms, BaseTotal the value at the base and equal to n for a base other than 1 and -1 and degree >= 0, and FormalDerivative the loop's derivative), and the three factor bases are computed from the finished polynomials |

## Left out

- The commented-out `double` versions of `Evaluate`, `EvaluateMod` and `Derivative`
  (AlgebraicPolynomial.cs:66-104, 168-190): dead floating-point code.
- `ToString` (AlgebraicPolynomial.cs:199-202) only delegates to `FormatString`.
- Lazy `IEnumerable` evaluation: results are finite sequences. In the C# code a zero modulus
  in `GetRootsMod` throws only once the enumeration reaches it; the model requires nonzero
  moduli instead.
- Inputs on which the constructor throws are excluded by its requires: a degree below -1
  makes `Enumerable.Repeat` throw, and `Base == 0` with `N > 0` and a degree above 0 makes
  `BigInteger.Divide` divide by zero. The model does not describe those exceptions.
- `Irreducible`, `Irreducible.EvalMod`, `Cyclotomic` and the `Rational`, `Algebraic` and
  `Quadradic` factory builders are not part of this model. They are function parameters.
  `Irreducible(N, base, degree)` is taken to be an `AlgebraicPolynomial` built from the same
  arguments.
- Culture-specific number formatting: `BigInteger.ToString()` is modelled as plain decimal
  text with a leading `-`.
- 32-bit `int` limits on `Degree`, on the moduli and on the factor-base entries are not
  modelled. `degree + 1` overflowing at `int.MaxValue` is out of reach.
- `Terms` is a public array. Code outside the class could change it after construction and
  leave `BaseTotal` and `FormalDerivative` stale. `Valid()` ties only the array's length to
  `Degree`.
- The C# builders receive the whole `GNFS` object (GNFS.cs:46-48), so the algebraic and
  quadratic builders could read the factor bases assigned before them. The model hands each
  builder only N, the prime bound and the two polynomials, so it does not capture a builder
  that depends on an earlier factor base.
- `RFB`, `AFB` and `QFB` have `internal` setters, so other code could reassign them. Only
  the constructor's assignments are modelled.
- Prime generation and the downstream sieving stages are outside this core.
