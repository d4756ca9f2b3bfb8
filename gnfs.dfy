/** The GNFS context: the target N, the prime bound, the two polynomials and the three factor
    bases, and the rule the factor-base builders share (PolynomialModP). */
module Core {
  import Polynomial

  /** A factor-base entry (prime, residue), the source's Tuple<int, int>. */
  type Entry = (int, int)

  // ---------------------------------------------------------------------------------------
  // PolynomialModP: cross product, filter, stable sort by prime
  // ---------------------------------------------------------------------------------------

  /** For one residue r: primes.Where(p => EvalMod(r, p) is zero).Select(p => (p, r)).
      `evalModIsZero(r, p)` stands for `poly.EvalMod(r, p).IsZero`, whose code is not part of
      this model. */
  function Row(evalModIsZero: (int, int) -> bool, primes: seq<int>, r: int): (row: seq<Entry>)
    ensures |row| <= |primes|
    ensures forall e :: e in row ==> e.0 in primes && e.1 == r && evalModIsZero(r, e.0)
    decreases |primes|
  {
    if primes == [] then []
    else (if evalModIsZero(r, primes[0]) then [(primes[0], r)] else []) + Row(evalModIsZero, primes[1..], r)
  }

  /** integers.SelectMany(r => Row(r)): the rows in the order of the residues. */
  function Candidates(evalModIsZero: (int, int) -> bool, primes: seq<int>, integers: seq<int>): (c: seq<Entry>)
    ensures forall e :: e in c ==> e.0 in primes && e.1 in integers && evalModIsZero(e.1, e.0)
    decreases |integers|
  {
    if integers == [] then []
    else Row(evalModIsZero, primes, integers[0]) + Candidates(evalModIsZero, primes, integers[1..])
  }

  /** Non-decreasing by prime (Item1). */
  ghost predicate SortedByPrime(s: seq<Entry>) {
    forall i, j :: 0 <= i < j < |s| ==> s[i].0 <= s[j].0
  }

  /** Inserts `e` in front of the first entry whose prime is not below e's. */
  function Insert(e: Entry, s: seq<Entry>): seq<Entry>
    decreases |s|
  {
    if s == [] || e.0 <= s[0].0 then [e] + s else [s[0]] + Insert(e, s[1..])
  }

  /** OrderBy(tup => tup.Item1): a stable sort by prime (insertion sort; an entry goes in
      front of the equal-prime entries that came after it in the input). */
  function SortByPrime(s: seq<Entry>): (sorted: seq<Entry>)
    ensures multiset(sorted) == multiset(s)
    decreases |s|
  {
    if s == [] then []
    else
      var rest := SortByPrime(s[1..]);
      InsertMultiset(s[0], rest);
      MultisetHead(s);
      Insert(s[0], rest)
  }

  /** The factor-base rule: every (p, r) with p from `primes`, r from `integers` and
      EvalMod(r, p) zero, ordered by prime. */
  function PolynomialModP(evalModIsZero: (int, int) -> bool, primes: seq<int>, integers: seq<int>): (out: seq<Entry>)
    ensures forall e :: e in out ==> e.0 in primes && e.1 in integers && evalModIsZero(e.1, e.0)
  {
    var c := Candidates(evalModIsZero, primes, integers);
    assert forall e :: e in SortByPrime(c) ==> e in multiset(c);
    SortByPrime(c)
  }

  // ---------------------------------------------------------------------------------------
  // Specification helpers
  // ---------------------------------------------------------------------------------------

  /** The entries of `s` with prime `p`, in their order in `s`. */
  function WithPrime(s: seq<Entry>, p: int): seq<Entry>
    decreases |s|
  {
    if s == [] then [] else (if s[0].0 == p then [s[0]] else []) + WithPrime(s[1..], p)
  }

  lemma WithPrimeCons(e: Entry, s: seq<Entry>, p: int)
    ensures WithPrime([e] + s, p) == (if e.0 == p then [e] else []) + WithPrime(s, p)
  {
    assert ([e] + s)[0] == e && ([e] + s)[1..] == s;
  }

  lemma {:induction false} WithPrimeConcat(a: seq<Entry>, b: seq<Entry>, p: int)
    ensures WithPrime(a + b, p) == WithPrime(a, p) + WithPrime(b, p)
    decreases |a|
  {
    if a != [] {
      var head := if a[0].0 == p then [a[0]] else [];
      assert (a + b)[0] == a[0] && (a + b)[1..] == a[1..] + b;
      WithPrimeConcat(a[1..], b, p);
      calc {
        WithPrime(a + b, p);
        head + WithPrime(a[1..] + b, p);
        head + (WithPrime(a[1..], p) + WithPrime(b, p));
        (head + WithPrime(a[1..], p)) + WithPrime(b, p);
      }
    } else {
      assert a + b == b;
    }
  }

  /** `k` copies of `e`. */
  function Repeat(e: Entry, k: nat): seq<Entry> {
    seq(k, _ => e)
  }

  /** The entries a stable order keeps for prime p: residue by residue in the order of
      `integers`, each satisfying residue repeated once per occurrence of p in the primes. */
  function Column(evalModIsZero: (int, int) -> bool, p: int, k: nat, integers: seq<int>): seq<Entry>
    decreases |integers|
  {
    if integers == [] then []
    else
      var head := if evalModIsZero(integers[0], p) then Repeat((p, integers[0]), k) else [];
      head + Column(evalModIsZero, p, k, integers[1..])
  }

  // ---------------------------------------------------------------------------------------
  // Properties of the sort
  // ---------------------------------------------------------------------------------------

  /** Every entry of `s` has a prime of at least `bound`. */
  ghost predicate PrimesAtLeast(bound: int, s: seq<Entry>) {
    forall k :: 0 <= k < |s| ==> bound <= s[k].0
  }

  lemma SortedCons(x: Entry, s: seq<Entry>)
    requires SortedByPrime(s) && PrimesAtLeast(x.0, s)
    ensures SortedByPrime([x] + s)
  {
    var r := [x] + s;
    forall i, j | 0 <= i < j < |r|
      ensures r[i].0 <= r[j].0
    {
      assert r[j] == s[j - 1];
      if i > 0 {
        assert r[i] == s[i - 1];
      }
    }
  }

  lemma {:induction false} InsertMultiset(e: Entry, s: seq<Entry>)
    ensures multiset(Insert(e, s)) == multiset(s) + multiset{e}
    decreases |s|
  {
    if s != [] && e.0 > s[0].0 {
      InsertMultiset(e, s[1..]);
      assert s == [s[0]] + s[1..];
    }
  }

  lemma {:induction false} InsertPrimesAtLeast(bound: int, e: Entry, s: seq<Entry>)
    requires PrimesAtLeast(bound, s) && bound <= e.0
    ensures PrimesAtLeast(bound, Insert(e, s))
    decreases |s|
  {
    if s != [] && e.0 > s[0].0 {
      assert PrimesAtLeast(bound, s[1..]);
      InsertPrimesAtLeast(bound, e, s[1..]);
      var r := Insert(e, s);
      forall k | 0 <= k < |r|
        ensures bound <= r[k].0
      {
        if k > 0 {
          assert r[k] == Insert(e, s[1..])[k - 1];
        }
      }
    }
  }

  lemma {:induction false} InsertSorted(e: Entry, s: seq<Entry>)
    requires SortedByPrime(s)
    ensures SortedByPrime(Insert(e, s))
    decreases |s|
  {
    if s == [] || e.0 <= s[0].0 {
      SortedCons(e, s);
    } else {
      var tail := s[1..];
      assert SortedByPrime(tail);
      assert PrimesAtLeast(s[0].0, tail) by {
        forall k | 0 <= k < |tail| ensures s[0].0 <= tail[k].0 {
          assert tail[k] == s[k + 1];
        }
      }
      InsertSorted(e, tail);
      InsertPrimesAtLeast(s[0].0, e, tail);
      SortedCons(s[0], Insert(e, tail));
    }
  }

  lemma {:induction false} SortByPrimeSortsAndPermutes(s: seq<Entry>)
    ensures SortedByPrime(SortByPrime(s))
    ensures multiset(SortByPrime(s)) == multiset(s)
    decreases |s|
  {
    if s != [] {
      SortByPrimeSortsAndPermutes(s[1..]);
      InsertSorted(s[0], SortByPrime(s[1..]));
    }
  }

  /** Inserting into a sorted sequence leaves every prime's entries as if `e` had been put in
      front. */
  lemma {:induction false} InsertStable(e: Entry, s: seq<Entry>, p: int)
    requires SortedByPrime(s)
    ensures WithPrime(Insert(e, s), p) == WithPrime([e] + s, p)
    decreases |s|
  {
    if s != [] && e.0 > s[0].0 {
      assert SortedByPrime(s[1..]);
      InsertStable(e, s[1..], p);
      assert s == [s[0]] + s[1..];
      InsertStableStep(e, s[0], s[1..], p);
    }
  }

  /** Passing over an entry of smaller prime: e and that entry never both have prime p. */
  lemma InsertStableStep(e: Entry, head: Entry, tail: seq<Entry>, p: int)
    requires e.0 > head.0
    requires WithPrime(Insert(e, tail), p) == WithPrime([e] + tail, p)
    ensures WithPrime(Insert(e, [head] + tail), p) == WithPrime([e] + ([head] + tail), p)
  {
    var s := [head] + tail;
    assert s[0] == head && s[1..] == tail;
    assert Insert(e, s) == [head] + Insert(e, tail);
    WithPrimeCons(head, Insert(e, tail), p);
    WithPrimeCons(e, tail, p);
    WithPrimeCons(head, tail, p);
    WithPrimeCons(e, s, p);
    if head.0 == p {
      assert WithPrime(Insert(e, s), p) == [head] + WithPrime(tail, p) == WithPrime([e] + s, p);
    } else {
      assert WithPrime(Insert(e, s), p) == WithPrime(Insert(e, tail), p) == WithPrime([e] + s, p);
    }
  }

  /** The sort keeps the input order among entries with equal prime. */
  lemma {:induction false} SortByPrimeStable(s: seq<Entry>, p: int)
    ensures WithPrime(SortByPrime(s), p) == WithPrime(s, p)
    decreases |s|
  {
    if s != [] {
      SortByPrimeStable(s[1..], p);
      SortByPrimeSortsAndPermutes(s[1..]);
      InsertStable(s[0], SortByPrime(s[1..]), p);
      WithPrimeConcat([s[0]], SortByPrime(s[1..]), p);
      WithPrimeConcat([s[0]], s[1..], p);
      assert s == [s[0]] + s[1..];
    }
  }

  // ---------------------------------------------------------------------------------------
  // Properties of the candidates
  // ---------------------------------------------------------------------------------------

  lemma {:induction false} RowMultiplicity(evalModIsZero: (int, int) -> bool, primes: seq<int>, r0: int, p: int, r: int)
    ensures multiset(Row(evalModIsZero, primes, r0))[(p, r)] ==
      if r == r0 && evalModIsZero(r, p) then multiset(primes)[p] else 0
    decreases |primes|
  {
    if primes != [] {
      RowMultiplicity(evalModIsZero, primes[1..], r0, p, r);
      CountConcat(if evalModIsZero(r0, primes[0]) then [(primes[0], r0)] else [], Row(evalModIsZero, primes[1..], r0), (p, r));
      CountHead(primes, p);
    }
  }

  lemma {:induction false} CandidatesMultiplicity(evalModIsZero: (int, int) -> bool, primes: seq<int>, integers: seq<int>, p: int, r: int)
    ensures multiset(Candidates(evalModIsZero, primes, integers))[(p, r)] ==
      if evalModIsZero(r, p) then multiset(primes)[p] * multiset(integers)[r] else 0
    decreases |integers|
  {
    if integers != [] {
      var r0, rest := integers[0], integers[1..];
      var row, others := Row(evalModIsZero, primes, r0), Candidates(evalModIsZero, primes, rest);
      CandidatesMultiplicity(evalModIsZero, primes, rest, p, r);
      RowMultiplicity(evalModIsZero, primes, r0, p, r);
      CountConcat(row, others, (p, r));
      CountHead(integers, r);
      CountStep(evalModIsZero(r, p), r0 == r, multiset(primes)[p], multiset(rest)[r], multiset(integers)[r]);
    }
  }

  /** A nonempty sequence's multiset is its tail's plus its head. */
  lemma MultisetHead(s: seq<Entry>)
    requires s != []
    ensures multiset(s) == multiset(s[1..]) + multiset{s[0]}
  {
    assert s == [s[0]] + s[1..];
  }

  /** Occurrences in a nonempty sequence: the head's, then the tail's. */
  lemma CountHead<T>(s: seq<T>, x: T)
    requires s != []
    ensures multiset(s)[x] == (if s[0] == x then 1 else 0) + multiset(s[1..])[x]
  {
    assert s == [s[0]] + s[1..];
  }

  /** Occurrences in a concatenation add up. */
  lemma CountConcat<T>(a: seq<T>, b: seq<T>, x: T)
    ensures multiset(a + b)[x] == multiset(a)[x] + multiset(b)[x]
  {
  }

  lemma CountStep(hit: bool, same: bool, mp: nat, mi: nat, total: nat)
    requires total == (if same then 1 else 0) + mi
    ensures (if same && hit then mp else 0) + (if hit then mp * mi else 0) == if hit then mp * total else 0
  {
    if hit && same {
      assert mp * (1 + mi) == mp + mp * mi;
    }
  }

  /** The entries with prime p in one residue's row: that residue, once per copy of p among
      the primes, when EvalMod(r, p) is zero. */
  lemma {:induction false} RowWithPrime(evalModIsZero: (int, int) -> bool, primes: seq<int>, r: int, p: int)
    ensures WithPrime(Row(evalModIsZero, primes, r), p) ==
      if evalModIsZero(r, p) then Repeat((p, r), multiset(primes)[p]) else []
    decreases |primes|
  {
    if primes != [] {
      var q, rest := primes[0], primes[1..];
      RowWithPrime(evalModIsZero, rest, r, p);
      assert primes == [q] + rest;
      RowWithPrimeStep(evalModIsZero, q, rest, r, p);
    }
  }

  lemma RowWithPrimeStep(evalModIsZero: (int, int) -> bool, q: int, rest: seq<int>, r: int, p: int)
    requires WithPrime(Row(evalModIsZero, rest, r), p) ==
      if evalModIsZero(r, p) then Repeat((p, r), multiset(rest)[p]) else []
    ensures WithPrime(Row(evalModIsZero, [q] + rest, r), p) ==
      if evalModIsZero(r, p) then Repeat((p, r), multiset([q] + rest)[p]) else []
  {
    var tail, k := Row(evalModIsZero, rest, r), multiset(rest)[p];
    var row := Row(evalModIsZero, [q] + rest, r);
    RowCons(evalModIsZero, q, rest, r);
    CountHead([q] + rest, p);
    assert ([q] + rest)[0] == q && ([q] + rest)[1..] == rest;
    var m := multiset([q] + rest)[p];
    if !evalModIsZero(r, q) {
      assert row == tail;
      assert q == p ==> !evalModIsZero(r, p);
      assert q != p ==> m == k;
    } else if q == p {
      assert row == [(p, r)] + tail;
      WithPrimeCons((p, r), tail, p);
      RepeatCons((p, r), k);
      assert m == k + 1;
    } else {
      assert row == [(q, r)] + tail;
      WithPrimeCons((q, r), tail, p);
      assert m == k;
    }
  }

  /** The row of a residue over a prime put in front of the rest. */
  lemma RowCons(evalModIsZero: (int, int) -> bool, q: int, rest: seq<int>, r: int)
    ensures Row(evalModIsZero, [q] + rest, r) == (if evalModIsZero(r, q) then [(q, r)] else []) + Row(evalModIsZero, rest, r)
  {
    assert ([q] + rest)[0] == q && ([q] + rest)[1..] == rest;
  }

  lemma RepeatCons(e: Entry, k: nat)
    ensures Repeat(e, k + 1) == [e] + Repeat(e, k)
  {
  }

  lemma {:induction false} CandidatesWithPrime(evalModIsZero: (int, int) -> bool, primes: seq<int>, integers: seq<int>, p: int)
    ensures WithPrime(Candidates(evalModIsZero, primes, integers), p) ==
      Column(evalModIsZero, p, multiset(primes)[p], integers)
    decreases |integers|
  {
    if integers != [] {
      CandidatesWithPrime(evalModIsZero, primes, integers[1..], p);
      RowWithPrime(evalModIsZero, primes, integers[0], p);
      WithPrimeConcat(Row(evalModIsZero, primes, integers[0]), Candidates(evalModIsZero, primes, integers[1..]), p);
    }
  }

  /** Every (p, r) combination occurs exactly (occurrences of p in primes) * (occurrences of r
      in integers) times when EvalMod(r, p) is zero, and never otherwise: the output is a
      permutation of the filtered cross product, duplicates included. */
  lemma PolynomialModPMultiplicity(evalModIsZero: (int, int) -> bool, primes: seq<int>, integers: seq<int>, p: int, r: int)
    ensures multiset(PolynomialModP(evalModIsZero, primes, integers))[(p, r)] ==
      if evalModIsZero(r, p) then multiset(primes)[p] * multiset(integers)[r] else 0
  {
    SortByPrimeSortsAndPermutes(Candidates(evalModIsZero, primes, integers));
    CandidatesMultiplicity(evalModIsZero, primes, integers, p, r);
  }

  /** Soundness and completeness: (p, r) is in the output exactly when p is one of the primes,
      r one of the residues, and EvalMod(r, p) is zero. */
  lemma PolynomialModPMembers(evalModIsZero: (int, int) -> bool, primes: seq<int>, integers: seq<int>, p: int, r: int)
    ensures (p, r) in PolynomialModP(evalModIsZero, primes, integers) <==>
      p in primes && r in integers && evalModIsZero(r, p)
  {
    PolynomialModPMultiplicity(evalModIsZero, primes, integers, p, r);
    var mp, mi := multiset(primes)[p], multiset(integers)[r];
    if mp > 0 && mi > 0 {
      assert mp * mi > 0;
    }
  }

  /** The output is non-decreasing by prime. */
  lemma PolynomialModPSorted(evalModIsZero: (int, int) -> bool, primes: seq<int>, integers: seq<int>)
    ensures SortedByPrime(PolynomialModP(evalModIsZero, primes, integers))
  {
    SortByPrimeSortsAndPermutes(Candidates(evalModIsZero, primes, integers));
  }

  /** Stability: the entries with prime p come residue by residue in the order of `integers`. */
  lemma PolynomialModPStable(evalModIsZero: (int, int) -> bool, primes: seq<int>, integers: seq<int>, p: int)
    ensures WithPrime(PolynomialModP(evalModIsZero, primes, integers), p) ==
      Column(evalModIsZero, p, multiset(primes)[p], integers)
  {
    SortByPrimeStable(Candidates(evalModIsZero, primes, integers), p);
    CandidatesWithPrime(evalModIsZero, primes, integers, p);
  }

  // ---------------------------------------------------------------------------------------
  // The aggregate context
  // ---------------------------------------------------------------------------------------

  /** What a factor-base builder reads of the GNFS object once both polynomials exist. */
  datatype Stage<C> = Stage(n: int, primeBound: int, rationalPolynomial: C,
                            algebraicBase: int, algebraicTerms: seq<int>)

  /** `C` is the rational-side (cyclotomic) polynomial, whose code is not part of this model;
      `cyclotomic` builds it from N, and the three builders compute the factor bases. */
  class GNFS<C> {
    var N: int
    var PrimeBound: int
    var RationalPolynomial: C
    var AlgebraicPolynomial: Polynomial.AlgebraicPolynomial
    var RFB: seq<Entry>
    var AFB: seq<Entry>
    var QFB: seq<Entry>

    /** Stores N, fixes the prime bound at 60, builds both polynomials, and only then the
        rational, algebraic and quadratic factor bases from them. */
    constructor (n: int, polynomialBase: int, degree: int,
                 cyclotomic: int -> C,
                 buildRational: Stage<C> -> seq<Entry>,
                 buildAlgebraic: Stage<C> -> seq<Entry>,
                 buildQuadratic: Stage<C> -> seq<Entry>)
      requires -1 <= degree && Polynomial.DivisionSafe(n, polynomialBase, degree)
      ensures N == n && PrimeBound == 60
      ensures RationalPolynomial == cyclotomic(n)
      ensures fresh(AlgebraicPolynomial) && fresh(AlgebraicPolynomial.Terms)
      ensures AlgebraicPolynomial.Valid()
      ensures AlgebraicPolynomial.N == n && AlgebraicPolynomial.Base == polynomialBase
      ensures AlgebraicPolynomial.Degree == degree
      ensures AlgebraicPolynomial.Terms[..] == Polynomial.Expansion(n, polynomialBase, degree)
      ensures AlgebraicPolynomial.BaseTotal == Polynomial.Value(AlgebraicPolynomial.Terms[..], polynomialBase)
      ensures AlgebraicPolynomial.FormalDerivative == Polynomial.DerivativeAsWritten(AlgebraicPolynomial.Terms[..], polynomialBase)
      ensures polynomialBase != 1 && polynomialBase != -1 && degree >= 0 ==> AlgebraicPolynomial.BaseTotal == n
      ensures var built := Stage(n, 60, cyclotomic(n), polynomialBase, Polynomial.Expansion(n, polynomialBase, degree));
        RFB == buildRational(built) && AFB == buildAlgebraic(built) && QFB == buildQuadratic(built)
    {
      N := n;
      PrimeBound := 60;
      // ConstructPolynomial
      var rational := cyclotomic(n);
      var algebraic := new Polynomial.AlgebraicPolynomial(n, polynomialBase, degree);
      RationalPolynomial := rational;
      AlgebraicPolynomial := algebraic;
      // ConstructFactorBase
      var built := Stage(n, 60, rational, algebraic.Base, algebraic.Terms[..]);
      RFB := buildRational(built);
      AFB := buildAlgebraic(built);
      QFB := buildQuadratic(built);
    }
  }
}
