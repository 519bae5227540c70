/** Products and quotients of two variables, defined by recursion so that the solver meets no
    nonlinear arithmetic where it is not needed. */
module Division {

  /** `a * b`, by repeated addition. */
  function Times(a: nat, b: nat): nat {
    if a == 0 then 0 else b + Times(a - 1, b)
  }

  lemma {:induction false} TimesIsProduct(a: nat, b: nat)
    ensures Times(a, b) == a * b
  {
    if a > 0 {
      TimesIsProduct(a - 1, b);
    }
  }

  lemma TimesSplits(a: nat, b: nat, c: nat)
    ensures Times(a + b, c) == Times(a, c) + Times(b, c)
  {
    TimesIsProduct(a + b, c);
    TimesIsProduct(a, c);
    TimesIsProduct(b, c);
  }

  lemma TimesAtLeast(a: nat, b: nat)
    requires a > 0
    ensures Times(a, b) >= b
  {
  }

  lemma OneMoreFits(i: nat, n: nat, size: nat)
    requires i < n
    ensures Times(i + 1, size) == Times(i, size) + size <= Times(n, size)
  {
    TimesSplits(i + 1, n - i - 1, size);
  }

  method Multiply(a: nat, b: nat) returns (p: nat)
    ensures p == Times(a, b)
  {
    TimesIsProduct(a, b);
    p := a * b;
  }

  lemma {:induction false} TimesTwice(a: nat, b: nat, c: nat)
    ensures Times(a, Times(b, c)) == Times(Times(a, b), c)
  {
    if a > 0 {
      TimesTwice(a - 1, b, c);
      TimesSplits(b, Times(a - 1, b), c);
    }
  }

  /** `x / b`, by repeated subtraction. */
  function Quotient(x: nat, b: nat): nat
    requires b > 0
  {
    if x < b then 0 else 1 + Quotient(x - b, b)
  }

  /** `x % b`. */
  function Remainder(x: nat, b: nat): (r: nat)
    requires b > 0
    ensures r < b
  {
    if x < b then x else Remainder(x - b, b)
  }

  lemma MulAtLeast(b: int, z: int)
    requires b > 0
    ensures z >= 1 ==> b * z >= b
    ensures z <= -1 ==> b * z <= -b
  {
  }

  lemma DivisionIsUnique(b: int, q: int, r: int, q': int, r': int)
    requires 0 <= r < b && 0 <= r' < b && b * q + r == b * q' + r'
    ensures q == q' && r == r'
  {
    MulAtLeast(b, q - q');
    assert b * (q - q') == b * q - b * q';
  }

  lemma {:induction false} QuotientSplits(x: nat, b: nat)
    requires b > 0
    ensures x == b * Quotient(x, b) + Remainder(x, b)
  {
    if x >= b {
      QuotientSplits(x - b, b);
    }
  }

  lemma QuotientIsDivision(x: nat, b: nat)
    requires b > 0
    ensures x / b == Quotient(x, b) && x % b == Remainder(x, b)
  {
    QuotientSplits(x, b);
    DivisionIsUnique(b, x / b, x % b, Quotient(x, b), Remainder(x, b));
  }

  lemma QuotientOf(x: nat, b: nat, q: nat, r: nat)
    requires r < b && x == Times(q, b) + r
    ensures Quotient(x, b) == q && Remainder(x, b) == r
  {
    TimesIsProduct(q, b);
    QuotientSplits(x, b);
    DivisionIsUnique(b, q, r, Quotient(x, b), Remainder(x, b));
  }

  /** `x` is so many whole `b`s and a remainder. */
  lemma QuotientTimes(x: nat, b: nat)
    requires b > 0
    ensures x == Times(Quotient(x, b), b) + Remainder(x, b)
  {
    QuotientSplits(x, b);
    TimesIsProduct(Quotient(x, b), b);
  }

  method Divide(x: nat, b: nat) returns (q: nat, r: nat)
    requires b > 0
    ensures q == Quotient(x, b) && r == Remainder(x, b)
  {
    QuotientIsDivision(x, b);
    q, r := x / b, x % b;
  }

  // ---------------------------------------------------------------- sequences cut into blocks

  function Concat<T>(xs: seq<seq<T>>): seq<T> {
    if xs == [] then [] else xs[0] + Concat(xs[1..])
  }

  ghost predicate AllOf<T>(xs: seq<seq<T>>, b: nat) {
    forall i | 0 <= i < |xs| :: |xs[i]| == b
  }

  lemma {:induction false} ConcatLength<T>(xs: seq<seq<T>>, b: nat)
    requires AllOf(xs, b)
    ensures |Concat(xs)| == Times(|xs|, b)
  {
    if xs != [] {
      ConcatLength(xs[1..], b);
    }
  }

  /** Dropping the bytes of `k` blocks drops `k` blocks. */
  lemma {:induction false} ConcatDrops<T>(xs: seq<seq<T>>, b: nat, k: nat)
    requires AllOf(xs, b) && k <= |xs|
    ensures Times(k, b) <= |Concat(xs)| && Concat(xs)[Times(k, b)..] == Concat(xs[k..])
  {
    if k == 0 {
      assert xs[0..] == xs;
    } else {
      ConcatDrops(xs[1..], b, k - 1);
      assert xs[1..][k - 1..] == xs[k..];
    }
  }

  /** What a concatenation starts with: part of the first block, or all of it and part of the rest. */
  lemma ConcatPrefix<T>(xs: seq<seq<T>>, n: nat)
    requires xs != [] && n <= |Concat(xs)|
    ensures n <= |xs[0]| ==> Concat(xs)[..n] == xs[0][..n]
    ensures n >= |xs[0]| ==> n - |xs[0]| <= |Concat(xs[1..])|
    ensures n >= |xs[0]| ==> Concat(xs)[..n] == xs[0] + Concat(xs[1..])[..n - |xs[0]|]
  {
  }
}
