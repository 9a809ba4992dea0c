/**
 * Finite sums of reals for the particle engines: linearity, sums that differ in one term, and
 * double sums that cancel.
 */
module Sums {

  /** A product under a name of its own, so that proofs about sums of products can treat it as one term. */
  function Times(a: real, b: real): real { a * b }

  lemma TimesLaws(a: real, b: real, c: real)
    ensures Times(a, b + c) == Times(a, b) + Times(a, c)
    ensures Times(a, -b) == -Times(a, b) && Times(-a, b) == -Times(a, b)
    ensures Times(a, b) == Times(b, a) && Times(a, 0.0) == 0.0 && Times(-1.0, b) == -b
  {
  }

  lemma TimesPositive(a: real, b: real)
    requires a > 0.0 && b > 0.0
    ensures Times(a, b) > 0.0
  {
  }

  lemma SquareNotNegative(a: real)
    ensures Times(a, a) >= 0.0 && Times(-a, -a) == Times(a, a)
  {
    if a > 0.0 {
      TimesPositive(a, a);
    } else if a < 0.0 {
      TimesPositive(-a, -a);
    }
    TimesLaws(a, -a, 0.0);
    TimesLaws(-a, a, 0.0);
    TimesLaws(a, a, 0.0);
  }

  /** f(0) + ... + f(n - 1). */
  ghost function Sum(n: nat, f: nat -> real): real
  {
    if n == 0 then 0.0 else Sum(n - 1, f) + f(n - 1)
  }

  lemma {:induction false} SumEqual(n: nat, f: nat -> real, g: nat -> real)
    requires forall i: nat :: i < n ==> f(i) == g(i)
    ensures Sum(n, f) == Sum(n, g)
  {
    if n > 0 {
      SumEqual(n - 1, f, g);
    }
  }

  lemma {:induction false} SumZero(n: nat, f: nat -> real)
    requires forall i: nat :: i < n ==> f(i) == 0.0
    ensures Sum(n, f) == 0.0
  {
    if n > 0 {
      SumZero(n - 1, f);
    }
  }

  lemma {:induction false} SumAdds(n: nat, f: nat -> real, g: nat -> real, h: nat -> real)
    requires forall i: nat :: i < n ==> h(i) == f(i) + g(i)
    ensures Sum(n, h) == Sum(n, f) + Sum(n, g)
  {
    if n > 0 {
      SumAdds(n - 1, f, g, h);
    }
  }

  lemma {:induction false} SumScales(n: nat, c: real, f: nat -> real, g: nat -> real)
    requires forall i: nat :: i < n ==> g(i) == Times(c, f(i))
    ensures Sum(n, g) == Times(c, Sum(n, f))
  {
    if n > 0 {
      SumScales(n - 1, c, f, g);
      TimesLaws(c, Sum(n - 1, f), f(n - 1));
    }
  }

  /** Two sums that differ in term k only. */
  lemma {:induction false} SumChanges(n: nat, k: nat, f: nat -> real, g: nat -> real)
    requires k < n && forall i: nat :: i < n && i != k ==> f(i) == g(i)
    ensures Sum(n, g) == Sum(n, f) - f(k) + g(k)
  {
    if k == n - 1 {
      SumEqual(n - 1, f, g);
    } else {
      SumChanges(n - 1, k, f, g);
    }
  }

  /** The double sum over an m by n block. */
  ghost function Block(m: nat, n: nat, f: (nat, nat) -> real): real
  {
    Sum(m, (i: nat) => Sum(n, (j: nat) => f(i, j)))
  }

  lemma {:induction false} BlockGrows(m: nat, n: nat, f: (nat, nat) -> real)
    ensures Block(m, n + 1, f) == Block(m, n, f) + Sum(m, (i: nat) => f(i, n))
  {
    SumAdds(m, (i: nat) => Sum(n, (j: nat) => f(i, j)), (i: nat) => f(i, n),
            (i: nat) => Sum(n + 1, (j: nat) => f(i, j)));
  }

  /** Whatever i gives j, j gives back to i: the double sum vanishes. */
  lemma {:induction false} AntisymmetricSum(n: nat, f: (nat, nat) -> real)
    requires forall i: nat, j: nat :: i < n && j < n ==> f(i, j) == -f(j, i)
    ensures Block(n, n, f) == 0.0
  {
    if n > 0 {
      AntisymmetricSum(n - 1, f);
      BlockGrows(n, n - 1, f);
      assert Block(n, n - 1, f) == Block(n - 1, n - 1, f) + Sum(n - 1, (j: nat) => f(n - 1, j));
      var row, column := (j: nat) => f(n - 1, j), (i: nat) => f(i, n - 1);
      forall i: nat | i < n - 1 ensures column(i) == Times(-1.0, row(i)) {
        TimesLaws(-1.0, row(i), 0.0);
      }
      SumScales(n - 1, -1.0, row, column);
      TimesLaws(-1.0, Sum(n - 1, row), 0.0);
      assert Sum(n, column) == Sum(n - 1, column) + f(n - 1, n - 1);
    }
  }
}
