/** Primes: Euclid's lemma and Fermat's little theorem, which justify inversion by exponentiation. */
module Fermat {
  import opened Arith

  ghost predicate Prime(p: int) {
    p > 1 && forall d :: 1 < d < p ==> p % d != 0
  }

  /** A common divisor of `a` and `b` that is a linear combination of them. */
  lemma {:induction false} Bezout(a: nat, b: nat) returns (g: int, x: int, y: int)
    requires a > 0 || b > 0
    ensures g > 0 && Cong(a, 0, g) && Cong(b, 0, g) && a * x + b * y == g
    decreases b
  {
    if b == 0 {
      g, x, y := a, 1, 0;
      CongIntro(a, 0, 1, g);
      CongRefl(0, g);
    } else {
      var q, r := a / b, a % b;
      var x', y';
      g, x', y' := Bezout(b, r);
      assert a == q * b + r;
      CongRefl(q, g);
      CongMul(q, q, b, 0, g);
      CongAdd(q * b, 0, r, 0, g);
      x, y := y', x' - q * y';
      calc {
        a * x + b * y;
        (q * b + r) * y' + b * (x' - q * y');
        q * b * y' + r * y' + b * x' - b * (q * y');
        { assert q * b * y' == b * (q * y'); }
        b * x' + r * y';
      }
    }
  }

  /** A prime that divides a product divides one of the factors. */
  lemma Euclid(p: int, a: int, b: int)
    requires Prime(p) && Cong(a * b, 0, p)
    ensures Cong(a, 0, p) || Cong(b, 0, p)
  {
    var r := a % p;
    CongMod(a, p);
    if r == 0 {
      assert Cong(a, 0, p);
    } else {
      var g, x, y := Bezout(p, r);
      GcdIsOne(p, r, g);
      EuclidStep(p, a, b, r, x, y);
    }
  }

  lemma GcdIsOne(p: int, r: int, g: int)
    requires Prime(p) && 0 < r < p && g > 0 && Cong(p, 0, g) && Cong(r, 0, g)
    ensures g == 1
  {
  }

  lemma EuclidStep(p: int, a: int, b: int, r: int, x: int, y: int)
    requires p > 1 && Cong(a * b, 0, p) && Cong(a, r, p) && p * x + r * y == 1
    ensures Cong(b, 0, p)
  {
    CongSym(a, r, p);
    CongRefl(b, p);
    CongMul(r, a, b, b, p);
    CongTrans(r * b, a * b, 0, p);
    var k := CongElim(r * b, 0, p);
    calc {
      b;
      (p * x + r * y) * b;
      p * (x * b) + (r * b) * y;
      p * (x * b) + (k * p) * y;
      (x * b + k * y) * p;
    }
    CongIntro(b, 0, x * b + k * y, p);
  }

  function Choose(n: nat, k: nat): nat {
    if k == 0 then 1 else if n == 0 then 0 else Choose(n - 1, k - 1) + Choose(n - 1, k)
  }

  lemma {:induction false} ChooseAbove(n: nat, k: nat)
    requires k > n
    ensures Choose(n, k) == 0
  {
    if n > 0 {
      ChooseAbove(n - 1, k - 1);
      ChooseAbove(n - 1, k);
    }
  }

  lemma {:induction false} ChooseAll(n: nat)
    ensures Choose(n, n) == 1
  {
    if n > 0 {
      ChooseAll(n - 1);
      ChooseAbove(n - 1, n);
    }
  }

  lemma {:induction false} ChooseAbsorb(n: nat, k: nat)
    requires n > 0 && k > 0
    ensures k * Choose(n, k) == n * Choose(n - 1, k - 1)
  {
    if n == 1 {
      if k > 1 {
        ChooseAbove(1, k);
        ChooseAbove(0, k - 1);
      }
    } else if k == 1 {
      ChooseOne(n);
    } else {
      ChooseAbsorb(n - 1, k);
      ChooseAbsorb(n - 1, k - 1);
      AbsorbAlgebra(n, k, Choose(n - 2, k - 2), Choose(n - 2, k - 1), Choose(n - 1, k));
    }
  }

  lemma AbsorbAlgebra(n: int, k: int, v: int, w: int, c: int)
    requires k * c == (n - 1) * w && (k - 1) * (v + w) == (n - 1) * v
    ensures k * (v + w + c) == n * (v + w)
  {
  }

  lemma {:induction false} ChooseOne(n: nat)
    ensures Choose(n, 1) == n
  {
    if n > 0 {
      ChooseOne(n - 1);
    }
  }

  /** The first `k` terms of the expansion of `(a + 1)^n`. */
  function Expansion(n: nat, a: int, k: nat): int {
    if k == 0 then 0 else Expansion(n, a, k - 1) + Choose(n, k - 1) * Pow(a, k - 1)
  }

  lemma {:induction false} ExpansionPascal(n: nat, a: int, k: nat)
    requires k > 0
    ensures Expansion(n + 1, a, k) == Expansion(n, a, k) + a * Expansion(n, a, k - 1)
  {
    if k > 1 {
      ExpansionPascal(n, a, k - 1);
      var x, y, q := Choose(n, k - 2), Choose(n, k - 1), Pow(a, k - 2);
      assert Choose(n + 1, k - 1) == x + y;
      PascalTerm(x, y, a, q, Expansion(n, a, k - 2));
    } else {
      assert Expansion(n + 1, a, 1) == Expansion(n + 1, a, 0) + Choose(n + 1, 0) * Pow(a, 0);
      assert Expansion(n, a, 1) == Expansion(n, a, 0) + Choose(n, 0) * Pow(a, 0);
    }
  }

  lemma PascalTerm(x: int, y: int, a: int, q: int, s: int)
    ensures (x + y) * (a * q) == y * (a * q) + a * (x * q)
    ensures a * (s + x * q) == a * s + a * (x * q)
  {
  }

  lemma {:induction false} Binomial(n: nat, a: int)
    ensures Expansion(n, a, n + 1) == Pow(a + 1, n)
  {
    if n == 0 {
      assert Expansion(0, a, 1) == Expansion(0, a, 0) + Choose(0, 0) * Pow(a, 0);
    } else {
      Binomial(n - 1, a);
      ExpansionPascal(n - 1, a, n + 1);
      ChooseAbove(n - 1, n);
      assert Expansion(n - 1, a, n + 1) == Expansion(n - 1, a, n);
      assert (a + 1) * Pow(a + 1, n - 1) == a * Pow(a + 1, n - 1) + Pow(a + 1, n - 1);
    }
  }

  lemma MiddleVanishes(p: int, k: nat)
    requires Prime(p) && 0 < k < p
    ensures Cong(Choose(p, k), 0, p)
  {
    ChooseAbsorb(p, k);
    CongIntro(k * Choose(p, k), 0, Choose(p - 1, k - 1), p);
    Euclid(p, k, Choose(p, k));
    DivUnique(k, 0, k, p);
  }

  lemma {:induction false} ExpansionCong(p: int, a: int, k: nat)
    requires Prime(p) && 1 <= k <= p
    ensures Cong(Expansion(p, a, k), 1, p)
  {
    if k == 1 {
      assert Expansion(p, a, 1) == Expansion(p, a, 0) + Choose(p, 0) * Pow(a, 0);
      CongRefl(1, p);
    } else {
      ExpansionCong(p, a, k - 1);
      MiddleVanishes(p, k - 1);
      CongRefl(Pow(a, k - 1), p);
      CongMul(Choose(p, k - 1), 0, Pow(a, k - 1), Pow(a, k - 1), p);
      CongAdd(Expansion(p, a, k - 1), 1, Choose(p, k - 1) * Pow(a, k - 1), 0, p);
    }
  }

  lemma {:induction false} PowPrime(p: int, a: nat)
    requires Prime(p)
    ensures Cong(Pow(a, p), a, p)
  {
    if a == 0 {
      CongRefl(0, p);
    } else {
      PowPrime(p, a - 1);
      Binomial(p, a - 1);
      ChooseAll(p);
      ExpansionCong(p, a - 1, p);
      CongAdd(Expansion(p, a - 1, p), 1, Pow(a - 1, p), a - 1, p);
    }
  }

  /** Fermat's little theorem. */
  lemma LittleTheorem(p: int, x: nat)
    requires Prime(p) && !Cong(x, 0, p)
    ensures Cong(Pow(x, p - 1), 1, p)
  {
    PowPrime(p, x);
    var k := CongElim(Pow(x, p), x, p);
    assert Pow(x, p) == x * Pow(x, p - 1);
    assert x * (Pow(x, p - 1) - 1) == x * Pow(x, p - 1) - x;
    CongIntro(x * (Pow(x, p - 1) - 1), 0, k, p);
    Euclid(p, x, Pow(x, p - 1) - 1);
  }
}
