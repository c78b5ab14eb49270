/**
 * The group law of y^2 = x^3 + a*x + b over a prime field, as section 2.2.1 of SEC 1 states it,
 * with (0, 0) standing for the point at infinity.
 */
module CurveLaw {
  import opened Arith
  import opened Fermat

  datatype Pt = Pt(x: int, y: int)

  const INFINITY := Pt(0, 0)

  /** The curve: an odd prime, the coefficient `a`, and a constant term that is not zero modulo it. */
  datatype Params = Params(p: int, a: int, b: int) {
    ghost predicate Valid() {
      Prime(p) && p > 2 && !Cong(b, 0, p)
    }
  }

  function Cubic(x: int, c: Params): int {
    x * x * x + c.a * x + c.b
  }

  predicate OnCurve(P: Pt, c: Params)
    requires c.p > 0
  {
    Cong(P.y * P.y, Cubic(P.x, c), c.p)
  }

  /** A reduced point of the curve, or infinity. */
  predicate Point(P: Pt, c: Params)
    requires c.p > 0
  {
    && 0 <= P.x < c.p && 0 <= P.y < c.p
    && (P == INFINITY || OnCurve(P, c))
  }

  /** `R` is the third intersection of the line of slope `s` through `P` and `Q`, mirrored. */
  predicate MirroredThird(P: Pt, Q: Pt, R: Pt, s: int, p: int)
    requires p > 0
  {
    Cong(R.x, s * s - P.x - Q.x, p) && Cong(R.y, s * (P.x - R.x) - P.y, p)
  }

  predicate IsChord(P: Pt, Q: Pt, s: int, p: int)
    requires p > 0
  {
    Cong(s * (Q.x - P.x), Q.y - P.y, p)
  }

  predicate IsTangent(P: Pt, s: int, c: Params)
    requires c.p > 0
  {
    Cong(s * (2 * P.y), 3 * P.x * P.x + c.a, c.p)
  }

  /** The five addition rules. */
  ghost predicate Sum(P: Pt, Q: Pt, R: Pt, c: Params)
    requires c.p > 0
  {
    if P == INFINITY then R == Q
    else if Q == INFINITY then R == P
    else if P.x == Q.x && Cong(P.y + Q.y, 0, c.p) then R == INFINITY
    else if P.x == Q.x then exists s :: IsTangent(P, s, c) && MirroredThird(P, Q, R, s, c.p)
    else exists s :: IsChord(P, Q, s, c.p) && MirroredThird(P, Q, R, s, c.p)
  }

  // ---------------------------------------------------------------- closure

  /** The cubic minus the squared line, at a value `u`, when the squared slope is `u + v + w`. */
  lemma LineMeetsCubic(u: int, v: int, w: int, s: int, k: int, a: int, b: int)
    requires s * s == u + v + w
    ensures u * u * u + a * u + b - (s * u + k) * (s * u + k)
         == (a - 2 * s * k - (u * v + u * w + v * w)) * u + (b - k * k + u * v * w)
  {
  }

  /** The linear remainder `A * x + B` of cubic minus squared line, modulo the three roots. */
  function RemA(c: Params, s: int, k: int, u: int, v: int, w: int): int {
    c.a - 2 * s * k - (u * v + u * w + v * w)
  }

  function RemB(c: Params, k: int, u: int, v: int, w: int): int {
    c.b - k * k + u * v * w
  }

  /** Cubic minus squared line, at each of the three abscissas. */
  lemma AtRoots(c: Params, s: int, k: int, u: int, v: int, w: int)
    requires s * s == u + v + w
    ensures Cubic(u, c) - (s * u + k) * (s * u + k) == RemA(c, s, k, u, v, w) * u + RemB(c, k, u, v, w)
    ensures Cubic(v, c) - (s * v + k) * (s * v + k) == RemA(c, s, k, u, v, w) * v + RemB(c, k, u, v, w)
    ensures Cubic(w, c) - (s * w + k) * (s * w + k) == RemA(c, s, k, u, v, w) * w + RemB(c, k, u, v, w)
  {
    LineMeetsCubic(u, v, w, s, k, c.a, c.b);
    LineMeetsCubic(v, u, w, s, k, c.a, c.b);
    LineMeetsCubic(w, u, v, s, k, c.a, c.b);
    Symmetric(u, v, w);
  }

  lemma Symmetric(u: int, v: int, w: int)
    ensures u * v + u * w + v * w == v * u + v * w + u * w == w * u + w * v + u * v
    ensures u * v * w == v * u * w == w * u * v
  {
  }

  /** If the remainder's slope vanishes modulo `p` and one root lies on both curves, so does the third. */
  lemma ThirdRoot(c: Params, s: int, k: int, u: int, v: int, w: int)
    requires c.p > 0 && s * s == u + v + w
    requires Cong(RemA(c, s, k, u, v, w), 0, c.p)
    requires Cong((s * u + k) * (s * u + k), Cubic(u, c), c.p)
    ensures Cong((s * w + k) * (s * w + k), Cubic(w, c), c.p)
  {
    var A, B, p := RemA(c, s, k, u, v, w), RemB(c, k, u, v, w), c.p;
    AtRoots(c, s, k, u, v, w);
    CongSym((s * u + k) * (s * u + k), Cubic(u, c), p);
    assert Cong(A * u + B, 0, p);
    CongRefl(w - u, p);
    CongMul(A, 0, w - u, w - u, p);
    CongAdd(A * u + B, 0, A * (w - u), 0, p);
    assert A * u + B + A * (w - u) == A * w + B;
    assert Cong(Cubic(w, c), (s * w + k) * (s * w + k), p);
    CongSym(Cubic(w, c), (s * w + k) * (s * w + k), p);
  }

  /** Two different roots force the remainder's slope to vanish. */
  lemma ChordSlope(c: Params, s: int, k: int, u: int, v: int, w: int)
    requires c.Valid() && s * s == u + v + w && !Cong(u - v, 0, c.p)
    requires Cong((s * u + k) * (s * u + k), Cubic(u, c), c.p)
    requires Cong((s * v + k) * (s * v + k), Cubic(v, c), c.p)
    ensures Cong(RemA(c, s, k, u, v, w), 0, c.p)
  {
    var A, B, p := RemA(c, s, k, u, v, w), RemB(c, k, u, v, w), c.p;
    AtRoots(c, s, k, u, v, w);
    CongSym((s * u + k) * (s * u + k), Cubic(u, c), p);
    CongSym((s * v + k) * (s * v + k), Cubic(v, c), p);
    assert Cong(A * u + B, 0, p) && Cong(A * v + B, 0, p);
    CongAdd(A * u + B, 0, A * v + B, 0, p);
    assert A * u + B - (A * v + B) == A * (u - v);
    Euclid(p, A, u - v);
  }

  /** At a double root the remainder's slope is the difference of the derivatives. */
  lemma TangentSlope(c: Params, s: int, k: int, u: int, w: int)
    requires c.p > 0 && s * s == u + u + w && Cong(s * (2 * (s * u + k)), 3 * u * u + c.a, c.p)
    ensures Cong(RemA(c, s, k, u, u, w), 0, c.p)
  {
    var y := s * u + k;
    CongSym(s * (2 * y), 3 * u * u + c.a, c.p);
    calc {
      3 * u * u + c.a - s * (2 * y);
      { assert s * (2 * y) == 2 * (s * s) * u + 2 * s * k; }
      3 * u * u + c.a - 2 * (u + u + w) * u - 2 * s * k;
      c.a - 2 * s * k - (u * u + u * w + u * w);
    }
  }

  lemma CubicCong(x: int, y: int, c: Params)
    requires c.p > 0 && Cong(x, y, c.p)
    ensures Cong(Cubic(x, c), Cubic(y, c), c.p)
  {
    var p := c.p;
    CongMul(x, y, x, y, p);
    CongMul(x * x, y * y, x, y, p);
    CongRefl(c.a, p);
    CongMul(c.a, c.a, x, y, p);
    CongAdd(x * x * x, y * y * y, c.a * x, c.a * y, p);
    CongRefl(c.b, p);
    CongAdd(x * x * x + c.a * x, y * y * y + c.a * y, c.b, c.b, p);
  }

  /** A point whose ordinate is the negated line value at the third root lies on the curve. */
  lemma MirrorOnCurve(P: Pt, Q: Pt, R: Pt, s: int, k: int, w: int, c: Params)
    requires c.p > 0 && k == P.y - s * P.x && w == s * s - P.x - Q.x
    requires MirroredThird(P, Q, R, s, c.p)
    requires Cong((s * w + k) * (s * w + k), Cubic(w, c), c.p)
    ensures OnCurve(R, c)
  {
    var p, l := c.p, s * w + k;
    CongRefl(P.x, p);
    CongAdd(P.x, P.x, R.x, w, p);
    CongRefl(s, p);
    CongMul(s, s, P.x - R.x, P.x - w, p);
    CongRefl(P.y, p);
    CongAdd(s * (P.x - R.x), s * (P.x - w), P.y, P.y, p);
    CongTrans(R.y, s * (P.x - R.x) - P.y, s * (P.x - w) - P.y, p);
    assert s * (P.x - w) - P.y == -l;
    CongMul(R.y, -l, R.y, -l, p);
    assert -l * -l == l * l;
    CongTrans(R.y * R.y, l * l, Cubic(w, c), p);
    CubicCong(R.x, w, c);
    CongSym(Cubic(R.x, c), Cubic(w, c), p);
    CongTrans(R.y * R.y, Cubic(w, c), Cubic(R.x, c), p);
  }

  /** The chord through `P` goes through `Q`. */
  lemma ChordThrough(P: Pt, Q: Pt, s: int, k: int, c: Params)
    requires c.p > 0 && OnCurve(Q, c) && IsChord(P, Q, s, c.p) && k == P.y - s * P.x
    ensures s * P.x + k == P.y && Cong(s * Q.x + k, Q.y, c.p)
    ensures Cong((s * Q.x + k) * (s * Q.x + k), Cubic(Q.x, c), c.p)
  {
    var p := c.p;
    CongRefl(P.y, p);
    CongAdd(s * (Q.x - P.x), Q.y - P.y, P.y, P.y, p);
    assert s * Q.x + k == s * (Q.x - P.x) + P.y;
    CongMul(s * Q.x + k, Q.y, s * Q.x + k, Q.y, p);
    CongTrans((s * Q.x + k) * (s * Q.x + k), Q.y * Q.y, Cubic(Q.x, c), p);
  }

  lemma ChordClosed(P: Pt, Q: Pt, R: Pt, s: int, c: Params)
    requires c.Valid() && OnCurve(P, c) && OnCurve(Q, c) && !Cong(P.x - Q.x, 0, c.p)
    requires IsChord(P, Q, s, c.p) && MirroredThird(P, Q, R, s, c.p)
    ensures OnCurve(R, c)
  {
    var p, k, w := c.p, P.y - s * P.x, s * s - P.x - Q.x;
    ChordThrough(P, Q, s, k, c);
    ChordSlope(c, s, k, P.x, Q.x, w);
    ThirdRoot(c, s, k, P.x, Q.x, w);
    MirrorOnCurve(P, Q, R, s, k, w, c);
  }

  lemma TangentClosed(P: Pt, R: Pt, s: int, c: Params)
    requires c.Valid() && OnCurve(P, c)
    requires IsTangent(P, s, c) && MirroredThird(P, P, R, s, c.p)
    ensures OnCurve(R, c)
  {
    var k, w := P.y - s * P.x, s * s - P.x - P.x;
    assert s * P.x + k == P.y;
    TangentSlope(c, s, k, P.x, w);
    ThirdRoot(c, s, k, P.x, P.x, w);
    MirrorOnCurve(P, P, R, s, k, w, c);
  }

  lemma DifferentResidues(x: int, y: int, p: int)
    requires 0 <= x < p && 0 <= y < p && x != y
    ensures !Cong(x - y, 0, p)
  {
  }

  /** Points of the curve with the same abscissa are equal or opposite. */
  lemma SameAbscissa(P: Pt, Q: Pt, c: Params)
    requires c.Valid() && Point(P, c) && Point(Q, c) && P != INFINITY && Q != INFINITY && P.x == Q.x
    ensures P == Q || Cong(P.y + Q.y, 0, c.p)
  {
    var p := c.p;
    CongSym(Q.y * Q.y, Cubic(Q.x, c), p);
    CongTrans(P.y * P.y, Cubic(P.x, c), Q.y * Q.y, p);
    assert (P.y - Q.y) * (P.y + Q.y) == P.y * P.y - Q.y * Q.y;
    Euclid(p, P.y - Q.y, P.y + Q.y);
    if P.y != Q.y {
      DifferentResidues(P.y, Q.y, p);
    }
  }

  /** The curve is closed under the addition rules. */
  lemma SumClosed(P: Pt, Q: Pt, R: Pt, c: Params)
    requires c.Valid() && Point(P, c) && Point(Q, c) && Sum(P, Q, R, c)
    requires 0 <= R.x < c.p && 0 <= R.y < c.p
    ensures Point(R, c)
  {
    if P != INFINITY && Q != INFINITY {
      if P.x == Q.x {
        if !Cong(P.y + Q.y, 0, c.p) {
          SameAbscissa(P, Q, c);
          var s :| IsTangent(P, s, c) && MirroredThird(P, Q, R, s, c.p);
          TangentClosed(P, R, s, c);
        }
      } else {
        var s :| IsChord(P, Q, s, c.p) && MirroredThird(P, Q, R, s, c.p);
        DifferentResidues(P.x, Q.x, c.p);
        ChordClosed(P, Q, R, s, c);
      }
    }
  }

  /** A point that is not infinity is not coded as infinity. */
  lemma CodeUnambiguous(c: Params)
    requires c.Valid()
    ensures !OnCurve(INFINITY, c)
  {
    if OnCurve(INFINITY, c) {
      CongSym(0, c.b, c.p);
    }
  }

  // ---------------------------------------------------------------- uniqueness and commutativity

  lemma MirroredThirdUnique(P: Pt, Q: Pt, R: Pt, S: Pt, r: int, s: int, p: int)
    requires p > 0 && Cong(r, s, p) && MirroredThird(P, Q, R, r, p) && MirroredThird(P, Q, S, s, p)
    requires 0 <= R.x < p && 0 <= R.y < p && 0 <= S.x < p && 0 <= S.y < p
    ensures R == S
  {
    CongMul(r, s, r, s, p);
    CongRefl(P.x, p);
    CongRefl(Q.x, p);
    CongAdd(r * r, s * s, P.x, P.x, p);
    CongAdd(r * r - P.x, s * s - P.x, Q.x, Q.x, p);
    CongTrans(R.x, r * r - P.x - Q.x, s * s - P.x - Q.x, p);
    CongSym(S.x, s * s - P.x - Q.x, p);
    CongTrans(R.x, s * s - P.x - Q.x, S.x, p);
    CongSmall(R.x, S.x, p);
    CongRefl(P.x - R.x, p);
    CongMul(r, s, P.x - R.x, P.x - R.x, p);
    CongRefl(P.y, p);
    CongAdd(r * (P.x - R.x), s * (P.x - R.x), P.y, P.y, p);
    CongTrans(R.y, r * (P.x - R.x) - P.y, s * (P.x - R.x) - P.y, p);
    CongSym(S.y, s * (P.x - S.x) - P.y, p);
    CongTrans(R.y, s * (P.x - R.x) - P.y, S.y, p);
    CongSmall(R.y, S.y, p);
  }

  /** Both slopes solve the same linear equation with an invertible coefficient. */
  lemma SlopeUnique(r: int, s: int, d: int, e: int, p: int)
    requires Prime(p) && Cong(r * d, e, p) && Cong(s * d, e, p) && !Cong(d, 0, p)
    ensures Cong(r, s, p)
  {
    CongSym(s * d, e, p);
    CongTrans(r * d, e, s * d, p);
    assert (r - s) * d == r * d - s * d;
    Euclid(p, r - s, d);
  }

  /** The addition rules determine the sum. */
  lemma SumUnique(P: Pt, Q: Pt, R: Pt, S: Pt, c: Params)
    requires c.Valid() && Point(P, c) && Point(Q, c) && Sum(P, Q, R, c) && Sum(P, Q, S, c)
    requires 0 <= R.x < c.p && 0 <= R.y < c.p && 0 <= S.x < c.p && 0 <= S.y < c.p
    ensures R == S
  {
    if P != INFINITY && Q != INFINITY {
      if P.x == Q.x {
        if !Cong(P.y + Q.y, 0, c.p) {
          SameAbscissa(P, Q, c);
          var r :| IsTangent(P, r, c) && MirroredThird(P, Q, R, r, c.p);
          var s :| IsTangent(P, s, c) && MirroredThird(P, Q, S, s, c.p);
          SlopeUnique(r, s, 2 * P.y, 3 * P.x * P.x + c.a, c.p);
          MirroredThirdUnique(P, Q, R, S, r, s, c.p);
        }
      } else {
        var r :| IsChord(P, Q, r, c.p) && MirroredThird(P, Q, R, r, c.p);
        var s :| IsChord(P, Q, s, c.p) && MirroredThird(P, Q, S, s, c.p);
        DifferentResidues(Q.x, P.x, c.p);
        SlopeUnique(r, s, Q.x - P.x, Q.y - P.y, c.p);
        MirroredThirdUnique(P, Q, R, S, r, s, c.p);
      }
    }
  }

  lemma ChordCommutes(P: Pt, Q: Pt, R: Pt, s: int, p: int)
    requires p > 0 && IsChord(P, Q, s, p) && MirroredThird(P, Q, R, s, p)
    ensures IsChord(Q, P, s, p) && MirroredThird(Q, P, R, s, p)
  {
    CongRefl(0, p);
    CongAdd(0, 0, s * (Q.x - P.x), Q.y - P.y, p);
    assert s * (P.x - Q.x) == 0 - s * (Q.x - P.x);
    CongAdd(R.y, s * (P.x - R.x) - P.y, s * (Q.x - P.x), Q.y - P.y, p);
    var u, v := s * (Q.x - R.x) - Q.y, s * (P.x - R.x) - P.y;
    assert v + (s * (Q.x - P.x) - (Q.y - P.y)) == u by {
      assert s * (Q.x - R.x) == s * (P.x - R.x) + s * (Q.x - P.x);
    }
    var j := CongElim(R.y, v, p);
    var l := CongElim(s * (Q.x - P.x), Q.y - P.y, p);
    assert R.y - u == (j - l) * p;
    CongIntro(R.y, u, j - l, p);
  }

  lemma SumCommutes(P: Pt, Q: Pt, R: Pt, c: Params)
    requires c.Valid() && Point(P, c) && Point(Q, c) && Sum(P, Q, R, c)
    ensures Sum(Q, P, R, c)
  {
    if P != INFINITY && Q != INFINITY {
      if P.x == Q.x {
        SameAbscissa(P, Q, c);
      } else {
        var s :| IsChord(P, Q, s, c.p) && MirroredThird(P, Q, R, s, c.p);
        ChordCommutes(P, Q, R, s, c.p);
      }
    }
  }

  // ---------------------------------------------------------------- subtraction

  /** The point with the opposite ordinate. */
  function Neg(P: Pt, c: Params): Pt
    requires c.p > 0
  {
    if P == INFINITY then P else Pt(P.x, (-P.y) % c.p)
  }

  lemma NegOpposite(P: Pt, c: Params)
    requires c.Valid() && Point(P, c) && P != INFINITY
    ensures Cong(P.y + Neg(P, c).y, 0, c.p) && Neg(P, c) != INFINITY
  {
    CongMod(-P.y, c.p);
    CongRefl(P.y, c.p);
    CongAdd(P.y, P.y, (-P.y) % c.p, -P.y, c.p);
    if Neg(P, c) == INFINITY {
      CongSmall(P.y, 0, c.p);
    }
  }

  /** `R` mirrored lies on the line of slope `s` through `P`, so `P` mirrored lies on the mirrored line through `R`. */
  lemma MirrorBack(P: Pt, Q: Pt, R: Pt, N: Pt, s: int, p: int)
    requires p > 0 && MirroredThird(P, Q, R, s, p) && N.x == Q.x
    ensures MirroredThird(R, N, P, -s, p)
  {
    var i := CongElim(R.x, s * s - P.x - Q.x, p);
    var j := CongElim(R.y, s * (P.x - R.x) - P.y, p);
    assert (-s) * (-s) == s * s && (-s) * (R.x - P.x) == s * (P.x - R.x);
    CongIntro(P.x, (-s) * (-s) - R.x - N.x, i, p);
    CongIntro(P.y, (-s) * (R.x - P.x) - R.y, j, p);
  }

  /** The mirrored line through `R` also goes through the opposite of `Q`. */
  lemma ChordBack(P: Pt, Q: Pt, R: Pt, N: Pt, s: int, p: int)
    requires p > 0 && IsChord(P, Q, s, p) && MirroredThird(P, Q, R, s, p) && N.x == Q.x && Cong(Q.y + N.y, 0, p)
    ensures IsChord(R, N, -s, p)
  {
    var j := CongElim(R.y, s * (P.x - R.x) - P.y, p);
    var l := CongElim(s * (Q.x - P.x), Q.y - P.y, p);
    var m := CongElim(Q.y + N.y, 0, p);
    assert (-s) * (N.x - R.x) == -(s * (Q.x - P.x)) - s * (P.x - R.x);
    assert (-s) * (N.x - R.x) - (N.y - R.y) == (j - l - m) * p;
    CongIntro((-s) * (N.x - R.x), N.y - R.y, j - l - m, p);
  }

  /** Meeting the line again at the abscissa of `Q` means being opposite to `Q`. */
  lemma BackAtOpposite(P: Pt, Q: Pt, R: Pt, N: Pt, s: int, p: int)
    requires p > 0 && IsChord(P, Q, s, p) && MirroredThird(P, Q, R, s, p) && N.x == Q.x && Cong(Q.y + N.y, 0, p)
    requires R.x == Q.x && 0 <= R.y < p && 0 <= N.y < p
    ensures R == N
  {
    ChordBack(P, Q, R, N, s, p);
    assert (-s) * (N.x - R.x) == 0;
    var k := CongElim((-s) * (N.x - R.x), N.y - R.y, p);
    CongIntro(R.y, N.y, k, p);
    CongSmall(R.y, N.y, p);
  }

  lemma DoubleRoot(c: Params, s: int, k: int, u: int, v: int, w: int)
    requires s * s == u + v + w
    ensures s * (2 * (s * v + k)) - (3 * v * v + c.a) == (w - v) * (v - u) - RemA(c, s, k, u, v, w)
  {
    assert s * (2 * (s * v + k)) == 2 * (s * s) * v + 2 * s * k;
    assert 2 * (u + v + w) * v == 2 * u * v + 2 * v * v + 2 * w * v;
    assert (w - v) * (v - u) == w * v - w * u - v * v + v * u;
  }

  /** A line that meets the curve twice at `Q` is the tangent there. */
  lemma TangentAtDouble(P: Pt, Q: Pt, s: int, w: int, c: Params)
    requires c.Valid() && OnCurve(P, c) && OnCurve(Q, c) && !Cong(P.x - Q.x, 0, c.p)
    requires IsChord(P, Q, s, c.p) && w == s * s - P.x - Q.x && Cong(w, Q.x, c.p)
    ensures IsTangent(Q, s, c)
  {
    var p, k := c.p, P.y - s * P.x;
    ChordThrough(P, Q, s, k, c);
    ChordSlope(c, s, k, P.x, Q.x, w);
    DoubleRoot(c, s, k, P.x, Q.x, w);
    TangentFrom(Q.y, s * Q.x + k, s, 3 * Q.x * Q.x + c.a, w - Q.x, Q.x - P.x, RemA(c, s, k, P.x, Q.x, w), p);
  }

  lemma TangentFrom(y: int, l: int, s: int, e: int, d: int, f: int, r: int, p: int)
    requires p > 0 && Cong(l, y, p) && Cong(d, 0, p) && Cong(r, 0, p) && s * (2 * l) - e == d * f - r
    ensures Cong(s * (2 * y), e, p)
  {
    var i := CongElim(l, y, p);
    var j := CongElim(d, 0, p);
    var m := CongElim(r, 0, p);
    assert s * (2 * y) == s * (2 * l) - s * (2 * (i * p)) by {
      assert 2 * y == 2 * l - 2 * (i * p);
    }
    assert s * (2 * (i * p)) == (2 * s * i) * p && (j * p) * f == (j * f) * p;
    assert s * (2 * y) - e == (j * f - m - 2 * s * i) * p;
    CongIntro(s * (2 * y), e, j * f - m - 2 * s * i, p);
  }

  lemma TangentMirrored(Q: Pt, N: Pt, s: int, c: Params)
    requires c.p > 0 && IsTangent(Q, s, c) && N.x == Q.x && Cong(Q.y + N.y, 0, c.p)
    ensures IsTangent(N, -s, c)
  {
    var p := c.p;
    var m := CongElim(Q.y + N.y, 0, p);
    var k := CongElim(s * (2 * Q.y), 3 * Q.x * Q.x + c.a, p);
    assert (-s) * (2 * N.y) == s * (2 * Q.y) - (2 * s * m) * p by {
      assert N.y == m * p - Q.y;
      assert (-s) * (2 * (m * p - Q.y)) == s * (2 * Q.y) - (2 * s * m) * p;
    }
    CongIntro((-s) * (2 * N.y), 3 * N.x * N.x + c.a, k - 2 * s * m, p);
  }

  /** The curve has a tangent at the point. */
  predicate Smooth(Q: Pt, c: Params)
    requires c.p > 0
  {
    Q == INFINITY || Q.y != 0 || !Cong(3 * Q.x * Q.x + c.a, 0, c.p)
  }

  lemma DoubleNotVertical(N: Pt, Q: Pt, c: Params)
    requires c.Valid() && 0 <= N.y < c.p && 0 <= Q.y < c.p && Cong(Q.y + N.y, 0, c.p) && Q.y != 0
    ensures !Cong(N.y + N.y, 0, c.p)
  {
    if Cong(N.y + N.y, 0, c.p) {
      assert N.y + N.y == 2 * N.y;
      Euclid(c.p, 2, N.y);
      CongSmall(N.y, 0, c.p);
      CongSmall(Q.y, 0, c.p);
    }
  }

  /** The case in which the line meets the curve at `Q` a second time. */
  lemma CancelAtDouble(P: Pt, Q: Pt, R: Pt, s: int, c: Params)
    requires c.Valid() && Point(P, c) && Point(Q, c) && P != INFINITY && Q != INFINITY && Smooth(Q, c)
    requires 0 <= R.x < c.p && 0 <= R.y < c.p && R.x == Q.x
    requires IsChord(P, Q, s, c.p) && MirroredThird(P, Q, R, s, c.p)
    requires if P.x == Q.x then P == Q && IsTangent(P, s, c) && !Cong(P.y + Q.y, 0, c.p) else true
    ensures Sum(R, Neg(Q, c), P, c)
  {
    var p, N := c.p, Neg(Q, c);
    NegOpposite(Q, c);
    BackAtOpposite(P, Q, R, N, s, p);
    MirrorBack(P, Q, R, N, s, p);
    if P.x != Q.x {
      DifferentResidues(P.x, Q.x, p);
      CongSym(R.x, s * s - P.x - Q.x, p);
      TangentAtDouble(P, Q, s, s * s - P.x - Q.x, c);
    }
    TangentMirrored(Q, N, s, c);
    CongSym(s * (2 * Q.y), 3 * Q.x * Q.x + c.a, p);
    assert Q.y == 0 ==> s * (2 * Q.y) == 0;
    DoubleNotVertical(N, Q, c);
  }

  lemma OppositeUnique(x: int, y: int, z: int, p: int)
    requires p > 0 && 0 <= x < p && 0 <= z < p && Cong(x + y, 0, p) && Cong(y + z, 0, p)
    ensures x == z
  {
    CongAdd(x + y, 0, y + z, 0, p);
    CongIntroZero(x, z, p);
  }

  lemma CongIntroZero(x: int, z: int, p: int)
    requires p > 0 && 0 <= x < p && 0 <= z < p && Cong(x - z, 0, p)
    ensures x == z
  {
  }

  lemma CancelOnLine(P: Pt, Q: Pt, R: Pt, s: int, c: Params)
    requires c.Valid() && Point(P, c) && Point(Q, c) && P != INFINITY && Q != INFINITY && Smooth(Q, c)
    requires 0 <= R.x < c.p && 0 <= R.y < c.p && MirroredThird(P, Q, R, s, c.p)
    requires if P.x == Q.x then !Cong(P.y + Q.y, 0, c.p) && IsTangent(P, s, c) else IsChord(P, Q, s, c.p)
    ensures Sum(R, Neg(Q, c), P, c)
  {
    var p, N := c.p, Neg(Q, c);
    NegOpposite(Q, c);
    if P.x == Q.x {
      SameAbscissa(P, Q, c);
      assert s * (Q.x - P.x) == 0;
      CongRefl(0, p);
      TangentClosed(P, R, s, c);
    } else {
      DifferentResidues(P.x, Q.x, p);
      ChordClosed(P, Q, R, s, c);
    }
    CodeUnambiguous(c);
    if R.x == Q.x {
      CancelAtDouble(P, Q, R, s, c);
    } else {
      MirrorBack(P, Q, R, N, s, p);
      ChordBack(P, Q, R, N, s, p);
    }
  }

  /** A line through a point without a tangent meets the curve there a second time. */
  lemma SingularAbsorbs(P: Pt, Q: Pt, R: Pt, s: int, c: Params)
    requires c.Valid() && Point(P, c) && Point(Q, c) && P != INFINITY && P.x != Q.x && !Smooth(Q, c)
    requires 0 <= R.x < c.p && 0 <= R.y < c.p && IsChord(P, Q, s, c.p) && MirroredThird(P, Q, R, s, c.p)
    ensures R.x == Q.x
  {
    var p, k, w := c.p, P.y - s * P.x, s * s - P.x - Q.x;
    DifferentResidues(P.x, Q.x, p);
    DifferentResidues(Q.x, P.x, p);
    ChordThrough(P, Q, s, k, c);
    ChordSlope(c, s, k, P.x, Q.x, w);
    DoubleRoot(c, s, k, P.x, Q.x, w);
    CongRefl(2 * s, p);
    CongMul(2 * s, 2 * s, s * Q.x + k, 0, p);
    assert 2 * s * (s * Q.x + k) == s * (2 * (s * Q.x + k)) && 2 * s * 0 == 0;
    CongAdd(s * (2 * (s * Q.x + k)), 0, 3 * Q.x * Q.x + c.a, 0, p);
    CongAdd(s * (2 * (s * Q.x + k)) - (3 * Q.x * Q.x + c.a), 0, RemA(c, s, k, P.x, Q.x, w), 0, p);
    Euclid(p, w - Q.x, Q.x - P.x);
    CongAdd(R.x, w, w - Q.x, 0, p);
    CongSmall(R.x, Q.x, p);
  }

  lemma SingularOpposite(P: Pt, Q: Pt, c: Params)
    requires c.Valid() && Point(P, c) && Point(Q, c) && P != INFINITY && P.x == Q.x && !Smooth(Q, c)
    ensures P == Q && Cong(P.y + Q.y, 0, c.p)
  {
    SameAbscissa(P, Q, c);
    CongRefl(0, c.p);
    if P != Q {
      CongSmall(P.y, 0, c.p);
    }
  }

  lemma DoubleIsInfinity(N: Pt, P: Pt, c: Params)
    requires c.p > 0 && N != INFINITY && N.y == 0 && P != INFINITY
    ensures !Sum(N, N, P, c)
  {
    CongRefl(0, c.p);
  }

  lemma NotTakenBack(P: Pt, Q: Pt, R: Pt, s: int, c: Params)
    requires c.Valid() && Point(P, c) && Point(Q, c) && P != INFINITY && P.x != Q.x && !Smooth(Q, c)
    requires 0 <= R.x < c.p && 0 <= R.y < c.p && IsChord(P, Q, s, c.p) && MirroredThird(P, Q, R, s, c.p)
    ensures !Sum(R, Neg(Q, c), P, c)
  {
    NegOpposite(Q, c);
    SingularAbsorbs(P, Q, R, s, c);
    BackAtOpposite(P, Q, R, Neg(Q, c), s, c.p);
    CongSmall(Neg(Q, c).y, 0, c.p);
    DoubleIsInfinity(R, P, c);
  }

  /** A curve whose discriminant does not vanish has a tangent at every point, as section 2.2.1 of SEC 1 asks. */
  lemma DiscriminantSmooth(Q: Pt, c: Params)
    requires c.Valid() && Point(Q, c) && !Cong(4 * (c.a * c.a * c.a) + 27 * (c.b * c.b), 0, c.p)
    ensures Smooth(Q, c)
  {
    if !Smooth(Q, c) {
      var p, x := c.p, Q.x;
      var i := CongElim(3 * x * x + c.a, 0, p);
      var j := CongElim(Q.y * Q.y, Cubic(x, c), p);
      DiscriminantVanishes(x, c.a, c.b, i, j, p);
    }
  }

  lemma DiscriminantVanishes(x: int, a: int, b: int, i: int, j: int, p: int)
    requires p > 0 && 3 * x * x + a == i * p && 0 - (x * x * x + a * x + b) == j * p
    ensures Cong(4 * (a * a * a) + 27 * (b * b), 0, p)
  {
    var u, v := -3 * (x * x), 2 * (x * x * x);
    CongIntro(a, u, i, p);
    assert b - v == (-j - i * x) * p by {
      assert a == i * p - 3 * x * x;
      assert a * x == (i * x) * p - 3 * (x * x * x);
    }
    CongIntro(b, v, -j - i * x, p);
    CongMul(a, u, a, u, p);
    CongMul(a * a, u * u, a, u, p);
    CongMul(b, v, b, v, p);
    CongRefl(4, p);
    CongRefl(27, p);
    CongMul(4, 4, a * a * a, u * u * u, p);
    CongMul(27, 27, b * b, v * v, p);
    CongAdd(4 * (a * a * a), 4 * (u * u * u), 27 * (b * b), 27 * (v * v), p);
    SixthPowers(x);
  }

  lemma SixthPowers(x: int)
    ensures var u, v := -3 * (x * x), 2 * (x * x * x); 4 * (u * u * u) + 27 * (v * v) == 0
  {
    var y, z := x * x, x * x * x;
    assert z * z == y * y * y;
    assert (-3 * y) * (-3 * y) * (-3 * y) == -27 * (y * y * y);
    assert (2 * z) * (2 * z) == 4 * (z * z);
  }

  lemma VerticalCancels(P: Pt, Q: Pt, c: Params)
    requires c.Valid() && Point(P, c) && Point(Q, c) && P != INFINITY && Q != INFINITY
    requires P.x == Q.x && Cong(P.y + Q.y, 0, c.p)
    ensures Sum(INFINITY, Neg(Q, c), P, c) && (Smooth(Q, c) || P == Q)
  {
    NegOpposite(Q, c);
    OppositeUnique(P.y, Q.y, Neg(Q, c).y, c.p);
    if !Smooth(Q, c) {
      SingularOpposite(P, Q, c);
    }
  }

  lemma LineCancels(P: Pt, Q: Pt, R: Pt, c: Params)
    requires c.Valid() && Point(P, c) && Point(Q, c) && P != INFINITY && Q != INFINITY && Sum(P, Q, R, c)
    requires 0 <= R.x < c.p && 0 <= R.y < c.p && !(P.x == Q.x && Cong(P.y + Q.y, 0, c.p))
    ensures Sum(R, Neg(Q, c), P, c) <==> Smooth(Q, c) || P == Q
  {
    if P.x == Q.x {
      if !Smooth(Q, c) {
        SingularOpposite(P, Q, c);
      }
      var s :| IsTangent(P, s, c) && MirroredThird(P, Q, R, s, c.p);
      CancelOnLine(P, Q, R, s, c);
    } else {
      var s :| IsChord(P, Q, s, c.p) && MirroredThird(P, Q, R, s, c.p);
      if Smooth(Q, c) {
        CancelOnLine(P, Q, R, s, c);
      } else {
        NotTakenBack(P, Q, R, s, c);
      }
    }
  }

  /**
   * Adding the opposite point takes an addition back, if and only if the curve has a tangent at the point added or the
   * other one is infinity or the same point.
   */
  lemma SumCancels(P: Pt, Q: Pt, R: Pt, c: Params)
    requires c.Valid() && Point(P, c) && Point(Q, c) && Sum(P, Q, R, c)
    requires 0 <= R.x < c.p && 0 <= R.y < c.p
    ensures Sum(R, Neg(Q, c), P, c) <==> Smooth(Q, c) || P == INFINITY || P == Q
  {
    if Q != INFINITY {
      NegOpposite(Q, c);
      if P != INFINITY {
        if P.x == Q.x && Cong(P.y + Q.y, 0, c.p) {
          VerticalCancels(P, Q, c);
        } else {
          LineCancels(P, Q, R, c);
        }
      }
    }
  }
}
