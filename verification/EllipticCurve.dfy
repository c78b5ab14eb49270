/** Curve points in Montgomery form and their arithmetic (rpcs3/Crypto/ec.cpp). */
module EllipticCurve {
  import opened Arith
  import opened BigNum
  import opened Montgomery
  import opened MonExp
  import opened Fermat
  import opened CurveLaw

  // ---------------------------------------------------------------- field lemmas

  /** Addition and subtraction commute with taking the plain residue. */
  lemma PlainLinear(u: int, v: int, m: int, n: nat)
    requires m > 0 && m % 2 == 1
    ensures Plain((u + v) % m, m, n) == (Plain(u, m, n) + Plain(v, m, n)) % m
    ensures Plain((u - v) % m, m, n) == (Plain(u, m, n) - Plain(v, m, n)) % m
  {
    var R, x, y := Pow(256, n), Plain(u, m, n), Plain(v, m, n);
    PlainSpec(u, m, n);
    PlainSpec(v, m, n);
    CongAdd(x * R, u, y * R, v, m);
    assert (x + y) * R == x * R + y * R && (x - y) * R == x * R - y * R;
    CongMod(u + v, m);
    CongMod(u - v, m);
    CongTrans((x + y) * R, u + v, (u + v) % m, m);
    CongTrans((x - y) * R, u - v, (u - v) % m, m);
    PlainUnique(x + y, (u + v) % m, m, n);
    PlainUnique(x - y, (u - v) % m, m, n);
  }

  lemma PlainZero(v: int, m: int, n: nat)
    requires m % 2 == 1 && 0 <= v < m
    ensures Plain(v, m, n) == 0 <==> v == 0
  {
    CongRefl(0, m);
    PlainUnique(0, 0, m, n);
    if Plain(v, m, n) == 0 {
      PlainInjective(v, 0, m, n);
    }
  }

  /** A residue of an odd prime is doubled to zero only if it is zero. */
  lemma DoubleNonzero(y: int, p: int)
    requires Prime(p) && p > 2 && 0 < y < p
    ensures !Cong(y + y, 0, p)
  {
    if Cong(y + y, 0, p) {
      assert y + y == 2 * y;
      Euclid(p, 2, y);
      DivUnique(2, 0, 2, p);
      DivUnique(y, 0, y, p);
      assert false;
    }
  }

  /** Fermat inversion inverts every nonzero residue of a prime. */
  lemma PowInverts(x: int, p: int)
    requires Prime(p) && 0 < x < p
    ensures Cong(x * (Pow(x, p - 2) % p), 1, p)
  {
    DivUnique(x, 0, x, p);
    LittleTheorem(p, x);
    FermatInverse(x, p);
  }

  /** The quotient `e / d`, computed with an inverse of `d`, solves `s * d = e`. */
  lemma QuotientSolves(s: int, d: int, i: int, e: int, p: int)
    requires p > 0 && s == (e * i) % p && Cong(d * i, 1, p)
    ensures Cong(s * d, e, p)
  {
    CongMod(e * i, p);
    CongRefl(d, p);
    CongMul(s, e * i, d, d, p);
    CongRefl(e, p);
    CongMul(d * i, 1, e, e, p);
    assert e * i * d == d * i * e;
    CongTrans(s * d, d * i * e, e, p);
  }

  // ---------------------------------------------------------------- curve state

  class Point {
    const x: array<u8>
    const y: array<u8>

    constructor (n: nat)
      ensures fresh(x) && fresh(y) && x != y && x.Length == y.Length == n
    {
      x := new u8[n];
      y := new u8[n];
    }
  }

  class Curve {
    const p: array<u8>
    const a: array<u8>
    const b: array<u8>
    const order: array<u8>
    const g: Point

    ghost function M(): nat
      reads p
    {
      Val(p[..])
    }

    /** The curve over plain residues. */
    ghost function Par(): Params
      reads p, a, b
    {
      if M() % 2 == 1 then Params(M(), El(a), El(b)) else Params(0, 0, 0)
    }

    ghost predicate Valid()
      reads p, a, b
    {
      && p.Length == a.Length == b.Length > 0 && p != a && p != b
      && M() > 2 && M() % 2 == 1 && Val(a[..]) < M() && Val(b[..]) < M()
      && Par().Valid()
    }

    /** A buffer that may be written without touching the curve. */
    ghost predicate Scratch(d: array<u8>) {
      d.Length == p.Length && d != p && d != a && d != b
    }

    /** A reduced field element. */
    ghost predicate Elem(d: array<u8>)
      reads p, d
    {
      d.Length == p.Length && Val(d[..]) < M()
    }

    /** The plain residue behind the Montgomery form in `d`. */
    ghost function El(d: array<u8>): int
      requires M() % 2 == 1
      reads p, d
    {
      Plain(Val(d[..]), M(), p.Length)
    }

    ghost function PtOf(q: Point): Pt
      requires M() % 2 == 1
      reads p, q.x, q.y
    {
      Pt(El(q.x), El(q.y))
    }

    /** Installs a curve given by plain coefficients, the order of its group and a plain base point. */
    constructor (p0: array<u8>, a0: array<u8>, b0: array<u8>, order0: array<u8>, gx0: array<u8>, gy0: array<u8>)
      requires p0.Length == a0.Length == b0.Length == gx0.Length == gy0.Length > 0
      requires Val(a0[..]) < Val(p0[..]) && Val(b0[..]) < Val(p0[..]) && Val(p0[..]) % 2 == 1
      requires Val(gx0[..]) < Val(p0[..]) && Val(gy0[..]) < Val(p0[..])
      requires Params(Val(p0[..]), Val(a0[..]), Val(b0[..])).Valid()
      ensures Valid() && Par() == Params(Val(p0[..]), Val(a0[..]), Val(b0[..]))
      ensures order[..] == order0[..] && Reduced(g) && PtOf(g) == Pt(Val(gx0[..]), Val(gy0[..]))
    {
      p := new u8[p0.Length];
      a := new u8[p0.Length];
      b := new u8[p0.Length];
      order := new u8[order0.Length];
      g := new Point(p0.Length);
      new;
      Copy(order, order0);
      InstallCoefficients(p0, a0, b0);
      InstallPoint(g, gx0, gy0);
    }

    method InstallPoint(q: Point, x0: array<u8>, y0: array<u8>)
      requires Valid() && Target(q) && q.x.Length == x0.Length && q.y.Length == y0.Length && q.x != y0
      requires Val(x0[..]) < M() && Val(y0[..]) < M()
      modifies q.x, q.y
      ensures Reduced(q) && PtOf(q) == old(Pt(Val(x0[..]), Val(y0[..])))
    {
      Copy(q.x, x0);
      Copy(q.y, y0);
      PointToMon(q);
    }

    method InstallCoefficients(p0: array<u8>, a0: array<u8>, b0: array<u8>)
      requires p0.Length == a0.Length == b0.Length == p.Length == a.Length == b.Length > 0
      requires p != a && p != b && a != b && {p, a, b} !! {p0, a0, b0}
      requires Val(a0[..]) < Val(p0[..]) && Val(b0[..]) < Val(p0[..]) && Val(p0[..]) % 2 == 1
      requires Params(Val(p0[..]), Val(a0[..]), Val(b0[..])).Valid()
      modifies p, a, b
      ensures Valid() && Par() == Params(Val(p0[..]), Val(a0[..]), Val(b0[..]))
    {
      ghost var pp, aa, bb := p0[..], a0[..], b0[..];
      Copy(p, p0);
      Copy(a, a0);
      Copy(b, b0);
      assert p[..] == pp && a[..] == aa && b[..] == bb;
      ToMon(a, p);
      assert p[..] == pp && b[..] == bb;
      ghost var am := Val(a[..]);
      ToMon(b, p);
      assert p[..] == pp && Val(a[..]) == am;
      ConversionRoundTrip(Val(aa), M(), p.Length);
      ConversionRoundTrip(Val(bb), M(), p.Length);
    }

    method PointToMon(q: Point)
      requires Valid() && Target(q) && Reduced(q)
      modifies q.x, q.y
      ensures Reduced(q) && PtOf(q) == old(Pt(Val(q.x[..]), Val(q.y[..])))
    {
      ghost var x, y := Val(q.x[..]), Val(q.y[..]);
      ToMon(q.x, p);
      ToMon(q.y, p);
      ConversionRoundTrip(x, M(), p.Length);
      ConversionRoundTrip(y, M(), p.Length);
    }

    method PointFromMon(q: Point)
      requires Valid() && Target(q) && Reduced(q)
      modifies q.x, q.y
      ensures Pt(Val(q.x[..]), Val(q.y[..])) == old(PtOf(q))
    {
      FromMon(q.x, p);
      FromMon(q.y, p);
    }

    method EltIsZero(d: array<u8>) returns (z: bool)
      requires Valid() && Elem(d)
      ensures z <==> El(d) == 0
    {
      PlainZero(Val(d[..]), M(), p.Length);
      for i := 0 to d.Length
        invariant forall j :: 0 <= j < i ==> d[j] == 0
      {
        if d[i] != 0 {
          if Val(d[..]) == 0 {
            ValZeroInv(d[..]);
            assert false;
          }
          return false;
        }
      }
      ValZeros(d[..]);
      return true;
    }

    method EltAdd(d: array<u8>, x: array<u8>, y: array<u8>)
      requires Valid() && Scratch(d) && Elem(x) && Elem(y)
      modifies d
      ensures Elem(d) && El(d) == old(El(x) + El(y)) % M()
    {
      PlainLinear(Val(x[..]), Val(y[..]), M(), p.Length);
      Add(d, x, y, p);
    }

    method EltSub(d: array<u8>, x: array<u8>, y: array<u8>)
      requires Valid() && Scratch(d) && Elem(x) && Elem(y)
      modifies d
      ensures Elem(d) && El(d) == old(El(x) - El(y)) % M()
    {
      PlainLinear(Val(x[..]), Val(y[..]), M(), p.Length);
      Sub(d, x, y, p);
    }

    method EltMul(d: array<u8>, x: array<u8>, y: array<u8>)
      requires Valid() && Scratch(d) && Elem(x) && Elem(y)
      modifies d
      ensures Elem(d) && El(d) == old(El(x) * El(y)) % M()
    {
      ghost var u, v := Val(x[..]), Val(y[..]);
      MonMul(d, x, y, p);
      MonMulPlain(Val(d[..]), u, v, M(), p.Length);
    }

    method EltInv(d: array<u8>, x: array<u8>)
      requires Valid() && Scratch(d) && Elem(x)
      modifies d
      ensures Elem(d) && El(d) == Pow(old(El(x)), M() - 2) % M()
      ensures old(El(x)) != 0 ==> Cong(old(El(x)) * El(d), 1, M())
    {
      ghost var e := El(x);
      var s := new u8[x.Length];
      Copy(s, x);
      MonInv(d, s, p);
      if e != 0 {
        PowInverts(e, M());
      }
    }

    /** The abscissa of the third intersection of the line of slope `s`. */
    method ThirdX(rx: array<u8>, s: array<u8>, px: array<u8>, qx: array<u8>, ghost k: int, ghost x1: int, ghost x2: int)
      requires Valid() && Elem(s) && Elem(px) && Elem(qx) && Scratch(rx) && rx !in {s, px, qx}
      requires El(s) == k && El(px) == x1 && El(qx) == x2
      modifies rx
      ensures Elem(rx) && Cong(El(rx), k * k - x1 - x2, M())
    {
      ghost var m := M();
      var t := new u8[p.Length];
      EltMul(rx, s, s);
      ghost var v1 := El(rx);
      EltAdd(t, px, qx);
      ghost var v2 := El(t);
      EltSub(rx, rx, t);
      ThirdXAlgebra(x1, x2, k, v1, v2, m);
    }

    static lemma ThirdXAlgebra(x1: int, x2: int, s: int, v1: int, v2: int, m: int)
      requires m > 0 && v1 == (s * s) % m && v2 == (x1 + x2) % m
      ensures Cong((v1 - v2) % m, s * s - x1 - x2, m)
    {
      CongMod(s * s, m);
      CongMod(x1 + x2, m);
      CongAdd(v1, s * s, v2, x1 + x2, m);
      CongMod(v1 - v2, m);
      CongTrans((v1 - v2) % m, v1 - v2, s * s - (x1 + x2), m);
    }

    /** The mirrored ordinate of that intersection. */
    method ThirdY(ry: array<u8>, s: array<u8>, px: array<u8>, py: array<u8>, rx: array<u8>,
                  ghost k: int, ghost P: Pt, ghost x3: int)
      requires Valid() && Elem(s) && Elem(px) && Elem(py) && Elem(rx) && Scratch(ry) && ry !in {s, px, py, rx}
      requires El(s) == k && El(px) == P.x && El(py) == P.y && El(rx) == x3
      modifies ry
      ensures Elem(ry) && El(ry) == (MirroredRise(k, P.x, x3, M()) - P.y) % M()
    {
      var t := new u8[p.Length];
      EltSub(t, px, rx);
      EltMul(ry, s, t);
      EltSub(ry, ry, py);
    }

    /** How far the line of slope k falls from abscissa x1 to x3. */
    static function MirroredRise(k: int, x1: int, x3: int, m: int): int
      requires m > 0
    {
      (k * ((x1 - x3) % m)) % m
    }

    static lemma ThirdYAlgebra(x1: int, y1: int, x3: int, s: int, v1: int, v2: int, m: int)
      requires m > 0 && v1 == (x1 - x3) % m && v2 == (s * v1) % m
      ensures Cong((v2 - y1) % m, s * (x1 - x3) - y1, m)
    {
      CongMod(x1 - x3, m);
      CongRefl(s, m);
      CongMul(s, s, v1, x1 - x3, m);
      CongMod(s * v1, m);
      CongTrans(v2, s * v1, s * (x1 - x3), m);
      CongRefl(y1, m);
      CongAdd(v2, s * (x1 - x3), y1, y1, m);
      CongMod(v2 - y1, m);
      CongTrans((v2 - y1) % m, v2 - y1, s * (x1 - x3) - y1, m);
    }

    /** The numerator of the tangent's slope. */
    method TangentNumerator(s: array<u8>, px: array<u8>)
      requires Valid() && Elem(px) && Scratch(s) && s != px
      modifies s
      ensures Elem(s) && Cong(El(s), 3 * El(px) * El(px) + El(a), M())
    {
      ghost var m, x := M(), El(px);
      var t := new u8[p.Length];
      EltMul(t, px, px);
      ghost var v1 := El(t);
      EltAdd(s, t, t);
      ghost var v2 := El(s);
      EltAdd(s, s, t);
      ghost var v3 := El(s);
      EltAdd(s, s, a);
      TripleSquare(x, v1, v2, v3, m);
      NumeratorAlgebra(x, El(a), v3, m);
    }

    static lemma TripleSquare(x: int, v1: int, v2: int, v3: int, m: int)
      requires m > 0 && v1 == (x * x) % m && v2 == (v1 + v1) % m && v3 == (v2 + v1) % m
      ensures Cong(v3, 3 * x * x, m)
    {
      var q := x * x;
      CongMod(q, m);
      CongAdd(v1, q, v1, q, m);
      CongMod(v1 + v1, m);
      CongTrans(v2, v1 + v1, q + q, m);
      CongAdd(v2, q + q, v1, q, m);
      CongMod(v2 + v1, m);
      CongTrans(v3, v2 + v1, q + q + q, m);
      assert 3 * x * x == 3 * q;
    }

    static lemma NumeratorAlgebra(x: int, a: int, v: int, m: int)
      requires m > 0 && Cong(v, 3 * x * x, m)
      ensures Cong((v + a) % m, 3 * x * x + a, m)
    {
      CongRefl(a, m);
      CongAdd(v, 3 * x * x, a, a, m);
      CongMod(v + a, m);
      CongTrans((v + a) % m, v + a, 3 * x * x + a, m);
    }

    /** The slope of the tangent at a point whose ordinate is not zero. */
    method TangentSlopeAt(s: array<u8>, px: array<u8>, py: array<u8>, ghost P: Pt)
      requires Valid() && Elem(px) && Elem(py) && Scratch(s) && s != px && s != py
      requires El(px) == P.x && El(py) == P.y && P.y != 0
      modifies s
      ensures Elem(s) && IsTangent(P, El(s), Par())
    {
      ghost var m, x, y := M(), P.x, P.y;
      TangentNumerator(s, px);
      ghost var e := El(s);
      var t := new u8[p.Length];
      EltAdd(t, py, py);
      ghost var d := El(t);
      CongMod(y + y, m);
      DoubleNonzero(y, m);
      EltInv(t, t);
      ghost var i := El(t);
      EltMul(s, s, t);
      QuotientSolves(El(s), d, i, e, m);
      TangentTransfer(El(s), d, e, x, y, El(a), m);
    }

    static lemma TangentTransfer(s: int, d: int, e: int, x: int, y: int, a: int, m: int)
      requires m > 0 && Cong(s * d, e, m) && Cong(e, 3 * x * x + a, m) && Cong(d, 2 * y, m)
      ensures Cong(s * (2 * y), 3 * x * x + a, m)
    {
      CongSym(d, 2 * y, m);
      CongRefl(s, m);
      CongMul(s, s, 2 * y, d, m);
      CongTrans(s * (2 * y), s * d, e, m);
      CongTrans(s * (2 * y), e, 3 * x * x + a, m);
    }

    /** The slope of the chord through two points with different abscissas; `u` holds their difference. */
    method ChordSlopeOf(s: array<u8>, u: array<u8>, py: array<u8>, qy: array<u8>, ghost P: Pt, ghost Q: Pt)
      requires Valid() && Elem(u) && Elem(py) && Elem(qy) && Scratch(s) && Scratch(u)
      requires s != u && s != py && s != qy && u != py && u != qy
      requires El(u) == (Q.x - P.x) % M() && El(u) != 0 && El(py) == P.y && El(qy) == Q.y
      modifies s, u
      ensures Elem(s) && IsChord(P, Q, El(s), M())
    {
      ghost var m, d := M(), El(u);
      var t := new u8[p.Length];
      EltInv(t, u);
      ghost var i := El(t);
      EltSub(u, qy, py);
      ghost var e := El(u);
      EltMul(s, t, u);
      assert El(s) == (e * i) % m by {
        assert i * e == e * i;
      }
      QuotientSolves(El(s), d, i, e, m);
      ChordTransfer(El(s), d, e, Q.x - P.x, Q.y - P.y, m);
    }

    static lemma ChordTransfer(s: int, d: int, e: int, dx: int, dy: int, m: int)
      requires m > 0 && Cong(s * d, e, m) && d == dx % m && e == dy % m
      ensures Cong(s * dx, dy, m)
    {
      CongMod(dx, m);
      CongMod(dy, m);
      CongRefl(s, m);
      CongMul(s, s, dx, d, m);
      CongTrans(s * dx, s * d, e, m);
      CongTrans(s * dx, e, dy, m);
    }

    /** A result buffer: two separate arrays that are not part of the curve. */
    ghost predicate Target(r: Point) {
      Scratch(r.x) && Scratch(r.y) && r.x != r.y
    }

    ghost predicate Reduced(q: Point)
      reads p, q.x, q.y
    {
      Elem(q.x) && Elem(q.y)
    }

    /** A reduced point of this curve, or infinity. */
    ghost predicate CurvePoint(q: Point)
      requires Valid()
      reads p, a, b, q.x, q.y
    {
      Reduced(q) && CurveLaw.Point(PtOf(q), Par())
    }

    method PointZero(r: Point)
      requires Valid() && Target(r)
      modifies r.x, r.y
      ensures Reduced(r) && PtOf(r) == INFINITY
    {
      SetSmall(r.x, 0);
      SetSmall(r.y, 0);
      PlainZero(0, M(), p.Length);
    }

    method PointIsZero(q: Point) returns (z: bool)
      requires Valid() && Reduced(q)
      ensures z <==> PtOf(q) == INFINITY
    {
      z := EltIsZero(q.x);
      if z {
        z := EltIsZero(q.y);
      }
    }

    method CopyPoint(q: Point) returns (r: Point)
      requires Valid() && Reduced(q)
      ensures fresh(r) && fresh(r.x) && fresh(r.y) && r.x != r.y
      ensures Reduced(r) && PtOf(r) == PtOf(q)
    {
      r := new Point(p.Length);
      Copy(r.x, q.x);
      Copy(r.y, q.y);
    }

    /** The mirrored third intersection of the line of slope `s` through two copied points. */
    method ThirdPoint(r: Point, s: array<u8>, pp: Point, qx: array<u8>, ghost k: int, ghost P: Pt, ghost Q: Pt)
      requires Valid() && Target(r) && Elem(s) && Reduced(pp) && Elem(qx)
      requires El(s) == k && PtOf(pp) == P && El(qx) == Q.x
      requires r.x !in {s, pp.x, pp.y, qx} && r.y !in {s, pp.x, pp.y, qx}
      modifies r.x, r.y
      ensures Reduced(r) && MirroredThird(P, Q, PtOf(r), k, M())
    {
      ThirdX(r.x, s, pp.x, qx, k, P.x, Q.x);
      ghost var x3 := El(r.x);
      ThirdY(r.y, s, pp.x, pp.y, r.x, k, P, x3);
      ThirdYAlgebra(P.x, P.y, x3, k, (P.x - x3) % M(), MirroredRise(k, P.x, x3, M()), M());
      assert El(r.x) == x3;
    }

    static lemma TangentSum(P: Pt, R: Pt, s: int, c: Params)
      requires c.Valid() && CurveLaw.Point(P, c) && P.y != 0 && 0 <= R.x < c.p && 0 <= R.y < c.p
      requires IsTangent(P, s, c) && MirroredThird(P, P, R, s, c.p)
      ensures Sum(P, P, R, c) && CurveLaw.Point(R, c)
    {
      DoubleNonzero(P.y, c.p);
      SumClosed(P, P, R, c);
    }

    static lemma ChordSum(P: Pt, Q: Pt, R: Pt, s: int, c: Params)
      requires c.Valid() && CurveLaw.Point(P, c) && CurveLaw.Point(Q, c) && P != INFINITY && Q != INFINITY
      requires P.x != Q.x && 0 <= R.x < c.p && 0 <= R.y < c.p
      requires IsChord(P, Q, s, c.p) && MirroredThird(P, Q, R, s, c.p)
      ensures Sum(P, Q, R, c) && CurveLaw.Point(R, c)
    {
      SumClosed(P, Q, R, c);
    }

    /** `r` may be `q`. */
    method PointDouble(r: Point, q: Point)
      requires Valid() && Target(r) && CurvePoint(q)
      modifies r.x, r.y
      ensures CurvePoint(r) && Sum(old(PtOf(q)), old(PtOf(q)), PtOf(r), Par())
    {
      ghost var P, c := PtOf(q), Par();
      var pp := CopyPoint(q);
      var flat := EltIsZero(pp.y);
      if flat {
        PointZero(r);
        CongRefl(0, c.p);
      } else {
        var s := new u8[p.Length];
        TangentSlopeAt(s, pp.x, pp.y, P);
        ghost var k := El(s);
        assert PtOf(pp) == P;
        ThirdPoint(r, s, pp, pp.x, k, P, P);
        TangentSum(P, PtOf(r), k, c);
      }
    }

    /** Addition of two points with different abscissas; `u` holds the difference. */
    method AddDistinct(r: Point, pp: Point, qq: Point, u: array<u8>, ghost P: Pt, ghost Q: Pt)
      requires Valid() && Target(r) && CurvePoint(pp) && CurvePoint(qq) && Scratch(u) && Elem(u)
      requires PtOf(pp) == P && PtOf(qq) == Q && P != INFINITY && Q != INFINITY
      requires El(u) == (Q.x - P.x) % M() && El(u) != 0
      requires r.x !in {u, pp.x, pp.y, qq.x, qq.y} && r.y !in {u, pp.x, pp.y, qq.x, qq.y}
      requires u !in {pp.x, pp.y, qq.x, qq.y}
      modifies r.x, r.y, u
      ensures CurvePoint(r) && Sum(P, Q, PtOf(r), Par())
    {
      ghost var c := Par();
      DifferenceZero(Q.x, P.x, M());
      var s := new u8[p.Length];
      ChordSlopeOf(s, u, pp.y, qq.y, P, Q);
      ghost var k := El(s);
      assert PtOf(pp) == P && PtOf(qq) == Q;
      ThirdPoint(r, s, pp, qq.x, k, P, Q);
      ChordSum(P, Q, PtOf(r), k, c);
    }

    /** Addition of two points with the same abscissa. */
    method AddVertical(r: Point, pp: Point, qq: Point, ghost P: Pt, ghost Q: Pt)
      requires Valid() && Target(r) && CurvePoint(pp) && CurvePoint(qq)
      requires PtOf(pp) == P && PtOf(qq) == Q && P != INFINITY && Q != INFINITY && P.x == Q.x
      modifies r.x, r.y
      ensures CurvePoint(r) && Sum(P, Q, PtOf(r), Par())
    {
      var u := new u8[p.Length];
      EltSub(u, qq.y, pp.y);
      DifferenceZero(Q.y, P.y, M());
      var sameY := EltIsZero(u);
      if sameY {
        PointDouble(r, pp);
      } else {
        SameAbscissa(P, Q, Par());
        PointZero(r);
      }
    }

    /** Addition of two points neither of which is infinity. */
    method AddFinite(r: Point, pp: Point, qq: Point, ghost P: Pt, ghost Q: Pt)
      requires Valid() && Target(r) && CurvePoint(pp) && CurvePoint(qq)
      requires PtOf(pp) == P && PtOf(qq) == Q && P != INFINITY && Q != INFINITY
      requires r.x !in {pp.x, pp.y, qq.x, qq.y} && r.y !in {pp.x, pp.y, qq.x, qq.y}
      modifies r.x, r.y
      ensures CurvePoint(r) && Sum(P, Q, PtOf(r), Par())
    {
      var u := new u8[p.Length];
      EltSub(u, qq.x, pp.x);
      assert PtOf(pp) == P && PtOf(qq) == Q;
      DifferenceZero(Q.x, P.x, M());
      var sameX := EltIsZero(u);
      if sameX {
        AddVertical(r, pp, qq, P, Q);
      } else {
        AddDistinct(r, pp, qq, u, P, Q);
      }
    }

    /** `r` may be `q1` or `q2`. */
    method PointAdd(r: Point, q1: Point, q2: Point)
      requires Valid() && Target(r) && CurvePoint(q1) && CurvePoint(q2)
      modifies r.x, r.y
      ensures CurvePoint(r) && Sum(old(PtOf(q1)), old(PtOf(q2)), PtOf(r), Par())
    {
      ghost var P, Q := PtOf(q1), PtOf(q2);
      var pp := CopyPoint(q1);
      var qq := CopyPoint(q2);
      assert PtOf(pp) == P;
      var zp := PointIsZero(pp);
      var zq := PointIsZero(qq);
      if zp {
        WritePoint(r, qq);
      } else if zq {
        WritePoint(r, pp);
      } else {
        AddFinite(r, pp, qq, P, Q);
      }
    }

    method WritePoint(r: Point, q: Point)
      requires Valid() && Target(r) && CurvePoint(q) && r.x !in {q.x, q.y} && r.y !in {q.x, q.y}
      modifies r.x, r.y
      ensures CurvePoint(r) && PtOf(r) == PtOf(q)
    {
      Copy(r.x, q.x);
      Copy(r.y, q.y);
    }

    static lemma DifferenceZero(x: int, y: int, m: int)
      requires 0 <= x < m && 0 <= y < m
      ensures (x - y) % m == 0 <==> x == y
    {
    }

    /** `e` doublings and conditional additions, most significant bit first, lead from infinity to `R`. */
    static ghost predicate Times(e: nat, B: Pt, R: Pt, c: Params)
      requires c.p > 0
    {
      if e == 0 then R == INFINITY
      else exists S, T ::
          && Times(e / 2, B, S, c) && CurveLaw.Point(S, c)
          && Sum(S, S, T, c) && CurveLaw.Point(T, c)
          && if e % 2 == 1 then Sum(T, B, R, c) else R == T
    }

    static lemma {:induction false} TimesUnique(e: nat, B: Pt, Q: Pt, R: Pt, c: Params)
      requires c.Valid() && CurveLaw.Point(B, c) && CurveLaw.Point(Q, c) && CurveLaw.Point(R, c)
      requires Times(e, B, Q, c) && Times(e, B, R, c)
      ensures Q == R
    {
      if e > 0 {
        var S, T :| Times(e / 2, B, S, c) && CurveLaw.Point(S, c) && Sum(S, S, T, c) && CurveLaw.Point(T, c)
          && if e % 2 == 1 then Sum(T, B, Q, c) else Q == T;
        var S', T' :| Times(e / 2, B, S', c) && CurveLaw.Point(S', c) && Sum(S', S', T', c) && CurveLaw.Point(T', c)
          && if e % 2 == 1 then Sum(T', B, R, c) else R == T';
        TimesUnique(e / 2, B, S, S', c);
        SumUnique(S, S, T, T', c);
        if e % 2 == 1 {
          SumUnique(T, B, Q, R, c);
        }
      }
    }

    static lemma TimesStep(e: nat, bit: int, B: Pt, S: Pt, T: Pt, R: Pt, c: Params)
      requires c.p > 0 && 0 <= bit <= 1 && Times(e, B, S, c) && CurveLaw.Point(S, c)
      requires Sum(S, S, T, c) && CurveLaw.Point(T, c)
      requires if bit == 1 then Sum(T, B, R, c) else R == T
      ensures Times(2 * e + bit, B, R, c)
    {
    }

    /** One doubling, and one addition if the bit is set; `T` is the point between. */
    method PointMulBit(d: Point, bit: bool, q: Point) returns (ghost T: Pt)
      requires Valid() && Target(d) && CurvePoint(d) && CurvePoint(q)
      requires d.x != q.x && d.x != q.y && d.y != q.x && d.y != q.y
      modifies d.x, d.y
      ensures Valid() && CurvePoint(q) && PtOf(q) == old(PtOf(q)) && Par() == old(Par())
      ensures CurvePoint(d) && CurveLaw.Point(T, Par()) && Sum(old(PtOf(d)), old(PtOf(d)), T, Par())
      ensures if bit then Sum(T, PtOf(q), PtOf(d), Par()) else PtOf(d) == T
    {
      PointDouble(d, d);
      T := PtOf(d);
      if bit {
        PointAdd(d, d, q);
      }
    }

    method PointMul(d: Point, k: array<u8>, q: Point)
      requires Valid() && Target(d) && CurvePoint(q)
      requires d.x != q.x && d.x != q.y && d.y != q.x && d.y != q.y && d.x != k && d.y != k
      modifies d.x, d.y
      ensures CurvePoint(d) && Times(Val(k[..]), PtOf(q), PtOf(d), Par())
    {
      ghost var kk, B, c := k[..], PtOf(q), Par();
      PointZero(d);
      for i := 0 to k.Length
        invariant Valid() && CurvePoint(q) && PtOf(q) == B && Par() == c && k[..] == kk
        invariant CurvePoint(d) && Times(Val(kk[..i]), B, PtOf(d), c)
      {
        PointMulByte(d, k[i], q, Val(kk[..i]));
        ValSnoc(kk[..i], kk[i]);
        assert kk[..i + 1] == kk[..i] + [kk[i]];
      }
      assert kk[..k.Length] == kk;
    }

    method PointMulByte(d: Point, x: u8, q: Point, ghost e: nat)
      requires Valid() && Target(d) && CurvePoint(d) && CurvePoint(q)
      requires d.x != q.x && d.x != q.y && d.y != q.x && d.y != q.y
      requires Times(e, PtOf(q), PtOf(d), Par())
      modifies d.x, d.y
      ensures Valid() && CurvePoint(q) && PtOf(q) == old(PtOf(q)) && Par() == old(Par())
      ensures CurvePoint(d) && Times(256 * e + x as int, PtOf(q), PtOf(d), Par())
    {
      ghost var E: nat, B, c := e, PtOf(q), Par();
      ghost var v := 256 * e + x as int;
      var mask := 128;
      BitsStart(e, x as int);
      while mask != 0
        invariant BitsRead(E, x as int, mask, v)
        invariant Valid() && CurvePoint(q) && PtOf(q) == B && Par() == c
        invariant CurvePoint(d) && Times(E, B, PtOf(d), c)
      {
        var bit := (x as int / mask) % 2;
        ghost var S := PtOf(d);
        ghost var T := PointMulBit(d, bit == 1, q);
        TimesStep(E, bit, B, S, T, PtOf(d), c);
        BitStep(E, x as int, mask, bit, v);
        E := 2 * E + bit;
        mask := mask / 2;
      }
    }
  }
}
