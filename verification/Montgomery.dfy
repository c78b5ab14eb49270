/** Montgomery multiplication, exponentiation and inversion over byte strings (rpcs3/Crypto/ec.cpp). */
module Montgomery {
  import opened Arith
  import opened BigNum
  import opened InverseTable

  /** The digit `z` for which `x + m * z` ends in a zero byte. */
  function QuotientDigit(x: int, m: u8): (z: u8)
    requires m % 2 == 1
    ensures (x + m as int * z as int) % 256 == 0
  {
    var y := Inverse256(m) as int;
    var z := (-x * y) % 256;
    QuotientDigitCancels(x, m as int, y, z);
    z as u8
  }

  lemma QuotientDigitCancels(x: int, m: int, y: int, z: int)
    requires (y * m) % 256 == 1 && z == (-x * y) % 256
    ensures (x + m * z) % 256 == 0
  {
    CongMod(-x * y, 256);
    CongMul(z, -x * y, m, m, 256);
    CongMod(y * m, 256);
    CongMul(y * m, 1, -x, -x, 256);
    assert (-x * y) * m == (y * m) * (-x);
    CongTrans(z * m, (y * m) * (-x), 1 * (-x), 256);
    assert z * m - (-x) == x + m * z;
  }

  /** The accumulator of one digit step, restricted to the bytes from index `i` on. */
  function Partial(d: seq<u8>, a: seq<u8>, b: int, N: seq<u8>, z: int, i: nat): int
    requires |d| == |a| == |N| && i <= |d|
  {
    Val(d[i..]) + Val(a[i..]) * b + Val(N[i..]) * z
  }

  lemma PartialStep(d: seq<u8>, a: seq<u8>, b: int, N: seq<u8>, z: int, i: nat)
    requires |d| == |a| == |N| && i < |d|
    ensures Partial(d, a, b, N, z, i)
         == (d[i] as int + a[i] as int * b + N[i] as int * z) * Pow(256, |d| - i - 1) + Partial(d, a, b, N, z, i + 1)
  {
    ValSuffix(d, i);
    ValSuffix(a, i);
    ValSuffix(N, i);
    var p := Pow(256, |d| - i - 1);
    ScaledSum(a[i] as int, p, Val(a[i + 1..]), b);
    ScaledSum(N[i] as int, p, Val(N[i + 1..]), z);
    Distribute(d[i] as int, 0, a[i] as int * b + N[i] as int * z, p);
    Distribute(a[i] as int * b, 0, N[i] as int * z, p);
  }

  lemma ScaledSum(x: int, p: int, v: int, b: int)
    ensures (x * p + v) * b == (x * b) * p + v * b
  {
  }

  /** One inner-loop iteration: byte `i` is accumulated and the finished digit lands one place lower. */
  lemma DigitLoopStep(d0: seq<u8>, a: seq<u8>, b: int, N: seq<u8>, z: int, d: seq<u8>, i: nat, dig: int, sum: int)
    requires |d0| == |a| == |N| == |d| && i + 1 < |d|
    requires Partial(d0, a, b, N, z, i + 1) == 256 * (Val(d[i + 2..]) + dig * Pow(256, |d| - i - 2))
    requires sum == dig + d0[i] as int + a[i] as int * b + N[i] as int * z && d[i + 1] as int == sum % 256
    ensures Partial(d0, a, b, N, z, i) == 256 * (Val(d[i + 1..]) + (sum / 256) * Pow(256, |d| - i - 1))
  {
    var p := Pow(256, |d| - i - 2);
    PartialStep(d0, a, b, N, z, i);
    PrependDigit(d, i + 1, d[i + 2..], sum, p);
    var t := d0[i] as int + a[i] as int * b + N[i] as int * z;
    DigitAlgebra(dig, t, p);
  }

  lemma DigitAlgebra(dig: int, t: int, p: int)
    ensures (dig + t) * p == dig * p + t * p && t * (256 * p) == 256 * (t * p)
  {
  }

  /** The accumulator stays below twice the modulus, so one subtraction reduces it. */
  lemma DigitBound(d: int, a: int, b: int, m: int, z: int, v: int)
    requires 0 <= d < m && 0 <= a < m && 0 <= b < 256 && 0 <= z < 256
    requires d + a * b + m * z == 256 * v
    ensures 0 <= v < 2 * m
  {
    ScaleLe(a, m - 1, b);
    ScaleLe(b, 255, m - 1);
    ScaleLe(z, 255, m);
    assert m * z == z * m;
    assert (m - 1) * b == b * (m - 1);
    ScaleLe(0, a, b);
    ScaleLe(0, z, m);
  }

  lemma OddLastByte(s: seq<u8>)
    requires |s| > 0 && Val(s) % 2 == 1
    ensures s[|s| - 1] % 2 == 1
  {
    var h, x := s[..|s| - 1], s[|s| - 1];
    assert s == h + [x];
    ValSnoc(h, x);
    assert (256 * Val(h) + x as int) % 2 == x as int % 2;
  }

  /** The carry loop: `d` and the returned carry hold `(d + a * b + N * z) / 256`, which is exact. */
  method Accumulate(d: array<u8>, a: array<u8>, b: u8, N: array<u8>) returns (carry: int, z: u8)
    requires d.Length == a.Length == N.Length > 0 && d != a && d != N && Val(N[..]) % 2 == 1
    modifies d
    ensures old(Val(d[..])) + Val(a[..]) * b as int + Val(N[..]) * z as int
         == 256 * (Val(d[..]) + carry * Pow(256, d.Length))
  {
    var n := d.Length;
    ghost var d0, a0, N0 := d[..], a[..], N[..];
    OddLastByte(N[..]);
    z := QuotientDigit(d[n - 1] as int + a[n - 1] as int * b as int, N[n - 1]);
    var dig := (d[n - 1] as int + a[n - 1] as int * b as int + N[n - 1] as int * z as int) / 256;
    PartialStep(d0, a0, b as int, N0, z as int, n - 1);
    assert Partial(d0, a0, b as int, N0, z as int, n) == 0;
    var i := n - 1;
    while i > 0
      invariant 0 <= i < n
      invariant d[..i + 1] == d0[..i + 1]
      invariant Partial(d0, a0, b as int, N0, z as int, i) == 256 * (Val(d[..][i + 1..]) + dig * Pow(256, n - i - 1))
    {
      i := i - 1;
      ghost var rest, dig0 := d[..][i + 2..], dig;
      assert d[i] == d0[i];
      var sum := dig + d[i] as int + a[i] as int * b as int + N[i] as int * z as int;
      d[i + 1] := (sum % 256) as u8;
      dig := sum / 256;
      assert d[..][i + 2..] == rest;
      DigitLoopStep(d0, a0, b as int, N0, z as int, d[..], i, dig0, sum);
    }
    ghost var rest := d[..][1..];
    d[0] := (dig % 256) as u8;
    assert d[..][1..] == rest && d[..][0..] == d[..] && d0[0..] == d0 && a0[0..] == a0 && N0[0..] == N0;
    PrependDigit(d[..], 0, rest, dig, Pow(256, n - 1));
    carry := dig / 256;
  }

  method MulAddDigit(d: array<u8>, a: array<u8>, b: u8, N: array<u8>)
    requires d.Length == a.Length == N.Length > 0 && d != a && d != N
    requires Val(N[..]) % 2 == 1 && Val(a[..]) < Val(N[..]) && Val(d[..]) < Val(N[..])
    modifies d
    ensures Val(d[..]) < Val(N[..])
    ensures Cong(256 * Val(d[..]), old(Val(d[..])) + Val(a[..]) * b as int, Val(N[..]))
  {
    ghost var x, m, p := Val(d[..]), Val(N[..]), Pow(256, d.Length);
    var dig, z := Accumulate(d, a, b, N);
    ghost var v := Val(d[..]) + dig * p;
    DigitBound(x, Val(a[..]), b as int, m, z as int, v);
    ValBound(d[..]);
    ValBound(N[..]);
    MulBound(dig, p);
    MulBound(dig - 1, p);
    assert (dig - 1) * p == dig * p - p;
    if dig != 0 {
      assert dig == 1;
      var _ := SubBorrow(d, d, N);
      assert Val(d[..]) == v - m;
    }
    Reduce(d, N);
    DigitCong(Val(d[..]), v, x + Val(a[..]) * b as int, z as int, m);
  }

  lemma DigitCong(r: int, v: int, x: int, z: int, m: int)
    requires m > 0 && (r == v || r == v - m) && x + m * z == 256 * v
    ensures Cong(256 * r, x, m)
  {
    var k := if r == v then z else z - 256;
    assert k * m == m * z - (if r == v then 0 else 256 * m);
    CongIntro(256 * r, x, k, m);
  }

  // ---------------------------------------------------------------- residues behind Montgomery forms

  lemma {:induction false} PowEight(n: nat)
    ensures Pow(2, 8 * n) == Pow(256, n)
  {
    if n > 0 {
      PowEight(n - 1);
      PowAdd(2, 8, 8 * (n - 1));
      assert Pow(2, 8) == 256;
    }
  }

  lemma {:induction false} CancelTwos(x: int, m: int, k: nat)
    requires m > 0 && m % 2 == 1 && Cong(x * Pow(2, k), 0, m)
    ensures Cong(x, 0, m)
    decreases k
  {
    if k > 0 {
      assert x * Pow(2, k) == 2 * x * Pow(2, k - 1);
      CancelTwos(2 * x, m, k - 1);
      var q := CongElim(2 * x, 0, m);
      EvenCofactor(q, m, x);
      assert x == (q / 2) * m;
      CongIntro(x, 0, q / 2, m);
    }
  }

  lemma EvenCofactor(q: int, m: int, x: int)
    requires m % 2 == 1 && q * m == 2 * x
    ensures q % 2 == 0 && x == (q / 2) * m
  {
    var h := m / 2;
    assert q * m == 2 * (q * h) + q;
    assert q == 2 * (x - q * h);
    assert (q / 2) * m * 2 == q * m;
  }

  /** The radix can be cancelled from a congruence modulo an odd number. */
  lemma CancelRadix(x: int, y: int, m: int, n: nat)
    requires m > 0 && m % 2 == 1 && Cong(x * Pow(256, n), y * Pow(256, n), m)
    ensures Cong(x, y, m)
  {
    PowEight(n);
    assert (x - y) * Pow(2, 8 * n) == x * Pow(256, n) - y * Pow(256, n);
    CancelTwos(x - y, m, 8 * n);
  }

  /** `v` is congruent to the Montgomery form of `t`. */
  predicate MonForm(t: int, v: int, m: int, n: nat)
    requires m > 0
  {
    Cong(t * Pow(256, n), v, m)
  }

  /** `r` is the residue to which every number with Montgomery form `v` is congruent. */
  ghost predicate IsPlain(r: int, v: int, m: int, n: nat)
    requires m > 0
  {
    0 <= r < m && forall t :: MonForm(t, v, m, n) ==> Cong(t, r, m)
  }

  /** A number with the given Montgomery form: `Half(m)^(8n)` inverts the radix `256^n`. */
  lemma SomeMonForm(v: int, m: int, n: nat) returns (t: int)
    requires m > 0 && m % 2 == 1
    ensures 0 <= t < m && MonForm(t, v, m, n)
  {
    var R, I := Pow(256, n), Pow((m + 1) / 2, 8 * n);
    RadixInverse(m, n);
    t := (v * I) % m;
    CongMod(v * I, m);
    CongRefl(R, m);
    CongMul(t, v * I, R, R, m);
    CongRefl(v, m);
    CongMul(R * I, 1, v, v, m);
    assert v * I * R == R * I * v;
    CongTrans(t * R, R * I * v, v, m);
  }

  lemma RadixInverse(m: int, n: nat)
    requires m > 0 && m % 2 == 1
    ensures Cong(Pow(256, n) * Pow((m + 1) / 2, 8 * n), 1, m)
  {
    var h := (m + 1) / 2;
    PowEight(n);
    PowMulBase(2, h, 8 * n);
    CongIntro(2 * h, 1, 1, m);
    PowCong(2 * h, 1, 8 * n, m);
    PowOne(8 * n);
  }

  lemma {:induction false} PowOne(e: nat)
    ensures Pow(1, e) == 1
  {
    if e > 0 {
      PowOne(e - 1);
    }
  }

  lemma MonFormUnique(t: int, u: int, v: int, m: int, n: nat)
    requires m > 0 && m % 2 == 1 && MonForm(t, v, m, n) && MonForm(u, v, m, n)
    ensures Cong(t, u, m)
  {
    CongSym(u * Pow(256, n), v, m);
    CongTrans(t * Pow(256, n), v, u * Pow(256, n), m);
    CancelRadix(t, u, m, n);
  }

  lemma PlainExists(v: int, m: int, n: nat)
    requires m > 0 && m % 2 == 1
    ensures exists r :: IsPlain(r, v, m, n)
  {
    var r := SomeMonForm(v, m, n);
    forall t | MonForm(t, v, m, n) ensures Cong(t, r, m) {
      MonFormUnique(t, r, v, m, n);
    }
    assert IsPlain(r, v, m, n);
  }

  /** The residue that the Montgomery form `v` stands for: `v / 256^n` modulo `m`. */
  ghost function Plain(v: int, m: int, n: nat): (r: int)
    requires m > 0 && m % 2 == 1
    ensures 0 <= r < m
  {
    PlainExists(v, m, n);
    var r :| IsPlain(r, v, m, n);
    r
  }

  lemma PlainSpec(v: int, m: int, n: nat)
    requires m > 0 && m % 2 == 1
    ensures Cong(Plain(v, m, n) * Pow(256, n), v, m)
  {
    var t := SomeMonForm(v, m, n);
    var r, R := Plain(v, m, n), Pow(256, n);
    assert IsPlain(r, v, m, n);
    CongSym(t, r, m);
    CongRefl(R, m);
    CongMul(r, t, R, R, m);
    CongTrans(r * R, t * R, v, m);
  }

  /** `Plain` is the only residue whose Montgomery form is `v`. */
  lemma PlainUnique(x: int, v: int, m: int, n: nat)
    requires m > 0 && m % 2 == 1 && Cong(x * Pow(256, n), v, m)
    ensures Plain(v, m, n) == x % m
  {
    var r := Plain(v, m, n);
    assert MonForm(x, v, m, n) && IsPlain(r, v, m, n);
    CongToMod(x, r, m);
    DivUnique(r, 0, r, m);
  }

  /** Distinct reduced Montgomery forms stand for distinct residues. */
  lemma PlainInjective(u: int, v: int, m: int, n: nat)
    requires m > 0 && m % 2 == 1 && 0 <= u < m && 0 <= v < m
    requires Plain(u, m, n) == Plain(v, m, n)
    ensures u == v
  {
    var x := Plain(u, m, n) * Pow(256, n);
    PlainSpec(u, m, n);
    PlainSpec(v, m, n);
    CongSym(x, u, m);
    CongTrans(u, x, v, m);
    CongSmall(u, v, m);
  }

  // ---------------------------------------------------------------- multiplication

  /** There is exactly one `t` below an odd `m` with `t * 256^n` congruent to `x`. */
  lemma MonProductUnique(t: int, u: int, x: int, m: int, n: nat)
    requires m > 0 && m % 2 == 1 && 0 <= t < m && 0 <= u < m
    requires Cong(t * Pow(256, n), x, m) && Cong(u * Pow(256, n), x, m)
    ensures t == u
  {
    CongSym(u * Pow(256, n), x, m);
    CongTrans(t * Pow(256, n), x, u * Pow(256, n), m);
    CancelRadix(t, u, m, n);
    CongSmall(t, u, m);
  }

  /** Multiplier digit `b[i]` is absorbed after the digits to its right. */
  lemma MulLoopStep(t1: int, t0: int, a: int, b: seq<u8>, i: nat, m: int)
    requires m > 0 && i < |b|
    requires Cong(t0 * Pow(256, |b| - i - 1), a * Val(b[i + 1..]), m) && Cong(256 * t1, t0 + a * b[i] as int, m)
    ensures Cong(t1 * Pow(256, |b| - i), a * Val(b[i..]), m)
  {
    ValSuffix(b, i);
    var p, bi, bs := Pow(256, |b| - i - 1), b[i] as int, Val(b[i + 1..]);
    CongMul(256 * t1, t0 + a * bi, p, p, m);
    CongRefl(a * bi * p, m);
    CongAdd(t0 * p, a * bs, a * bi * p, a * bi * p, m);
    MulLoopAlgebra(t1, t0, a, bi, bs, p);
    CongTrans(t1 * (256 * p), t0 * p + a * bi * p, a * (bi * p + bs), m);
  }

  lemma MulLoopAlgebra(t1: int, t0: int, a: int, bi: int, bs: int, p: int)
    ensures 256 * t1 * p == t1 * (256 * p)
    ensures (t0 + a * bi) * p == t0 * p + a * bi * p
    ensures a * (bi * p + bs) == a * bs + a * bi * p
  {
  }

  lemma MulLoopStart(t: int, a: int, b: seq<u8>, m: int)
    requires m > 0 && t == 0
    ensures Cong(t * Pow(256, 0), a * Val(b[|b|..]), m)
  {
  }

  method MonMul(d: array<u8>, a: array<u8>, b: array<u8>, N: array<u8>)
    requires d.Length == a.Length == b.Length == N.Length > 0 && d != N
    requires Val(N[..]) % 2 == 1 && Val(a[..]) < Val(N[..])
    modifies d
    ensures Val(d[..]) < Val(N[..])
    ensures Cong(Val(d[..]) * Pow(256, d.Length), old(Val(a[..])) * old(Val(b[..])), Val(N[..]))
  {
    var n := d.Length;
    ghost var aa, bb, m := Val(a[..]), b[..], Val(N[..]);
    var t := new u8[n](_ => 0);
    ValZeros(t[..]);
    MulLoopStart(Val(t[..]), aa, bb, m);
    var i := n;
    while i > 0
      modifies t
      invariant 0 <= i <= n && Val(t[..]) < m
      invariant a[..] == old(a[..]) && b[..] == bb && N[..] == old(N[..])
      invariant Cong(Val(t[..]) * Pow(256, n - i), aa * Val(bb[i..]), m)
    {
      ghost var t0 := Val(t[..]);
      i := i - 1;
      MulAddDigit(t, a, b[i], N);
      MulLoopStep(Val(t[..]), t0, aa, bb, i, m);
    }
    assert bb[0..] == bb;
    Copy(d, t);
  }

  method Copy(d: array<u8>, s: array<u8>)
    requires d.Length == s.Length
    modifies d
    ensures d[..] == old(s[..])
  {
    forall j | 0 <= j < d.Length {
      d[j] := s[j];
    }
  }

  lemma RegroupRadix(x: int, y: int, R: int)
    ensures x * R * (y * R) == (x * y * R) * R
  {
  }

  /** On the residues, Montgomery multiplication is multiplication. */
  lemma MonMulPlain(d: int, a: int, b: int, m: int, n: nat)
    requires m > 0 && m % 2 == 1 && Cong(d * Pow(256, n), a * b, m)
    ensures Plain(d, m, n) == (Plain(a, m, n) * Plain(b, m, n)) % m
  {
    var R, x, y := Pow(256, n), Plain(a, m, n), Plain(b, m, n);
    PlainSpec(a, m, n);
    PlainSpec(b, m, n);
    CongMul(x * R, a, y * R, b, m);
    CongSym(d * R, a * b, m);
    CongTrans(x * R * (y * R), a * b, d * R, m);
    RegroupRadix(x, y, R);
    CancelRadix(x * y * R, d, m, n);
    PlainUnique(x * y, d, m, n);
  }

  // ---------------------------------------------------------------- conversions

  lemma DoubleStep(v: int, x: int, i: nat, m: int)
    requires m > 0 && Cong(v, x * Pow(2, i), m)
    ensures Cong((v + v) % m, x * Pow(2, i + 1), m)
  {
    CongMod(v + v, m);
    CongAdd(v, x * Pow(2, i), v, x * Pow(2, i), m);
    assert x * Pow(2, i) + x * Pow(2, i) == x * Pow(2, i + 1);
    CongTrans((v + v) % m, v + v, x * Pow(2, i + 1), m);
  }

  method ToMon(d: array<u8>, N: array<u8>)
    requires d.Length == N.Length > 0 && d != N
    requires Val(d[..]) < Val(N[..])
    modifies d
    ensures Val(d[..]) == (old(Val(d[..])) * Pow(256, d.Length)) % Val(N[..])
  {
    ghost var x, m := Val(d[..]), Val(N[..]);
    var k := 8 * d.Length;
    CongRefl(x, m);
    assert x * Pow(2, 0) == x;
    for i := 0 to k
      invariant Val(d[..]) < m && Cong(Val(d[..]), x * Pow(2, i), m)
    {
      ghost var v := Val(d[..]);
      Add(d, d, d, N);
      DoubleStep(v, x, i, m);
    }
    PowEight(d.Length);
    CongToMod(Val(d[..]), x * Pow(256, d.Length), m);
    DivUnique(Val(d[..]), 0, Val(d[..]), m);
  }

  method FromMon(d: array<u8>, N: array<u8>)
    requires d.Length == N.Length > 0 && d != N
    requires Val(N[..]) % 2 == 1 && Val(d[..]) < Val(N[..])
    modifies d
    ensures Val(d[..]) == Plain(old(Val(d[..])), Val(N[..]), d.Length)
  {
    var n := d.Length;
    ghost var x, m := Val(d[..]), Val(N[..]);
    var t := new u8[n](_ => 0);
    t[n - 1] := 1;
    ValSmall(t[..]);
    MonMul(d, d, t, N);
    PlainUnique(Val(d[..]), x, m, n);
    DivUnique(Val(d[..]), 0, Val(d[..]), m);
  }

  /** Converting to Montgomery form and back is the identity on residues. */
  lemma ConversionRoundTrip(x: int, m: int, n: nat)
    requires m % 2 == 1 && 0 <= x < m
    ensures Plain((x * Pow(256, n)) % m, m, n) == x
    ensures (Plain(x, m, n) * Pow(256, n)) % m == x
  {
    var R := Pow(256, n);
    CongMod(x * R, m);
    PlainUnique(x, (x * R) % m, m, n);
    DivUnique(x, 0, x, m);
    PlainSpec(x, m, n);
    CongToMod(Plain(x, m, n) * R, x, m);
  }
}
