/** Montgomery exponentiation and Fermat inversion (rpcs3/Crypto/ec.cpp). */
module MonExp {
  import opened Arith
  import opened BigNum
  import opened Montgomery

  lemma SquareStep(v: int, x: int, e: nat, m: int)
    requires m > 0 && v == Pow(x, e) % m
    ensures (v * v) % m == Pow(x, 2 * e) % m
  {
    CongMod(Pow(x, e), m);
    CongMul(v, Pow(x, e), v, Pow(x, e), m);
    PowAdd(x, e, e);
    CongToMod(v * v, Pow(x, 2 * e), m);
  }

  lemma TimesStep(v: int, x: int, e: nat, m: int)
    requires m > 0 && v == Pow(x, e) % m
    ensures (v * x) % m == Pow(x, e + 1) % m
  {
    CongMod(Pow(x, e), m);
    CongRefl(x, m);
    CongMul(v, Pow(x, e), x, x, m);
    CongToMod(v * x, Pow(x, e + 1), m);
  }

  predicate IsMask(mask: int) {
    mask in {0, 1, 2, 4, 8, 16, 32, 64, 128}
  }

  /** `e` is what the bits of `x` above `mask` turn the exponent into on the way to `v`. */
  predicate BitsRead(e: int, x: int, mask: int, v: int) {
    IsMask(mask) && if mask == 0 then e == v else e * (2 * mask) + x % (2 * mask) == v
  }

  lemma BitsStart(e: int, x: int)
    requires 0 <= x < 256
    ensures BitsRead(e, x, 128, 256 * e + x)
  {
    assert x % (2 * 128) == x;
  }

  lemma BitStep(e: int, x: int, mask: int, bit: int, v: int)
    requires BitsRead(e, x, mask, v) && mask != 0 && 0 <= x < 256 && bit == (x / mask) % 2
    ensures BitsRead(2 * e + bit, x, mask / 2, v)
  {
    BitSplit(x, mask);
    assert (2 * e + bit) * mask == e * (2 * mask) + bit * mask;
    assert mask > 1 ==> 2 * (mask / 2) == mask;
  }

  lemma BitSplit(x: int, mask: int)
    requires mask > 0
    ensures x % (2 * mask) == ((x / mask) % 2) * mask + x % mask
  {
    var q, r := x / mask, x % mask;
    var h, b := q / 2, q % 2;
    assert q * mask == h * (2 * mask) + b * mask by {
      assert (2 * h + b) * mask == h * (2 * mask) + b * mask;
    }
    DivUnique(x, h, b * mask + r, 2 * mask);
  }

  /** Square, and multiply by `a` when the bit is set. */
  method ExpBit(d: array<u8>, a: array<u8>, N: array<u8>, bit: bool, ghost e: nat)
    requires d.Length == a.Length == N.Length > 0 && d != N && d != a
    requires Val(N[..]) % 2 == 1 && Val(d[..]) < Val(N[..])
    requires var m, n := Val(N[..]), d.Length;
             Plain(Val(d[..]), m, n) == Pow(Plain(Val(a[..]), m, n), e) % m
    modifies d
    ensures Val(d[..]) < Val(N[..])
    ensures var m, n := Val(N[..]), d.Length;
            Plain(Val(d[..]), m, n) == Pow(Plain(Val(a[..]), m, n), 2 * e + if bit then 1 else 0) % m
  {
    ghost var m, n, x, v := Val(N[..]), d.Length, Plain(Val(a[..]), Val(N[..]), d.Length), Val(d[..]);
    ghost var a0, N0 := a[..], N[..];
    var t := new u8[d.Length];
    MonMul(t, d, d, N);
    assert a[..] == a0 && N[..] == N0;
    ghost var w := Val(t[..]);
    MonMulPlain(w, v, v, m, n);
    SquareStep(Plain(v, m, n), x, e, m);
    if bit {
      MonMul(d, t, a, N);
      assert a[..] == a0 && N[..] == N0;
      MonMulPlain(Val(d[..]), w, Val(a[..]), m, n);
      TimesStep(Plain(w, m, n), x, 2 * e, m);
    } else {
      Copy(d, t);
    }
  }

  /** The eight bits of one exponent byte, most significant first. */
  method ExpByte(d: array<u8>, a: array<u8>, N: array<u8>, x: u8, ghost e: nat)
    requires d.Length == a.Length == N.Length > 0 && d != N && d != a
    requires Val(N[..]) % 2 == 1 && Val(d[..]) < Val(N[..])
    requires var m, n := Val(N[..]), d.Length;
             Plain(Val(d[..]), m, n) == Pow(Plain(Val(a[..]), m, n), e) % m
    modifies d
    ensures Val(d[..]) < Val(N[..])
    ensures var m, n := Val(N[..]), d.Length;
            Plain(Val(d[..]), m, n) == Pow(Plain(Val(a[..]), m, n), 256 * e + x as int) % m
  {
    ghost var m, n, a0, N0, v := Val(N[..]), d.Length, a[..], N[..], 256 * e + x as int;
    ghost var E: nat := e;
    var mask := 128;
    BitsStart(e, x as int);
    while mask != 0
      invariant BitsRead(E, x as int, mask, v)
      invariant a[..] == a0 && N[..] == N0 && Val(d[..]) < m
      invariant Plain(Val(d[..]), m, n) == Pow(Plain(Val(a0), m, n), E) % m
    {
      var bit := (x as int / mask) % 2;
      ExpBit(d, a, N, bit == 1, E);
      BitStep(E, x as int, mask, bit, v);
      assert a[..] == a0 && N[..] == N0;
      E := 2 * E + bit;
      mask := mask / 2;
    }
  }

  method MonPow(d: array<u8>, a: array<u8>, N: array<u8>, e: array<u8>)
    requires d.Length == a.Length == N.Length > 0 && d != N && d != a && d != e
    requires Val(N[..]) % 2 == 1 && Val(N[..]) > 1
    modifies d
    ensures Val(d[..]) < Val(N[..])
    ensures var m, n := Val(N[..]), d.Length;
            Plain(Val(d[..]), m, n) == Pow(Plain(Val(a[..]), m, n), Val(e[..])) % m
  {
    var n := d.Length;
    ghost var m, a0, N0, ee := Val(N[..]), a[..], N[..], e[..];
    SetSmall(d, 1);
    assert N[..] == N0;
    ToMon(d, N);
    assert N[..] == N0 && a[..] == a0 && e[..] == ee;
    ConversionRoundTrip(1, m, n);
    DivUnique(1, 0, 1, m);
    for i := 0 to e.Length
      invariant a[..] == a0 && N[..] == N0 && e[..] == ee && Val(d[..]) < m
      invariant Plain(Val(d[..]), m, n) == Pow(Plain(Val(a0), m, n), Val(ee[..i])) % m
    {
      ExpByte(d, a, N, e[i], Val(ee[..i]));
      assert a[..] == a0 && N[..] == N0 && e[..] == ee;
      ValSnoc(ee[..i], ee[i]);
      assert ee[..i + 1] == ee[..i] + [ee[i]];
    }
    assert ee[..e.Length] == ee;
  }

  /** Zeroes the number and stores `x` in its last byte. */
  method SetSmall(d: array<u8>, x: u8)
    requires d.Length > 0
    modifies d
    ensures Val(d[..]) == x as int
  {
    forall j | 0 <= j < d.Length {
      d[j] := 0;
    }
    d[d.Length - 1] := x;
    ValSmall(d[..]);
  }

  /** Raises to `N - 2`. The product with the argument is the argument to the power `N - 1`. */
  method MonInv(d: array<u8>, a: array<u8>, N: array<u8>)
    requires d.Length == a.Length == N.Length > 0 && d != N && d != a
    requires Val(N[..]) % 2 == 1 && Val(N[..]) > 1
    modifies d
    ensures Val(d[..]) < Val(N[..])
    ensures var m, n := Val(N[..]), d.Length;
            Plain(Val(d[..]), m, n) == Pow(Plain(Val(a[..]), m, n), m - 2) % m
  {
    var n := d.Length;
    ghost var a0, N0 := a[..], N[..];
    var t, s := new u8[n], new u8[n];
    SetSmall(s, 2);
    assert a[..] == a0 && N[..] == N0;
    var _ := SubBorrow(t, N, s);
    assert a[..] == a0 && N[..] == N0;
    MonPow(d, a, N, t);
  }

  /** An inverse results whenever `x^(m-1)` is congruent to one. */
  lemma FermatInverse(x: int, m: int)
    requires m > 1 && Cong(Pow(x, m - 1), 1, m)
    ensures Cong(x * (Pow(x, m - 2) % m), 1, m)
  {
    CongRefl(x, m);
    CongMod(Pow(x, m - 2), m);
    CongMul(x, x, Pow(x, m - 2) % m, Pow(x, m - 2), m);
    CongTrans(x * (Pow(x, m - 2) % m), Pow(x, m - 1), 1, m);
  }
}
