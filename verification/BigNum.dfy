/** Big-endian multi-precision arithmetic and Montgomery multiplication (rpcs3/Crypto/ec.cpp). */
module BigNum {
  import opened Arith

  newtype u8 = x: int | 0 <= x < 256

  /** The number a big-endian byte string denotes. */
  function Val(s: seq<u8>): nat {
    if s == [] then 0
    else
      PowPos(256, |s| - 1);
      s[0] as nat * Pow(256, |s| - 1) + Val(s[1..])
  }

  lemma ScaleLe(x: int, y: int, p: int)
    requires x <= y && p >= 0
    ensures x * p <= y * p
  {
  }

  lemma Distribute(x: int, y: int, c: int, p: int)
    ensures (x + y + c) * p == x * p + y * p + c * p
    ensures (x - y + c) * p == x * p - y * p + c * p
  {
  }

  lemma {:induction false} ValBound(s: seq<u8>)
    ensures Val(s) < Pow(256, |s|)
  {
    if s != [] {
      ValBound(s[1..]);
      PowPos(256, |s| - 1);
      ScaleLe(s[0] as int, 255, Pow(256, |s| - 1));
    }
  }

  lemma ValSuffix(s: seq<u8>, i: nat)
    requires i < |s|
    ensures Val(s[i..]) == s[i] as nat * Pow(256, |s| - i - 1) + Val(s[i + 1..])
  {
  }

  lemma {:induction false} ValSnoc(s: seq<u8>, x: u8)
    ensures Val(s + [x]) == 256 * Val(s) + x as nat
  {
    if s == [] {
      assert s + [x] == [x];
      assert [x][1..] == [];
      assert Pow(256, 0) == 1;
    } else {
      ValSnoc(s[1..], x);
      assert (s + [x])[1..] == s[1..] + [x];
      assert Pow(256, |s|) == 256 * Pow(256, |s| - 1);
      var h, p := s[0] as int, Pow(256, |s| - 1);
      assert h * (256 * p) == 256 * (h * p);
    }
  }

  lemma {:induction false} ValZeros(s: seq<u8>)
    requires forall i :: 0 <= i < |s| ==> s[i] == 0
    ensures Val(s) == 0
  {
    if s != [] {
      ValZeros(s[1..]);
    }
  }

  lemma {:induction false} ValZeroInv(s: seq<u8>)
    requires Val(s) == 0
    ensures forall i :: 0 <= i < |s| ==> s[i] == 0
  {
    if s != [] {
      PowPos(256, |s| - 1);
      var h, p := s[0] as int, Pow(256, |s| - 1);
      if h >= 1 {
        ScaleLe(1, h, p);
        assert false;
      }
      ValZeroInv(s[1..]);
      forall i | 0 <= i < |s| ensures s[i] == 0 {
        if i > 0 { assert s[i] == s[1..][i - 1]; }
      }
    }
  }

  /** Zero bytes followed by a last byte `x` denote `x`. */
  lemma ValSmall(s: seq<u8>)
    requires |s| > 0 && forall i :: 0 <= i < |s| - 1 ==> s[i] == 0
    ensures Val(s) == s[|s| - 1] as nat
  {
  }

  lemma HeadDecides(x: int, y: int, u: nat, v: nat, p: nat)
    requires x < y && u < p
    ensures x * p + u < y * p + v
  {
    var d := y - x;
    assert d * p == y * p - x * p;
    MulBound(d, p);
  }

  /** The first differing byte decides the order. */
  lemma {:induction false} ValLess(a: seq<u8>, b: seq<u8>, i: nat)
    requires |a| == |b| && i < |a| && a[..i] == b[..i] && a[i] < b[i]
    ensures Val(a) < Val(b)
  {
    var p := Pow(256, |a| - 1);
    if i == 0 {
      ValBound(a[1..]);
      HeadDecides(a[0] as int, b[0] as int, Val(a[1..]), Val(b[1..]), p);
    } else {
      assert a[0] == a[..i][0] == b[..i][0] == b[0];
      assert a[1..][..i - 1] == a[..i][1..];
      assert b[1..][..i - 1] == b[..i][1..];
      ValLess(a[1..], b[1..], i - 1);
    }
  }

  method Compare(a: array<u8>, b: array<u8>) returns (r: int)
    requires a.Length == b.Length
    ensures r == if Val(a[..]) < Val(b[..]) then -1 else if Val(a[..]) > Val(b[..]) then 1 else 0
  {
    for i := 0 to a.Length
      invariant a[..i] == b[..i]
    {
      assert a[..][..i] == a[..i] && b[..][..i] == b[..i];
      if a[i] < b[i] {
        ValLess(a[..], b[..], i);
        return -1;
      }
      if a[i] > b[i] {
        ValLess(b[..], a[..], i);
        return 1;
      }
    }
    assert a[..] == a[..a.Length] == b[..b.Length] == b[..];
    return 0;
  }

  /** Storing the low byte of `dig` in front of suffix `ds` and carrying the rest keeps the weighted sum. */
  lemma PrependDigit(d: seq<u8>, i: nat, ds: seq<u8>, dig: int, p: int)
    requires i < |d| && d[i + 1..] == ds && d[i] as int == dig % 256 && p == Pow(256, |ds|)
    ensures Val(d[i..]) + (dig / 256) * Pow(256, |ds| + 1) == Val(ds) + dig * p
  {
  }

  /** One digit of the addition loop, from the carry `c` into the carry `dig / 256`. */
  lemma AddStep(d: seq<u8>, a: seq<u8>, b: seq<u8>, i: nat, c: int, dig: int, p: int)
    requires |d| == |a| == |b| && i < |a| && p == Pow(256, |a| - i - 1) && 0 <= c <= 1
    requires dig == a[i] as int + b[i] as int + c && d[i] as int == dig % 256
    requires Val(d[i + 1..]) + c * p == Val(a[i + 1..]) + Val(b[i + 1..])
    ensures Val(d[i..]) + (dig / 256) * (256 * p) == Val(a[i..]) + Val(b[i..])
  {
    PrependDigit(d, i, d[i + 1..], dig, p);
    ValSuffix(a, i);
    ValSuffix(b, i);
    Distribute(a[i] as int, b[i] as int, c, p);
  }

  /** One digit of the subtraction loop; the inverted borrow is carried. */
  lemma SubStep(d: seq<u8>, a: seq<u8>, b: seq<u8>, i: nat, c: int, dig: int, p: int)
    requires |d| == |a| == |b| && i < |a| && p == Pow(256, |a| - i - 1) && 0 <= c <= 1
    requires dig == a[i] as int + 255 - b[i] as int + c && d[i] as int == dig % 256
    requires Val(d[i + 1..]) + Val(b[i + 1..]) + c * p == Val(a[i + 1..]) + p
    ensures Val(d[i..]) + Val(b[i..]) + (dig / 256) * (256 * p) == Val(a[i..]) + 256 * p
  {
    PrependDigit(d, i, d[i + 1..], dig, p);
    ValSuffix(a, i);
    ValSuffix(b, i);
    Distribute(a[i] as int, b[i] as int, 255 + c, p);
    Distribute(255, 0, c, p);
  }

  method AddCarry(d: array<u8>, a: array<u8>, b: array<u8>) returns (c: u8)
    requires d.Length == a.Length == b.Length
    modifies d
    ensures c <= 1
    ensures Val(d[..]) + (if c == 0 then 0 else Pow(256, d.Length)) == old(Val(a[..])) + old(Val(b[..]))
  {
    ghost var n := d.Length;
    ghost var aa, bb := a[..], b[..];
    c := 0;
    var i := d.Length;
    while i > 0
      invariant 0 <= i <= n && c <= 1
      invariant a[..i] == aa[..i] && b[..i] == bb[..i]
      invariant Val(d[..][i..]) + c as int * Pow(256, n - i) == Val(aa[i..]) + Val(bb[i..])
    {
      ghost var ds, c0 := d[..][i..], c as int;
      i := i - 1;
      assert a[i] == aa[i] && b[i] == bb[i];
      var dig := a[i] as int + b[i] as int + c as int;
      c := (dig / 256) as u8;
      d[i] := (dig % 256) as u8;
      assert d[..][i + 1..] == ds;
      AddStep(d[..], aa, bb, i, c0, dig, Pow(256, n - i - 1));
    }
    assert d[..][0..] == d[..] && aa[0..] == aa && bb[0..] == bb;
  }

  method SubBorrow(d: array<u8>, a: array<u8>, b: array<u8>) returns (borrow: u8)
    requires d.Length == a.Length == b.Length
    modifies d
    ensures borrow <= 1
    ensures Val(d[..]) == old(Val(a[..])) - old(Val(b[..])) + (if borrow == 0 then 0 else Pow(256, d.Length))
    ensures borrow == 1 <==> old(Val(a[..])) < old(Val(b[..]))
  {
    ghost var n := d.Length;
    ghost var aa, bb := a[..], b[..];
    var c: u8 := 1;
    var i := d.Length;
    while i > 0
      invariant 0 <= i <= n && c <= 1
      invariant a[..i] == aa[..i] && b[..i] == bb[..i]
      invariant Val(d[..][i..]) + Val(bb[i..]) + c as int * Pow(256, n - i) == Val(aa[i..]) + Pow(256, n - i)
    {
      ghost var ds, c0 := d[..][i..], c as int;
      i := i - 1;
      assert a[i] == aa[i] && b[i] == bb[i];
      var dig := a[i] as int + 255 - b[i] as int + c as int;
      c := (dig / 256) as u8;
      d[i] := (dig % 256) as u8;
      assert d[..][i + 1..] == ds;
      SubStep(d[..], aa, bb, i, c0, dig, Pow(256, n - i - 1));
    }
    assert d[..][0..] == d[..] && aa[0..] == aa && bb[0..] == bb;
    ValBound(d[..]);
    ValBound(aa);
    ValBound(bb);
    return 1 - c;
  }

  /** Subtracts `N` once when the value is not below it. */
  method Reduce(d: array<u8>, N: array<u8>)
    requires d.Length == N.Length && d != N
    modifies d
    ensures Val(d[..]) == if old(Val(d[..])) >= Val(N[..]) then old(Val(d[..])) - Val(N[..]) else old(Val(d[..]))
  {
    var r := Compare(d, N);
    if r >= 0 {
      var _ := SubBorrow(d, d, N);
    }
  }

  method Add(d: array<u8>, a: array<u8>, b: array<u8>, N: array<u8>)
    requires d.Length == a.Length == b.Length == N.Length && d != N
    requires Val(a[..]) < Val(N[..]) && Val(b[..]) < Val(N[..])
    modifies d
    ensures Val(d[..]) == (old(Val(a[..])) + old(Val(b[..]))) % Val(N[..])
  {
    ghost var x: int, y: int, m: int := Val(a[..]), Val(b[..]), Val(N[..]);
    var c := AddCarry(d, a, b);
    ValBound(d[..]);
    ValBound(N[..]);
    if c != 0 {
      var _ := SubBorrow(d, d, N);
      ValBound(d[..]);
    }
    Reduce(d, N);
    DivUnique(x + y, if x + y >= m then 1 else 0, if x + y >= m then x + y - m else x + y, m);
  }

  method Sub(d: array<u8>, a: array<u8>, b: array<u8>, N: array<u8>)
    requires d.Length == a.Length == b.Length == N.Length && d != N
    requires Val(a[..]) < Val(N[..]) && Val(b[..]) < Val(N[..])
    modifies d
    ensures Val(d[..]) == (old(Val(a[..])) - old(Val(b[..]))) % Val(N[..])
  {
    ghost var x: int, y: int, m: int := Val(a[..]), Val(b[..]), Val(N[..]);
    var c := SubBorrow(d, a, b);
    ValBound(N[..]);
    if c != 0 {
      var _ := AddCarry(d, d, N);
      ValBound(d[..]);
    }
    DivUnique(x - y, if x < y then -1 else 0, if x < y then x - y + m else x - y, m);
  }
}
