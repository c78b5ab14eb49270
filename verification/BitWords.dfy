/** Machine words as bit sequences, least significant bit first, with the operations the CRC code uses. */
module BitWords {

  type Word = seq<bool>

  function Zero(n: nat): (z: Word)
    ensures |z| == n
  {
    seq(n, i => false)
  }

  function Xor(a: Word, b: Word): (r: Word)
    requires |a| == |b|
    ensures |r| == |a|
  {
    seq(|a|, i requires 0 <= i < |a| => a[i] != b[i])
  }

  /** Bits shifted past the end of the word are lost. */
  function Shl(a: Word, k: nat): (r: Word)
    ensures |r| == |a|
  {
    seq(|a|, i requires 0 <= i < |a| => if i >= k then a[i - k] else false)
  }

  function Shr(a: Word, k: nat): (r: Word)
    ensures |r| == |a|
  {
    seq(|a|, i requires 0 <= i < |a| => if i + k < |a| then a[i + k] else false)
  }

  /** The word with all but its n lowest bits cleared. */
  function Low(a: Word, n: nat): (r: Word)
    ensures |r| == |a|
  {
    seq(|a|, i requires 0 <= i < |a| => i < n && a[i])
  }

  /** One bit times a word. */
  function Times(bit: bool, a: Word): (r: Word)
    ensures |r| == |a|
  {
    if bit then a else Zero(|a|)
  }

  /** The n lowest bits in reverse order. */
  function Reversed(a: Word, n: nat): (r: Word)
    requires n <= |a|
    ensures |r| == |a|
  {
    seq(|a|, i requires 0 <= i < |a| => i < n && a[n - 1 - i])
  }

  /** The word's value fits in n bits. */
  predicate Fits(a: Word, n: nat) {
    forall i :: n <= i < |a| ==> !a[i]
  }

  /** The two words agree on their n lowest bits. */
  predicate LowEq(a: Word, b: Word, n: nat) {
    |a| == |b| && forall i :: 0 <= i < n && i < |a| ==> a[i] == b[i]
  }

  // ---------------------------------------------------------------- bytes

  type Byte = b: Word | |b| == 8 witness Zero(8)

  function Widen(b: Byte, size: nat): (r: Word)
    requires size >= 8
    ensures |r| == size
  {
    seq(size, i requires 0 <= i < size => i < 8 && b[i])
  }

  function Narrow(a: Word): Byte
    requires |a| >= 8
  {
    a[..8]
  }

  function Bit(b: bool): nat {
    if b then 1 else 0
  }

  /** The number a bit sequence stands for. */
  function ToNat(a: Word): (v: nat)
    ensures v < Power2(|a|)
  {
    if a == [] then 0 else Bit(a[0]) + 2 * ToNat(a[1..])
  }

  function Power2(n: nat): nat {
    if n == 0 then 1 else 2 * Power2(n - 1)
  }

  function FromNat(v: nat, n: nat): (a: Word)
    ensures |a| == n
  {
    if n == 0 then [] else [v % 2 == 1] + FromNat(v / 2, n - 1)
  }

  lemma {:induction false} FromToNat(a: Word)
    ensures FromNat(ToNat(a), |a|) == a
  {
    if a != [] {
      FromToNat(a[1..]);
      assert ToNat(a) / 2 == ToNat(a[1..]) && (ToNat(a) % 2 == 1 <==> a[0]);
    }
  }

  lemma ByteIndex(b: Byte)
    ensures ToNat(b) < 256 && FromNat(ToNat(b), 8) == b
  {
    assert Power2(8) == 256;
    FromToNat(b);
  }

  // ---------------------------------------------------------------- laws

  lemma ReversedTwice(a: Word, n: nat)
    requires n <= |a|
    ensures Reversed(Reversed(a, n), n) == Low(a, n)
  {
  }

  lemma FitsIsLow(a: Word, n: nat)
    ensures Fits(a, n) <==> Low(a, n) == a
  {
  }

  lemma XorCancel(a: Word, b: Word)
    requires |a| == |b|
    ensures a == Xor(b, Xor(a, b))
  {
  }

  lemma XorLow(a: Word, b: Word, c: Word, n: nat)
    requires LowEq(a, b, n) && |a| == |c|
    ensures LowEq(Xor(a, c), Xor(c, b), n)
  {
  }

  lemma ShrLow(a: Word, b: Word, s: nat, n: nat)
    requires LowEq(a, b, n) && s <= n <= |a|
    ensures LowEq(Shr(a, s), Shr(b, s), n - s)
  {
  }
}
