/**
 * What the CRC code computes: the remainder of the message, followed by as many zeros as the CRC has bits and with
 * the initial value added in front, divided by the generator polynomial. Bits are written highest power first.
 */
module CrcDivision {
  import opened BitWords
  import opened Crc

  type Bits = seq<bool>

  /** Adds b to the front of a; what reaches past the end of a is dropped. */
  function XorFront(a: Bits, b: Bits): (r: Bits)
    ensures |r| == |a|
  {
    seq(|a|, i requires 0 <= i < |a| => a[i] != (i < |b| && b[i]))
  }

  /** Long division by the polynomial whose leading one is followed by the bits of `generator`. */
  function Divide(bits: Bits, generator: Bits): (remainder: Bits)
    requires |generator| <= |bits|
    ensures |remainder| == |generator|
    decreases |bits|
  {
    if |bits| == |generator| then bits
    else Divide(XorFront(bits[1..], Times(bits[0], generator)), generator)
  }

  /** One division step on the leading bits alone. */
  function Step(l: Bits, generator: Bits): (l': Bits)
    requires |l| > 0
    ensures |l'| == |l|
  {
    XorFront(l[1..] + [false], Times(l[0], generator))
  }

  function Steps(l: Bits, generator: Bits, n: nat): (l': Bits)
    requires |l| > 0
    ensures |l'| == |l|
  {
    if n == 0 then l else Step(Steps(l, generator, n - 1), generator)
  }

  lemma StepCommutes(l: Bits, rest: Bits, generator: Bits)
    requires 0 < |generator| <= |l|
    ensures var bits := XorFront([false] + rest, l);
            bits[0] == l[0] && XorFront(bits[1..], Times(l[0], generator)) == XorFront(rest, Step(l, generator))
  {
  }

  /** Dividing by steps: the leading bits are worked on before the rest has been added to them. */
  lemma DivideStep(l: Bits, rest: Bits, generator: Bits)
    requires 0 < |generator| <= |l| && |rest| >= |generator|
    ensures Divide(XorFront([false] + rest, l), generator) == Divide(XorFront(rest, Step(l, generator)), generator)
  {
    StepCommutes(l, rest, generator);
  }

  lemma {:induction false} DivideSteps(l: Bits, rest: Bits, generator: Bits, n: nat)
    requires 0 < |generator| <= |l| && |rest| >= |generator|
    ensures Divide(XorFront(Zero(n) + rest, l), generator) == Divide(XorFront(rest, Steps(l, generator, n)), generator)
    decreases n
  {
    if n == 0 {
      assert Zero(0) + rest == rest;
    } else {
      assert Zero(n) + rest == Zero(n - 1) + ([false] + rest);
      DivideSteps(l, [false] + rest, generator, n - 1);
      DivideStep(Steps(l, generator, n - 1), rest, generator);
    }
  }

  /** The byte may be added to the leading bits first. */
  lemma ByteUpFront(l: Bits, byte: Bits, rest: Bits)
    requires |byte| == 8 <= |l|
    ensures XorFront(byte + rest, l) == XorFront(Zero(8) + rest, XorFront(l, byte))
  {
  }

  /** Taking in one byte of the message. */
  lemma DivideByte(l: Bits, byte: Bits, rest: Bits, generator: Bits)
    requires |byte| == 8 && 0 < |generator| <= |l| && |l| >= 8 && |rest| >= |generator|
    ensures Divide(XorFront(byte + rest, l), generator)
         == Divide(XorFront(rest, Steps(XorFront(l, byte), generator, 8)), generator)
  {
    ByteUpFront(l, byte, rest);
    DivideSteps(XorFront(l, byte), rest, generator, 8);
  }

  // ---------------------------------------------------------------- words as bits

  /** The n lowest bits of a word, highest first. */
  function HighFirst(a: Word, n: nat): (l: Bits)
    requires n <= |a|
    ensures |l| == n
  {
    seq(n, i requires 0 <= i < n => a[n - 1 - i])
  }

  /** The generator stands at the high end of the w lowest bits, with nothing below it. */
  predicate LinesUp(poly: Word, w: nat, generator: Bits) {
    w <= |poly| && forall i :: 0 <= i < w ==> HighFirst(poly, w)[i] == (i < |generator| && generator[i])
  }

  lemma StepForward(r: Word, w: nat, poly: Word, generator: Bits)
    requires |r| == |poly| && 0 < w <= |r| && |generator| <= w
    requires LinesUp(poly, w, generator)
    ensures HighFirst(StepL(r, w - 1, poly), w) == Step(HighFirst(r, w), generator)
  {
    var left, right := HighFirst(StepL(r, w - 1, poly), w), Step(HighFirst(r, w), generator);
    forall i | 0 <= i < w
      ensures left[i] == right[i]
    {
      assert left[i] == StepL(r, w - 1, poly)[w - 1 - i];
      assert HighFirst(poly, w)[i] == poly[w - 1 - i];
      if i + 1 < w {
        assert (HighFirst(r, w)[1..] + [false])[i] == HighFirst(r, w)[i + 1] == r[w - 2 - i];
      }
    }
  }

  lemma {:induction false} StepsForward(r: Word, w: nat, poly: Word, generator: Bits, n: nat)
    requires |r| == |poly| && 0 < w <= |r| && |generator| <= w
    requires LinesUp(poly, w, generator)
    ensures HighFirst(StepsL(r, w - 1, poly, n), w) == Steps(HighFirst(r, w), generator, n)
  {
    if n > 0 {
      StepsForward(r, w, poly, generator, n - 1);
      StepForward(StepsL(r, w - 1, poly, n - 1), w, poly, generator);
    }
  }

  lemma ByteAtTop(r: Word, w: nat, b: Byte)
    requires 8 <= w <= |r|
    ensures HighFirst(Xor(r, Shl(Widen(b, |r|), w - 8)), w) == XorFront(HighFirst(r, w), HighFirst(b, 8))
  {
  }

  lemma ByteForward(r: Word, w: nat, poly: Word, generator: Bits, b: Byte)
    requires |r| == |poly| && 8 <= w <= |r| && |generator| <= w && LinesUp(poly, w, generator)
    ensures HighFirst(ByteL(r, w, poly, b), w) == Steps(XorFront(HighFirst(r, w), HighFirst(b, 8)), generator, 8)
  {
    ByteAtTop(r, w, b);
    StepsForward(Xor(r, Shl(Widen(b, |r|), w - 8)), w, poly, generator, 8);
  }

  lemma StepBackward(r: Word, w: nat, poly: Word, generator: Bits)
    requires |r| == |poly| && 0 < w <= |r| && |generator| <= w && Fits(r, w) && Fits(poly, |generator|)
    requires generator == poly[..|generator|]
    ensures Fits(StepR(r, poly), w) && StepR(r, poly)[..w] == Step(r[..w], generator)
  {
  }

  lemma {:induction false} StepsBackward(r: Word, w: nat, poly: Word, generator: Bits, n: nat)
    requires |r| == |poly| && 0 < w <= |r| && |generator| <= w && Fits(r, w) && Fits(poly, |generator|)
    requires generator == poly[..|generator|]
    ensures Fits(StepsR(r, poly, n), w) && StepsR(r, poly, n)[..w] == Steps(r[..w], generator, n)
  {
    if n > 0 {
      StepsBackward(r, w, poly, generator, n - 1);
      StepBackward(StepsR(r, poly, n - 1), w, poly, generator);
    }
  }

  lemma ByteBackward(r: Word, w: nat, poly: Word, generator: Bits, b: Byte)
    requires |r| == |poly| && 8 <= w <= |r| && |generator| <= w && Fits(r, w) && Fits(poly, |generator|)
    requires generator == poly[..|generator|]
    ensures Fits(ByteR(r, poly, b), w) && ByteR(r, poly, b)[..w] == Steps(XorFront(r[..w], b), generator, 8)
  {
    var x := Xor(r, Widen(b, |r|));
    assert x[..w] == XorFront(r[..w], b);
    StepsBackward(x, w, poly, generator, 8);
  }

  // ---------------------------------------------------------------- messages

  /** The bits of a message in the order they are divided: low bits first in each byte if the input is reflected. */
  function MessageBits(data: seq<Byte>, lowFirst: bool): Bits {
    if data == [] then []
    else MessageBits(data[..|data| - 1], lowFirst) + ByteBits(data[|data| - 1], lowFirst)
  }

  function ByteBits(b: Byte, lowFirst: bool): (l: Bits)
    ensures |l| == 8
  {
    if lowFirst then b else HighFirst(b, 8)
  }

  /** Dividing with the message bytes up to the last one taken in. */
  lemma LastByte(data: seq<Byte>, lowFirst: bool, rest: Bits)
    requires data != []
    ensures MessageBits(data, lowFirst) + rest
         == MessageBits(data[..|data| - 1], lowFirst) + (ByteBits(data[|data| - 1], lowFirst) + rest)
  {
  }

  lemma {:induction false} FoldForward(r: Word, w: nat, poly: Word, generator: Bits, data: seq<Byte>, rest: Bits)
    requires |r| == |poly| && 8 <= w <= |r| && 0 < |generator| <= w && |rest| >= |generator|
    requires LinesUp(poly, w, generator)
    ensures Divide(XorFront(MessageBits(data, false) + rest, HighFirst(r, w)), generator)
         == Divide(XorFront(rest, HighFirst(FoldL(r, w, poly, data), w)), generator)
    decreases |data|
  {
    if data == [] {
      assert MessageBits(data, false) + rest == rest;
    } else {
      var init, b := data[..|data| - 1], data[|data| - 1];
      LastByte(data, false, rest);
      FoldForward(r, w, poly, generator, init, HighFirst(b, 8) + rest);
      DivideByte(HighFirst(FoldL(r, w, poly, init), w), HighFirst(b, 8), rest, generator);
      ByteForward(FoldL(r, w, poly, init), w, poly, generator, b);
    }
  }

  lemma {:induction false} FoldBackward(r: Word, w: nat, poly: Word, generator: Bits, data: seq<Byte>, rest: Bits)
    requires |r| == |poly| && 8 <= w <= |r| && 0 < |generator| <= w && |rest| >= |generator|
    requires Fits(r, w) && Fits(poly, |generator|) && generator == poly[..|generator|]
    ensures Fits(FoldR(r, poly, data), w)
    ensures Divide(XorFront(MessageBits(data, true) + rest, r[..w]), generator)
         == Divide(XorFront(rest, FoldR(r, poly, data)[..w]), generator)
    decreases |data|
  {
    if data == [] {
      assert MessageBits(data, true) + rest == rest;
    } else {
      var init, b := data[..|data| - 1], data[|data| - 1];
      LastByte(data, true, rest);
      FoldBackward(r, w, poly, generator, init, b + rest);
      DivideByte(FoldR(r, poly, init)[..w], b, rest, generator);
      ByteBackward(FoldR(r, poly, init), w, poly, generator, b);
    }
  }

  // ---------------------------------------------------------------- the theorem

  /** The register's bits, highest power first. */
  function Register(p: Parameters, r: Word): (l: Bits)
    requires p.Ok() && |r| == p.size
    ensures |l| == p.width
  {
    if p.reflectInput then r[..p.width] else HighFirst(r, p.width)
  }

  /** All bits the register starts with, highest power first; input that is not reflected sees those of the width. */
  function Start(p: Parameters, r: Word): (l: Bits)
    requires p.Ok() && |r| == p.size
    ensures |l| >= p.width
  {
    if p.reflectInput then r else HighFirst(r, p.width)
  }

  /** The generator polynomial without its leading one, highest power first. */
  function Generator(p: Parameters): (g: Bits)
    requires p.Ok()
    ensures |g| == p.width
  {
    HighFirst(p.polynomial, p.width)
  }

  /** When the division has used up the message, its remainder is what is in the register. */
  lemma DivideNothing(l: Bits, generator: Bits)
    requires |generator| <= |l|
    ensures Divide(XorFront(Zero(|generator|), l), generator) == l[..|generator|]
  {
  }

  /** Adding bits that are clear past the front changes nothing. */
  lemma FrontOnly(a: Bits, l: Bits, n: nat)
    requires n <= |l| && forall i :: n <= i < |l| ==> !l[i]
    ensures XorFront(a, l) == XorFront(a, l[..n])
  {
  }

  lemma ForwardWide(p: Parameters, data: seq<Byte>, r: Word)
    requires p.Ok() && |r| == p.size && !p.reflectInput && p.width >= 8
    ensures Register(p, Remainder(p, data, r))
         == Divide(XorFront(MessageBits(data, false) + Zero(p.width), Start(p, r)), Generator(p))
  {
    FoldForward(r, p.width, p.polynomial, Generator(p), data, Zero(p.width));
    DivideNothing(Register(p, Remainder(p, data, r)), Generator(p));
  }

  /** A word moved up so that its w bits end a byte. */
  lemma MovedUp(a: Word, w: nat)
    requires |a| >= 8 && w < 8
    ensures HighFirst(Shl(a, 8 - w), 8)[..w] == HighFirst(a, w)
    ensures var l := HighFirst(Shl(a, 8 - w), 8); forall i :: w <= i < 8 ==> !l[i]
  {
  }

  lemma MovedDown(a: Word, w: nat)
    requires |a| >= 8 && w < 8
    ensures HighFirst(a, 8)[..w] == HighFirst(Shr(a, 8 - w), w)
  {
  }

  lemma ForwardSmall(p: Parameters, data: seq<Byte>, r: Word)
    requires p.Ok() && |r| == p.size && !p.reflectInput && p.width < 8
    ensures Register(p, Remainder(p, data, r))
         == Divide(XorFront(MessageBits(data, false) + Zero(p.width), Start(p, r)), Generator(p))
  {
    var w, generator := p.width, Generator(p);
    var up, poly := Shl(r, 8 - w), Shl(p.polynomial, 8 - w);
    var last := FoldL(up, 8, poly, data);
    MovedUp(p.polynomial, w);
    assert forall i :: 0 <= i < 8 ==> HighFirst(poly, 8)[i] == (i < w && HighFirst(poly, 8)[..w][i]);
    FoldForward(up, 8, poly, generator, data, Zero(w));
    DivideNothing(HighFirst(last, 8), generator);
    MovedDown(last, w);
    MovedUp(r, w);
    FrontOnly(MessageBits(data, false) + Zero(w), HighFirst(up, 8), w);
  }

  lemma Backward(p: Parameters, data: seq<Byte>, r: Word)
    requires p.Ok() && |r| == p.size && p.reflectInput
    ensures Register(p, Remainder(p, data, r))
         == Divide(XorFront(MessageBits(data, true) + Zero(p.width), Start(p, r)), Generator(p))
  {
    var w, poly, generator := p.width, Reversed(p.polynomial, p.width), Generator(p);
    assert generator == poly[..w];
    FoldBackward(r, p.size, poly, generator, data, Zero(w));
    var last := FoldR(r, poly, data);
    DivideNothing(last[..p.size], generator);
    assert last[..p.size] == last && r[..p.size] == r;
  }

  /** What the polynomial division of the message, with the initial value added at its front, leaves. */
  function Residue(p: Parameters, data: seq<Byte>, r: Word): (d: Bits)
    requires p.Ok() && |r| == p.size
    ensures |d| == p.width
  {
    Divide(XorFront(MessageBits(data, p.reflectInput) + Zero(p.width), Start(p, r)), Generator(p))
  }

  /**
   * The remainder computed bit by bit is the remainder of polynomial division, for every width, storage size,
   * polynomial, starting value and message.
   */
  lemma RemainderIsDivision(p: Parameters, data: seq<Byte>, r: Word)
    requires p.Ok() && |r| == p.size
    ensures Register(p, Remainder(p, data, r)) == Residue(p, data, r)
  {
    if p.reflectInput {
      Backward(p, data, r);
    } else if p.width >= 8 {
      ForwardWide(p, data, r);
    } else {
      ForwardSmall(p, data, r);
    }
  }

  /**
   * The CRC is the remainder of the division, lowest power last if the output is reflected and first if not, with the
   * final XOR added, for every message and all parameters.
   */
  lemma CrcIsDivision(p: Parameters, data: seq<Byte>, i: nat)
    requires p.Ok() && i < p.width
    ensures var d := Residue(p, data, p.initialValue);
            CrcOf(p, data)[i] == (d[if p.reflectOutput then i else p.width - 1 - i] != p.finalXor[i])
  {
    var r := Remainder(p, data, p.initialValue);
    RemainderIsDivision(p, data, p.initialValue);
    FinalizedBit(p, r, i);
    assert Register(p, r)[if p.reflectOutput then i else p.width - 1 - i]
        == r[if p.reflectInput != p.reflectOutput then p.width - 1 - i else i];
  }
}
