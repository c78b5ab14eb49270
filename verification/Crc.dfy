/**
 * Cyclic redundancy checks of any width up to the size of the storage type (Utilities/CRC.h): bit by bit, by lookup
 * table, and in several parts.
 */
module Crc {
  import opened BitWords

  /** `size` bits of storage hold a CRC of `width` bits. */
  datatype Parameters = Parameters(size: nat, width: nat, polynomial: Word, initialValue: Word, finalXor: Word,
                                   reflectInput: bool, reflectOutput: bool)
  {
    predicate Ok() {
      && 1 <= width <= size && size >= 8
      && |polynomial| == size && |initialValue| == size && |finalXor| == size
    }
  }

  // ---------------------------------------------------------------- bit by bit

  function StepR(r: Word, poly: Word): (r': Word)
    requires |r| == |poly| > 0
    ensures |r'| == |r|
  {
    Xor(Shr(r, 1), Times(r[0], poly))
  }

  function StepsR(r: Word, poly: Word, n: nat): (r': Word)
    requires |r| == |poly| > 0
    ensures |r'| == |r|
  {
    if n == 0 then r else StepR(StepsR(r, poly, n - 1), poly)
  }

  function StepL(r: Word, top: nat, poly: Word): (r': Word)
    requires |r| == |poly| && top < |r|
    ensures |r'| == |r|
  {
    Xor(Shl(r, 1), Times(r[top], poly))
  }

  function StepsL(r: Word, top: nat, poly: Word, n: nat): (r': Word)
    requires |r| == |poly| && top < |r|
    ensures |r'| == |r|
  {
    if n == 0 then r else StepL(StepsL(r, top, poly, n - 1), top, poly)
  }

  /** One message byte, entering at the low end. */
  function ByteR(r: Word, poly: Word, b: Byte): (r': Word)
    requires |r| == |poly| >= 8
    ensures |r'| == |r|
  {
    StepsR(Xor(r, Widen(b, |r|)), poly, 8)
  }

  /** One message byte, entering at the high end of the `w` lowest bits. */
  function ByteL(r: Word, w: nat, poly: Word, b: Byte): (r': Word)
    requires |r| == |poly| && 8 <= w <= |r|
    ensures |r'| == |r|
  {
    StepsL(Xor(r, Shl(Widen(b, |r|), w - 8)), w - 1, poly, 8)
  }

  function FoldR(r: Word, poly: Word, data: seq<Byte>): (r': Word)
    requires |r| == |poly| >= 8
    ensures |r'| == |r|
  {
    if data == [] then r else ByteR(FoldR(r, poly, data[..|data| - 1]), poly, data[|data| - 1])
  }

  function FoldL(r: Word, w: nat, poly: Word, data: seq<Byte>): (r': Word)
    requires |r| == |poly| && 8 <= w <= |r|
    ensures |r'| == |r|
  {
    if data == [] then r else ByteL(FoldL(r, w, poly, data[..|data| - 1]), w, poly, data[|data| - 1])
  }

  /** The remainder after a message, bit by bit. */
  function Remainder(p: Parameters, data: seq<Byte>, r: Word): (r': Word)
    requires p.Ok() && |r| == p.size
    ensures |r'| == p.size
  {
    if p.reflectInput then FoldR(r, Reversed(p.polynomial, p.width), data)
    else if p.width >= 8 then FoldL(r, p.width, p.polynomial, data)
    else
      var s := 8 - p.width;
      Shr(FoldL(Shl(r, s), 8, Shl(p.polynomial, s), data), s)
  }

  // ---------------------------------------------------------------- by table

  /** The table entry for a byte. */
  function Entry(p: Parameters, b: Byte): (e: Word)
    requires p.Ok()
    ensures |e| == p.size
  {
    var crc := Low(Remainder(p, [b], Zero(p.size)), p.width);
    if !p.reflectInput && p.width < 8 then Shl(crc, 8 - p.width) else crc
  }

  /** The table index for a byte entering at the low end, and at the high end of the w lowest bits. */
  function LowByte(r: Word, b: Byte): Byte
    requires |r| >= 8
  {
    Narrow(Xor(r, Widen(b, |r|)))
  }

  function TopByte(r: Word, w: nat, b: Byte): Byte
    requires 8 <= w <= |r|
  {
    Narrow(Xor(Shr(r, w - 8), Widen(b, |r|)))
  }

  function TableByteR(p: Parameters, r: Word, b: Byte): (r': Word)
    requires p.Ok() && |r| == p.size
    ensures |r'| == p.size
  {
    Xor(Shr(r, 8), Entry(p, LowByte(r, b)))
  }

  function TableByteL(p: Parameters, r: Word, b: Byte): (r': Word)
    requires p.Ok() && |r| == p.size && p.width >= 8
    ensures |r'| == p.size
  {
    Xor(Shl(r, 8), Entry(p, TopByte(r, p.width, b)))
  }

  function TableByteSmall(p: Parameters, r: Word, b: Byte): (r': Word)
    requires p.Ok() && |r| == p.size
    ensures |r'| == p.size
  {
    Entry(p, LowByte(r, b))
  }

  function TableByte(p: Parameters, r: Word, b: Byte): (r': Word)
    requires p.Ok() && |r| == p.size
    ensures |r'| == p.size
  {
    if p.reflectInput then TableByteR(p, r, b)
    else if p.width >= 8 then TableByteL(p, r, b)
    else TableByteSmall(p, r, b)
  }

  function TableFold(p: Parameters, r: Word, data: seq<Byte>): (r': Word)
    requires p.Ok() && |r| == p.size
    ensures |r'| == p.size
  {
    if data == [] then r else TableByte(p, TableFold(p, r, data[..|data| - 1]), data[|data| - 1])
  }

  /** The remainder after a message, by table. */
  function TableRemainder(p: Parameters, data: seq<Byte>, r: Word): (r': Word)
    requires p.Ok() && |r| == p.size
    ensures |r'| == p.size
  {
    if !p.reflectInput && p.width < 8 then
      var s := 8 - p.width;
      Shr(TableFold(p, Shl(r, s), data), s)
    else TableFold(p, r, data)
  }

  // ---------------------------------------------------------------- the steps are linear

  lemma StepRLinear(a: Word, b: Word, poly: Word)
    requires |a| == |b| == |poly| > 0
    ensures StepR(Xor(a, b), poly) == Xor(StepR(a, poly), StepR(b, poly))
  {
  }

  lemma {:induction false} StepsRLinear(a: Word, b: Word, poly: Word, n: nat)
    requires |a| == |b| == |poly| > 0
    ensures StepsR(Xor(a, b), poly, n) == Xor(StepsR(a, poly, n), StepsR(b, poly, n))
  {
    if n > 0 {
      StepsRLinear(a, b, poly, n - 1);
      StepRLinear(StepsR(a, poly, n - 1), StepsR(b, poly, n - 1), poly);
    }
  }

  lemma StepLLinear(a: Word, b: Word, top: nat, poly: Word)
    requires |a| == |b| == |poly| && top < |a|
    ensures StepL(Xor(a, b), top, poly) == Xor(StepL(a, top, poly), StepL(b, top, poly))
  {
  }

  lemma {:induction false} StepsLLinear(a: Word, b: Word, top: nat, poly: Word, n: nat)
    requires |a| == |b| == |poly| && top < |a|
    ensures StepsL(Xor(a, b), top, poly, n) == Xor(StepsL(a, top, poly, n), StepsL(b, top, poly, n))
  {
    if n > 0 {
      StepsLLinear(a, b, top, poly, n - 1);
      StepLLinear(StepsL(a, top, poly, n - 1), StepsL(b, top, poly, n - 1), top, poly);
    }
  }

  /** Bits the steps do not reach are only shifted. */
  lemma {:induction false} StepsRShift(a: Word, poly: Word, n: nat)
    requires |a| == |poly| > 0 && forall i :: 0 <= i < n && i < |a| ==> !a[i]
    ensures StepsR(a, poly, n) == Shr(a, n)
  {
    if n > 0 {
      StepsRShift(a, poly, n - 1);
      assert !Shr(a, n - 1)[0];
      assert Xor(Shr(Shr(a, n - 1), 1), Zero(|a|)) == Shr(a, n);
    }
  }

  lemma {:induction false} StepsLShift(a: Word, top: nat, poly: Word, n: nat)
    requires |a| == |poly| && top < |a| && forall i :: 0 <= i <= top && top < i + n ==> !a[i]
    ensures StepsL(a, top, poly, n) == Shl(a, n)
  {
    if n > 0 {
      StepsLShift(a, top, poly, n - 1);
      assert !Shl(a, n - 1)[top];
      assert Xor(Shl(Shl(a, n - 1), 1), Zero(|a|)) == Shl(a, n);
    }
  }

  /** The n lowest bits after a left step depend only on the n lowest bits before, if they include the tested one. */
  lemma StepLLow(a: Word, b: Word, top: nat, poly: Word)
    requires LowEq(a, b, top + 1) && |a| == |poly| && top < |a|
    ensures LowEq(StepL(a, top, poly), StepL(b, top, poly), top + 1)
  {
  }

  lemma {:induction false} StepsLLow(a: Word, b: Word, top: nat, poly: Word, n: nat)
    requires LowEq(a, b, top + 1) && |a| == |poly| && top < |a|
    ensures LowEq(StepsL(a, top, poly, n), StepsL(b, top, poly, n), top + 1)
  {
    if n > 0 {
      StepsLLow(a, b, top, poly, n - 1);
      StepLLow(StepsL(a, top, poly, n - 1), StepsL(b, top, poly, n - 1), top, poly);
    }
  }

  // ---------------------------------------------------------------- one byte, reflected

  function Larger(a: int, b: int): int {
    if a < b then b else a
  }

  /** A word of m bits has lost n of them after n steps, except where the polynomial came in. */
  lemma {:induction false} StepsRFits(a: Word, poly: Word, w: nat, m: nat, n: nat)
    requires |a| == |poly| > 0 && Fits(a, m) && Fits(poly, w)
    ensures Fits(StepsR(a, poly, n), Larger(w, m - n))
  {
    if n > 0 {
      StepsRFits(a, poly, w, m, n - 1);
      var r := StepsR(a, poly, n - 1);
      forall i | Larger(w, m - n) <= i < |a|
        ensures !StepR(r, poly)[i]
      {
      }
    }
  }

  lemma EntryReflected(p: Parameters, b: Byte)
    requires p.Ok() && p.reflectInput
    ensures Entry(p, b) == StepsR(Widen(b, p.size), Reversed(p.polynomial, p.width), 8)
  {
    var poly, x := Reversed(p.polynomial, p.width), Widen(b, p.size);
    assert FoldR(Zero(p.size), poly, [b][..0]) == Zero(p.size);
    assert Xor(Zero(p.size), x) == x;
    StepsRFits(x, poly, p.width, 8, 8);
    FitsIsLow(StepsR(x, poly, 8), p.width);
  }

  lemma XorComm(a: Word, b: Word)
    requires |a| == |b|
    ensures Xor(a, b) == Xor(b, a)
  {
  }

  /** The lookup is eight bit steps: the low byte is replaced by its entry, the rest is shifted. */
  lemma TableByteReflected(p: Parameters, r: Word, b: Byte)
    requires p.Ok() && p.reflectInput && |r| == p.size
    ensures TableByteR(p, r, b) == ByteR(r, Reversed(p.polynomial, p.width), b)
  {
    var poly := Reversed(p.polynomial, p.width);
    var x := Xor(r, Widen(b, p.size));
    var low := Widen(Narrow(x), p.size);
    var high := Xor(x, low);
    XorCancel(x, low);
    StepsRLinear(low, high, poly, 8);
    StepsRShift(high, poly, 8);
    assert Shr(high, 8) == Shr(r, 8);
    EntryReflected(p, Narrow(x));
    XorComm(StepsR(low, poly, 8), Shr(r, 8));
  }

  // ---------------------------------------------------------------- one byte, not reflected

  /** Eight bit steps on a byte at the high end of the w lowest bits. */
  function HighByte(b: Byte, w: nat, poly: Word): (r: Word)
    requires 8 <= w <= |poly|
    ensures |r| == |poly|
  {
    StepsL(Shl(Widen(b, |poly|), w - 8), w - 1, poly, 8)
  }

  lemma SplitSteps(top: Word, rest: Word, w: nat, poly: Word)
    requires |top| == |rest| == |poly| && 8 <= w <= |rest| && forall i :: w - 8 <= i < w ==> !rest[i]
    ensures StepsL(Xor(top, rest), w - 1, poly, 8) == Xor(StepsL(top, w - 1, poly, 8), Shl(rest, 8))
  {
    StepsLLinear(top, rest, w - 1, poly, 8);
    StepsLShift(rest, w - 1, poly, 8);
  }

  lemma ByteLSplits(r: Word, w: nat, poly: Word, b: Byte)
    requires |r| == |poly| && 8 <= w <= |r|
    ensures LowEq(Xor(Shl(r, 8), HighByte(TopByte(r, w, b), w, poly)), ByteL(r, w, poly, b), w)
  {
    var x := Xor(r, Shl(Widen(b, |r|), w - 8));
    var top := Shl(Widen(TopByte(r, w, b), |r|), w - 8);
    var rest := Xor(x, top);
    RestIsClear(r, w, b, x, top, rest);
    SplitSteps(top, rest, w, poly);
    XorCancel(x, top);
    XorLow(Shl(r, 8), Shl(rest, 8), HighByte(TopByte(r, w, b), w, poly), w);
  }

  lemma RestIsClear(r: Word, w: nat, b: Byte, x: Word, top: Word, rest: Word)
    requires 8 <= w <= |r| && x == Xor(r, Shl(Widen(b, |r|), w - 8))
    requires top == Shl(Widen(TopByte(r, w, b), |r|), w - 8) && rest == Xor(x, top)
    ensures forall i :: w - 8 <= i < w ==> !rest[i]
    ensures LowEq(Shl(rest, 8), Shl(r, 8), w)
  {
  }

  lemma EntryWide(p: Parameters, b: Byte)
    requires p.Ok() && !p.reflectInput && p.width >= 8
    ensures LowEq(Entry(p, b), HighByte(b, p.width, p.polynomial), p.width)
  {
    var x := Shl(Widen(b, p.size), p.width - 8);
    assert FoldL(Zero(p.size), p.width, p.polynomial, [b][..0]) == Zero(p.size);
    assert Xor(Zero(p.size), x) == x;
  }

  /** A polynomial moved up by s leaves the s lowest bits clear once the byte has moved past them. */
  lemma {:induction false} StepsLClear(a: Word, top: nat, poly: Word, s: nat, n: nat)
    requires |a| == |poly| && top < |a|
    ensures forall i :: 0 <= i < |a| && i < s && i < n ==> !StepsL(a, top, Shl(poly, s), n)[i]
  {
    if n > 0 {
      StepsLClear(a, top, poly, s, n - 1);
      var r := StepsL(a, top, Shl(poly, s), n - 1);
      forall i | 0 <= i < |a| && i < s && i < n
        ensures !StepL(r, top, Shl(poly, s))[i]
      {
      }
    }
  }

  lemma EntrySmall(p: Parameters, b: Byte)
    requires p.Ok() && !p.reflectInput && p.width < 8
    ensures LowEq(Entry(p, b), HighByte(b, 8, Shl(p.polynomial, 8 - p.width)), 8)
  {
    var s := 8 - p.width;
    var poly, x := Shl(p.polynomial, s), Widen(b, p.size);
    var zero := Shl(Zero(p.size), s);
    assert FoldL(zero, 8, poly, [b][..0]) == zero;
    assert Shl(x, 0) == x && Xor(zero, x) == x;
    StepsLClear(x, 7, p.polynomial, s, 8);
    var full := StepsL(x, 7, poly, 8);
    assert FoldL(zero, 8, poly, [b]) == full;
    ShiftedBack(full, s, p.width);
  }

  /** Moving down, masking and moving up again restores the low byte if its s lowest bits are clear. */
  lemma ShiftedBack(a: Word, s: nat, w: nat)
    requires |a| >= 8 && s + w == 8 && forall i :: 0 <= i < s ==> !a[i]
    ensures LowEq(Shl(Low(Shr(a, s), w), s), a, 8)
  {
  }

  // ---------------------------------------------------------------- the table agrees with the bits

  lemma ByteLLow(a: Word, b: Word, w: nat, poly: Word, x: Byte)
    requires LowEq(a, b, w) && |a| == |poly| && 8 <= w <= |a|
    ensures LowEq(ByteL(a, w, poly, x), ByteL(b, w, poly, x), w)
  {
    var y := Shl(Widen(x, |a|), w - 8);
    assert LowEq(Xor(a, y), Xor(b, y), w);
    StepsLLow(Xor(a, y), Xor(b, y), w - 1, poly, 8);
  }

  lemma {:induction false} FoldLLow(a: Word, b: Word, w: nat, poly: Word, data: seq<Byte>)
    requires LowEq(a, b, w) && |a| == |poly| && 8 <= w <= |a|
    ensures LowEq(FoldL(a, w, poly, data), FoldL(b, w, poly, data), w)
  {
    if data != [] {
      var init := data[..|data| - 1];
      FoldLLow(a, b, w, poly, init);
      ByteLLow(FoldL(a, w, poly, init), FoldL(b, w, poly, init), w, poly, data[|data| - 1]);
    }
  }

  lemma TableByteWide(p: Parameters, r: Word, b: Byte)
    requires p.Ok() && !p.reflectInput && p.width >= 8 && |r| == p.size
    ensures LowEq(TableByteL(p, r, b), ByteL(r, p.width, p.polynomial, b), p.width)
  {
    ByteLSplits(r, p.width, p.polynomial, b);
    EntryWide(p, TopByte(r, p.width, b));
  }

  lemma TableByteNarrow(p: Parameters, r: Word, b: Byte)
    requires p.Ok() && !p.reflectInput && p.width < 8 && |r| == p.size
    ensures LowEq(TableByteSmall(p, r, b), ByteL(r, 8, Shl(p.polynomial, 8 - p.width), b), 8)
  {
    ByteLSplits(r, 8, Shl(p.polynomial, 8 - p.width), b);
    assert Shr(r, 0) == r;
    EntrySmall(p, TopByte(r, 8, b));
  }

  lemma {:induction false} TableFoldR(p: Parameters, r: Word, data: seq<Byte>)
    requires p.Ok() && p.reflectInput && |r| == p.size
    ensures TableFold(p, r, data) == FoldR(r, Reversed(p.polynomial, p.width), data)
  {
    if data != [] {
      var init := data[..|data| - 1];
      TableFoldR(p, r, init);
      TableByteReflected(p, TableFold(p, r, init), data[|data| - 1]);
    }
  }

  lemma {:induction false} TableFoldWide(p: Parameters, r: Word, data: seq<Byte>)
    requires p.Ok() && !p.reflectInput && p.width >= 8 && |r| == p.size
    ensures LowEq(TableFold(p, r, data), FoldL(r, p.width, p.polynomial, data), p.width)
  {
    if data != [] {
      var init, b := data[..|data| - 1], data[|data| - 1];
      TableFoldWide(p, r, init);
      TableByteWide(p, TableFold(p, r, init), b);
      ByteLLow(TableFold(p, r, init), FoldL(r, p.width, p.polynomial, init), p.width, p.polynomial, b);
    }
  }

  lemma {:induction false} TableFoldSmall(p: Parameters, r: Word, data: seq<Byte>)
    requires p.Ok() && !p.reflectInput && p.width < 8 && |r| == p.size
    ensures LowEq(TableFold(p, r, data), FoldL(r, 8, Shl(p.polynomial, 8 - p.width), data), 8)
  {
    if data != [] {
      var init, b, poly := data[..|data| - 1], data[|data| - 1], Shl(p.polynomial, 8 - p.width);
      TableFoldSmall(p, r, init);
      TableByteNarrow(p, TableFold(p, r, init), b);
      ByteLLow(TableFold(p, r, init), FoldL(r, 8, poly, init), 8, poly, b);
    }
  }

  /** For all parameters, messages and starting values the two remainders agree within the width. */
  lemma RemaindersAgree(p: Parameters, data: seq<Byte>, r: Word)
    requires p.Ok() && |r| == p.size
    ensures LowEq(TableRemainder(p, data, r), Remainder(p, data, r), p.width)
    ensures p.reflectInput ==> TableRemainder(p, data, r) == Remainder(p, data, r)
  {
    if p.reflectInput {
      TableFoldR(p, r, data);
    } else if p.width >= 8 {
      TableFoldWide(p, r, data);
    } else {
      var s := 8 - p.width;
      TableFoldSmall(p, Shl(r, s), data);
      ShrLow(TableFold(p, Shl(r, s), data), FoldL(Shl(r, s), 8, Shl(p.polynomial, s), data), s, 8);
    }
  }

  // ---------------------------------------------------------------- finalizing

  function Finalized(p: Parameters, r: Word): (c: Word)
    requires p.Ok() && |r| == p.size
    ensures |c| == p.size && Fits(c, p.width)
  {
    Low(Xor(if p.reflectInput != p.reflectOutput then Reversed(r, p.width) else r, p.finalXor), p.width)
  }

  function Unfinalized(p: Parameters, c: Word): (r: Word)
    requires p.Ok() && |c| == p.size
    ensures |r| == p.size
  {
    var x := Xor(Low(c, p.width), p.finalXor);
    if p.reflectInput != p.reflectOutput then Reversed(x, p.width) else x
  }

  lemma FinalizedLow(p: Parameters, a: Word, b: Word)
    requires p.Ok() && |a| == p.size && LowEq(a, b, p.width)
    ensures Finalized(p, a) == Finalized(p, b)
  {
  }

  /** The final XOR is added within the width to the remainder's bits, taken in reverse if the reflections differ. */
  lemma FinalizedBit(p: Parameters, r: Word, i: nat)
    requires p.Ok() && |r| == p.size && i < p.size
    ensures i < p.width ==>
              Finalized(p, r)[i]
              == (r[if p.reflectInput != p.reflectOutput then p.width - 1 - i else i] != p.finalXor[i])
    ensures i >= p.width ==> !Finalized(p, r)[i]
  {
  }

  lemma FinalXorAdded(p: Parameters, r: Word)
    requires p.Ok() && |r| == p.size
    ensures Finalized(p, r) == Xor(Finalized(p.(finalXor := Zero(p.size)), r), Low(p.finalXor, p.width))
  {
    var plain := p.(finalXor := Zero(p.size));
    forall i: nat | i < p.size
      ensures Finalized(p, r)[i] == (Finalized(plain, r)[i] != Low(p.finalXor, p.width)[i])
    {
      FinalizedBit(p, r, i);
      FinalizedBit(plain, r, i);
    }
  }

  /** Undoing the last step restores the remainder within the width, whatever the final XOR. */
  lemma UndoRestoresLow(p: Parameters, x: Word)
    requires p.Ok() && |x| == p.size
    ensures LowEq(Unfinalized(p, Finalized(p, x)), x, p.width)
  {
  }

  /**
   * It restores the whole remainder exactly when the bits above the width are those of the final XOR, or clear if
   * the last step reflects; with a final XOR inside the width, exactly when the remainder fits the width.
   */
  lemma UndoInvertsFinalize(p: Parameters, x: Word)
    requires p.Ok() && |x| == p.size
    ensures Unfinalized(p, Finalized(p, x)) == x <==>
              forall i :: p.width <= i < p.size ==> x[i] == (p.reflectInput == p.reflectOutput && p.finalXor[i])
    ensures Fits(p.finalXor, p.width) ==> (Unfinalized(p, Finalized(p, x)) == x <==> Fits(x, p.width))
  {
    var r := Unfinalized(p, Finalized(p, x));
    UndoRestoresLow(p, x);
    assert forall i :: p.width <= i < p.size ==> r[i] == (p.reflectInput == p.reflectOutput && p.finalXor[i]);
  }

  /** The other way round it restores exactly the values that fit the width. */
  lemma FinalizeInvertsUndo(p: Parameters, c: Word)
    requires p.Ok() && |c| == p.size
    ensures Finalized(p, Unfinalized(p, c)) == c <==> Fits(c, p.width)
  {
    var d := Finalized(p, Unfinalized(p, c));
    assert d == Low(c, p.width);
    FitsIsLow(c, p.width);
  }

  /** Finalizing tells remainders apart exactly by their bits within the width. */
  lemma FinalizedEqual(p: Parameters, a: Word, b: Word)
    requires p.Ok() && |a| == |b| == p.size
    ensures Finalized(p, a) == Finalized(p, b) <==> LowEq(a, b, p.width)
  {
    if LowEq(a, b, p.width) {
      FinalizedLow(p, a, b);
    } else if Finalized(p, a) == Finalized(p, b) {
      UndoRestoresLow(p, a);
      UndoRestoresLow(p, b);
    }
  }

  /** The CRC of a message, and of a message that goes on after one whose CRC is known. */
  function CrcOf(p: Parameters, data: seq<Byte>): (c: Word)
    requires p.Ok()
    ensures |c| == p.size && Fits(c, p.width)
  {
    Finalized(p, Remainder(p, data, p.initialValue))
  }

  function Continued(p: Parameters, data: seq<Byte>, crc: Word): (c: Word)
    requires p.Ok() && |crc| == p.size
    ensures |c| == p.size && Fits(c, p.width)
  {
    Finalized(p, Remainder(p, data, Unfinalized(p, crc)))
  }

  /** The table-driven CRC is the bit-by-bit CRC, for a whole message and for a continued one. */
  lemma TableCrcAgrees(p: Parameters, data: seq<Byte>, r: Word)
    requires p.Ok() && |r| == p.size
    ensures Finalized(p, TableRemainder(p, data, r)) == Finalized(p, Remainder(p, data, r))
  {
    RemaindersAgree(p, data, r);
    FinalizedLow(p, TableRemainder(p, data, r), Remainder(p, data, r));
  }

  // ---------------------------------------------------------------- several parts

  lemma {:induction false} FoldRAppend(r: Word, poly: Word, a: seq<Byte>, b: seq<Byte>)
    requires |r| == |poly| >= 8
    ensures FoldR(r, poly, a + b) == FoldR(FoldR(r, poly, a), poly, b)
  {
    if b == [] {
      assert a + b == a;
    } else {
      FoldRAppend(r, poly, a, b[..|b| - 1]);
      assert (a + b)[..|a + b| - 1] == a + b[..|b| - 1];
    }
  }

  lemma {:induction false} FoldLAppend(r: Word, w: nat, poly: Word, a: seq<Byte>, b: seq<Byte>)
    requires |r| == |poly| && 8 <= w <= |r|
    ensures FoldL(r, w, poly, a + b) == FoldL(FoldL(r, w, poly, a), w, poly, b)
  {
    if b == [] {
      assert a + b == a;
    } else {
      FoldLAppend(r, w, poly, a, b[..|b| - 1]);
      assert (a + b)[..|a + b| - 1] == a + b[..|b| - 1];
    }
  }

  /** With a polynomial moved up by s, the s lowest bits are clear between bytes. */
  lemma FoldLClear(r: Word, poly: Word, s: nat, data: seq<Byte>)
    requires |r| == |poly| >= 8 && s <= 8
    ensures forall i :: 0 <= i < s ==> !FoldL(Shl(r, s), 8, Shl(poly, s), data)[i]
  {
    if data != [] {
      var before := FoldL(Shl(r, s), 8, Shl(poly, s), data[..|data| - 1]);
      StepsLClear(Xor(before, Shl(Widen(data[|data| - 1], |r|), 0)), 7, poly, s, 8);
    }
  }

  lemma ShiftedDownAndUp(a: Word, s: nat)
    requires s <= |a| && forall i :: 0 <= i < s ==> !a[i]
    ensures Shl(Shr(a, s), s) == a
  {
  }

  /** The remainder of a message continues from the remainder of its first part. */
  lemma RemainderAppend(p: Parameters, a: seq<Byte>, b: seq<Byte>, r: Word)
    requires p.Ok() && |r| == p.size
    ensures Remainder(p, a + b, r) == Remainder(p, b, Remainder(p, a, r))
  {
    if p.reflectInput {
      FoldRAppend(r, Reversed(p.polynomial, p.width), a, b);
    } else if p.width >= 8 {
      FoldLAppend(r, p.width, p.polynomial, a, b);
    } else {
      var s := 8 - p.width;
      FoldLAppend(Shl(r, s), 8, Shl(p.polynomial, s), a, b);
      FoldLClear(r, p.polynomial, s, a);
      ShiftedDownAndUp(FoldL(Shl(r, s), 8, Shl(p.polynomial, s), a), s);
    }
  }

  lemma RemainderLow(p: Parameters, data: seq<Byte>, r: Word, r': Word)
    requires p.Ok() && !p.reflectInput && |r| == p.size && LowEq(r, r', p.width)
    ensures LowEq(Remainder(p, data, r), Remainder(p, data, r'), p.width)
  {
    if p.width >= 8 {
      FoldLLow(r, r', p.width, p.polynomial, data);
    } else {
      var s := 8 - p.width;
      assert LowEq(Shl(r, s), Shl(r', s), 8);
      FoldLLow(Shl(r, s), Shl(r', s), 8, Shl(p.polynomial, s), data);
    }
  }

  lemma {:induction false} RemainderFits(p: Parameters, data: seq<Byte>, r: Word)
    requires p.Ok() && p.reflectInput && |r| == p.size && Fits(r, p.width)
    ensures Fits(Remainder(p, data, r), p.width)
  {
    if data != [] {
      var init, poly := data[..|data| - 1], Reversed(p.polynomial, p.width);
      RemainderFits(p, init, r);
      var x := Xor(Remainder(p, init, r), Widen(data[|data| - 1], p.size));
      StepsRFits(x, poly, p.width, Larger(p.width, 8), 8);
    }
  }

  /** Within these parameters a CRC can be computed in parts. */
  predicate Splittable(p: Parameters) {
    p.reflectInput ==> Fits(p.initialValue, p.width) && (p.reflectOutput ==> Fits(p.finalXor, p.width))
  }

  /** Feeding the CRC of a prefix into the continued computation gives the CRC of the whole message. */
  lemma MultiPart(p: Parameters, a: seq<Byte>, b: seq<Byte>)
    requires p.Ok() && Splittable(p)
    ensures Continued(p, b, CrcOf(p, a)) == CrcOf(p, a + b)
  {
    var r := Remainder(p, a, p.initialValue);
    var r' := Unfinalized(p, Finalized(p, r));
    RemainderAppend(p, a, b, p.initialValue);
    UndoRestoresLow(p, r);
    if p.reflectInput {
      RemainderFits(p, a, p.initialValue);
      assert r' == r;
    } else {
      RemainderLow(p, b, r', r);
      FinalizedLow(p, Remainder(p, b, r'), Remainder(p, b, r));
    }
  }

  // ---------------------------------------------------------------- when it can be computed in parts

  lemma {:induction false} StepsRAdd(a: Word, poly: Word, m: nat, n: nat)
    requires |a| == |poly| > 0
    ensures StepsR(StepsR(a, poly, m), poly, n) == StepsR(a, poly, m + n)
  {
    if n > 0 {
      StepsRAdd(a, poly, m, n - 1);
    }
  }

  lemma ByteRLinear(a: Word, d: Word, poly: Word, b: Byte)
    requires |a| == |d| == |poly| >= 8
    ensures ByteR(Xor(a, d), poly, b) == Xor(ByteR(a, poly, b), StepsR(d, poly, 8))
  {
    assert Xor(Xor(a, d), Widen(b, |a|)) == Xor(Xor(a, Widen(b, |a|)), d);
    StepsRLinear(Xor(a, Widen(b, |a|)), d, poly, 8);
  }

  /** A difference in the register runs on by itself, whatever the message. */
  lemma {:induction false} FoldRLinear(a: Word, d: Word, poly: Word, data: seq<Byte>)
    requires |a| == |d| == |poly| >= 8
    ensures FoldR(Xor(a, d), poly, data) == Xor(FoldR(a, poly, data), StepsR(d, poly, 8 * |data|))
  {
    if data != [] {
      var init, b := data[..|data| - 1], data[|data| - 1];
      FoldRLinear(a, d, poly, init);
      ByteRLinear(FoldR(a, poly, init), StepsR(d, poly, 8 * |init|), poly, b);
      StepsRAdd(d, poly, 8 * |init|, 8);
    }
  }

  /** Above the width the register is only shifted. */
  lemma {:induction false} StepsRHigh(a: Word, poly: Word, w: nat, n: nat, i: nat)
    requires |a| == |poly| > 0 && Fits(poly, w) && w <= i < |a|
    ensures StepsR(a, poly, n)[i] == (i + n < |a| && a[i + n])
  {
    if n > 0 {
      StepsRHigh(a, poly, w, n - 1, i);
      if i + 1 < |a| { StepsRHigh(a, poly, w, n - 1, i + 1); }
    }
  }

  lemma ByteRHigh(a: Word, poly: Word, w: nat, b: Byte, i: nat)
    requires |a| == |poly| >= 8 && Fits(poly, w) && w <= i < |a|
    ensures ByteR(a, poly, b)[i] == (i + 8 < |a| && a[i + 8])
  {
    StepsRHigh(Xor(a, Widen(b, |a|)), poly, w, 8, i);
  }

  lemma {:induction false} FoldRHigh(a: Word, poly: Word, w: nat, data: seq<Byte>, i: nat)
    requires |a| == |poly| >= 8 && Fits(poly, w) && w <= i < |a|
    ensures FoldR(a, poly, data)[i] == (i + 8 * |data| < |a| && a[i + 8 * |data|])
  {
    if data != [] {
      var init, b := data[..|data| - 1], data[|data| - 1];
      var before, after := FoldR(a, poly, init), FoldR(a, poly, data);
      ByteRHigh(before, poly, w, b, i);
      assert after[i] == (i + 8 < |a| && before[i + 8]);
      if i + 8 < |a| { FoldRHigh(a, poly, w, init, i + 8); }
    }
  }

  /** What undoing the last step of a message of m bytes gets wrong, all of it above the width. */
  function Gap(p: Parameters, m: nat): (d: Word)
    requires p.Ok()
    ensures |d| == p.size
  {
    seq(p.size, i requires 0 <= i < p.size =>
      i >= p.width
      && (p.reflectInput == p.reflectOutput && p.finalXor[i]) != (i + 8 * m < p.size && p.initialValue[i + 8 * m]))
  }

  lemma UndoGap(p: Parameters, data: seq<Byte>)
    requires p.Ok() && p.reflectInput
    ensures var r := Remainder(p, data, p.initialValue);
            Unfinalized(p, Finalized(p, r)) == Xor(r, Gap(p, |data|))
  {
    var r := Remainder(p, data, p.initialValue);
    var r' := Unfinalized(p, Finalized(p, r));
    UndoRestoresLow(p, r);
    forall i: nat | p.width <= i < p.size
      ensures r'[i] == (r[i] != Gap(p, |data|)[i])
    {
      FoldRHigh(p.initialValue, Reversed(p.polynomial, p.width), p.width, data, i);
    }
  }

  /** The gap left by a part of m bytes has no effect within the width n bytes later. */
  predicate Harmless(p: Parameters, m: nat, n: nat)
    requires p.Ok()
  {
    p.reflectInput ==> LowEq(StepsR(Gap(p, m), Reversed(p.polynomial, p.width), 8 * n), Zero(p.size), p.width)
  }

  lemma XorHarmless(a: Word, d: Word, n: nat)
    requires |a| == |d|
    ensures LowEq(Xor(a, d), a, n) <==> LowEq(d, Zero(|d|), n)
  {
    forall i | 0 <= i < |a|
      ensures Xor(a, d)[i] == a[i] <==> d[i] == Zero(|d|)[i]
    {
    }
  }

  /** Continuing after the undone last step goes wrong within the width exactly by what becomes of the gap. */
  lemma GapRuns(p: Parameters, a: seq<Byte>, b: seq<Byte>)
    requires p.Ok()
    ensures var r := Remainder(p, a, p.initialValue);
            LowEq(Remainder(p, b, Unfinalized(p, Finalized(p, r))), Remainder(p, b, r), p.width) <==>
            Harmless(p, |a|, |b|)
  {
    var r := Remainder(p, a, p.initialValue);
    if p.reflectInput {
      var poly := Reversed(p.polynomial, p.width);
      UndoGap(p, a);
      FoldRLinear(r, Gap(p, |a|), poly, b);
      XorHarmless(FoldR(r, poly, b), StepsR(Gap(p, |a|), poly, 8 * |b|), p.width);
    } else {
      UndoRestoresLow(p, r);
      RemainderLow(p, b, Unfinalized(p, Finalized(p, r)), r);
    }
  }

  /** For every split: the two parts give the CRC of the whole message exactly when the gap is harmless. */
  lemma PartsExactly(p: Parameters, a: seq<Byte>, b: seq<Byte>)
    requires p.Ok()
    ensures Continued(p, b, CrcOf(p, a)) == CrcOf(p, a + b) <==> Harmless(p, |a|, |b|)
  {
    var r := Remainder(p, a, p.initialValue);
    RemainderAppend(p, a, b, p.initialValue);
    FinalizedEqual(p, Remainder(p, b, Unfinalized(p, Finalized(p, r))), Remainder(p, b, r));
    GapRuns(p, a, b);
  }

  lemma LowestBit(d: Word, w: nat) returns (i: nat)
    requires !Fits(d, w)
    ensures w <= i < |d| && d[i] && forall j :: w <= j < i ==> !d[j]
  {
    i := w;
    while !d[i]
      invariant w <= i < |d| && (forall j :: w <= j < i ==> !d[j])
      invariant exists j :: i <= j < |d| && d[j]
      decreases |d| - i
    {
      i := i + 1;
    }
  }

  /** With a width of a byte or more, a gap does harm before it can be shifted through. */
  lemma GapHarms(p: Parameters, m: nat) returns (n: nat)
    requires p.Ok() && p.reflectInput && p.width >= 8 && !Fits(Gap(p, m), p.width)
    ensures !Harmless(p, m, n)
  {
    var d, poly := Gap(p, m), Reversed(p.polynomial, p.width);
    var i := LowestBit(d, p.width);
    n := (i - p.width) / 8 + 1;
    StepsRShift(d, poly, 8 * n);
    assert Shr(d, 8 * n)[i - 8 * n];
  }

  lemma MessageOf(m: nat) returns (data: seq<Byte>)
    ensures |data| == m
  {
    data := seq(m, i => Zero(8));
  }

  lemma LossyPart(p: Parameters) returns (m: nat)
    requires p.Ok() && !Splittable(p)
    ensures !Fits(Gap(p, m), p.width)
  {
    if p.reflectOutput && !Fits(p.finalXor, p.width) {
      m := p.size;
      var i :| p.width <= i < p.size && p.finalXor[i];
      assert Gap(p, m)[i];
    } else {
      m := 0;
      var i :| p.width <= i < p.size && p.initialValue[i];
      assert Gap(p, m)[i];
    }
  }

  /** For widths of a byte or more, every split of every message works if and only if the parameters allow it. */
  lemma MultiPartExactly(p: Parameters)
    requires p.Ok() && p.width >= 8
    ensures Splittable(p) <==> forall a: seq<Byte>, b: seq<Byte> :: Continued(p, b, CrcOf(p, a)) == CrcOf(p, a + b)
  {
    if Splittable(p) {
      forall a: seq<Byte>, b: seq<Byte>
        ensures Continued(p, b, CrcOf(p, a)) == CrcOf(p, a + b)
      {
        MultiPart(p, a, b);
      }
    } else {
      var m := LossyPart(p);
      var n := GapHarms(p, m);
      var a := MessageOf(m);
      var b := MessageOf(n);
      PartsExactly(p, a, b);
      assert Continued(p, b, CrcOf(p, a)) != CrcOf(p, a + b);
    }
  }

  /** The CRC of a message from any split of it, and of a message after any prefix with the given CRC. */
  lemma EverySplit(p: Parameters, data: seq<Byte>)
    requires p.Ok() && Splittable(p)
    ensures forall k :: 0 <= k <= |data| ==> CrcOf(p, data) == Continued(p, data[k..], CrcOf(p, data[..k]))
  {
    forall k | 0 <= k <= |data|
      ensures CrcOf(p, data) == Continued(p, data[k..], CrcOf(p, data[..k]))
    {
      MultiPart(p, data[..k], data[k..]);
      assert data[..k] + data[k..] == data;
    }
  }

  lemma EveryPrefix(p: Parameters, data: seq<Byte>, crc: Word)
    requires p.Ok() && Splittable(p) && |crc| == p.size
    ensures forall prefix :: crc == CrcOf(p, prefix) ==> Continued(p, data, crc) == CrcOf(p, prefix + data)
  {
    forall prefix | crc == CrcOf(p, prefix)
      ensures Continued(p, data, crc) == CrcOf(p, prefix + data)
    {
      MultiPart(p, prefix, data);
    }
  }

  // ---------------------------------------------------------------- the code

  method Reflect(value: Word, numBits: nat) returns (reversed: Word)
    requires |value| > 0 && numBits <= |value|
    ensures reversed == Reversed(value, numBits)
  {
    reversed := Zero(|value|);
    var v := value;
    for i := 0 to numBits
      invariant v == Shr(value, i) && reversed == Reversed(value, i)
    {
      assert v[0] == value[i];
      reversed := Shl(reversed, 1)[0 := v[0]];
      v := Shr(v, 1);
    }
  }

  method Finalize(p: Parameters, remainder: Word) returns (crc: Word)
    requires p.Ok() && |remainder| == p.size
    ensures crc == Finalized(p, remainder)
    ensures Fits(crc, p.width) && LowEq(Unfinalized(p, crc), remainder, p.width)
    ensures forall i: nat :: i < p.width ==>
              crc[i] == (remainder[if p.reflectInput != p.reflectOutput then p.width - 1 - i else i] != p.finalXor[i])
  {
    UndoRestoresLow(p, remainder);
    forall i: nat | i < p.width { FinalizedBit(p, remainder, i); }
    var r := remainder;
    if p.reflectInput != p.reflectOutput {
      r := Reflect(r, p.width);
    }
    crc := Low(Xor(r, p.finalXor), p.width);
  }

  method UndoFinalize(p: Parameters, crc: Word) returns (remainder: Word)
    requires p.Ok() && |crc| == p.size
    ensures remainder == Unfinalized(p, crc)
    ensures Finalized(p, remainder) == Low(crc, p.width)
  {
    remainder := Xor(Low(crc, p.width), p.finalXor);
    if p.reflectInput != p.reflectOutput {
      remainder := Reflect(remainder, p.width);
    }
  }

  method RemainderReflected(r: Word, poly: Word, data: seq<Byte>) returns (remainder: Word)
    requires |r| == |poly| >= 8
    ensures remainder == FoldR(r, poly, data)
  {
    remainder := r;
    for k := 0 to |data|
      invariant |remainder| == |r| && remainder == FoldR(r, poly, data[..k])
    {
      remainder := Xor(remainder, Widen(data[k], |r|));
      ghost var start := remainder;
      for i := 0 to 8
        invariant |remainder| == |r| && remainder == StepsR(start, poly, i)
      {
        remainder := Xor(Shr(remainder, 1), Times(remainder[0], poly));
      }
      assert data[..k + 1][..k] == data[..k];
    }
    assert data[..|data|] == data;
  }

  method RemainderForward(r: Word, w: nat, poly: Word, data: seq<Byte>) returns (remainder: Word)
    requires |r| == |poly| && 8 <= w <= |r|
    ensures remainder == FoldL(r, w, poly, data)
  {
    remainder := r;
    for k := 0 to |data|
      invariant |remainder| == |r| && remainder == FoldL(r, w, poly, data[..k])
    {
      remainder := Xor(remainder, Shl(Widen(data[k], |r|), w - 8));
      ghost var start := remainder;
      for i := 0 to 8
        invariant |remainder| == |r| && remainder == StepsL(start, w - 1, poly, i)
      {
        remainder := Xor(Shl(remainder, 1), Times(remainder[w - 1], poly));
      }
      assert data[..k + 1][..k] == data[..k];
    }
    assert data[..|data|] == data;
  }

  /** CalculateRemainder, bit by bit. */
  method RemainderByBits(p: Parameters, data: seq<Byte>, r: Word) returns (remainder: Word)
    requires p.Ok() && |r| == p.size
    ensures remainder == Remainder(p, data, r)
  {
    if p.reflectInput {
      var poly := Reflect(p.polynomial, p.width);
      remainder := RemainderReflected(r, poly, data);
    } else if p.width >= 8 {
      remainder := RemainderForward(r, p.width, p.polynomial, data);
    } else {
      var shift := 8 - p.width;
      remainder := RemainderForward(Shl(r, shift), 8, Shl(p.polynomial, shift), data);
      remainder := Shr(remainder, shift);
    }
  }

  lemma TableFoldLast(p: Parameters, r: Word, data: seq<Byte>, k: nat)
    requires p.Ok() && |r| == p.size && k < |data|
    ensures TableFold(p, r, data[..k + 1]) == TableByte(p, TableFold(p, r, data[..k]), data[k])
  {
    assert data[..k + 1][..k] == data[..k];
  }

  /** A lookup table for one set of parameters. */
  class Table {
    const p: Parameters
    const table: array<Word>

    ghost predicate Valid()
      reads table
    {
      p.Ok() && table.Length == 256 && forall b :: 0 <= b < 256 ==> table[b] == Entry(p, FromNat(b, 8))
    }

    /** InitTable. */
    constructor (p: Parameters)
      requires p.Ok()
      ensures Valid() && this.p == p
    {
      this.p := p;
      table := new Word[256](_ => []);
      new;
      for b := 0 to 256
        invariant forall k :: 0 <= k < b ==> table[k] == Entry(p, FromNat(k, 8))
      {
        var crc := RemainderByBits(p, [FromNat(b, 8)], Zero(p.size));
        crc := Low(crc, p.width);
        if !p.reflectInput && p.width < 8 {
          crc := Shl(crc, 8 - p.width);
        }
        table[b] := crc;
      }
    }

    method Lookup(b: Byte) returns (entry: Word)
      requires Valid()
      ensures entry == Entry(p, b)
    {
      ByteIndex(b);
      entry := table[ToNat(b)];
    }

    method NextByte(r: Word, b: Byte) returns (r': Word)
      requires Valid() && |r| == p.size
      ensures r' == TableByte(p, r, b)
    {
      if p.reflectInput {
        var entry := Lookup(LowByte(r, b));
        r' := Xor(Shr(r, 8), entry);
      } else if p.width >= 8 {
        var entry := Lookup(TopByte(r, p.width, b));
        r' := Xor(Shl(r, 8), entry);
      } else {
        r' := Lookup(LowByte(r, b));
      }
    }

    method FoldByTable(start: Word, data: seq<Byte>) returns (remainder: Word)
      requires Valid() && |start| == p.size
      ensures remainder == TableFold(p, start, data)
    {
      remainder := start;
      for k := 0 to |data|
        invariant |remainder| == p.size && remainder == TableFold(p, start, data[..k])
      {
        TableFoldLast(p, start, data, k);
        remainder := NextByte(remainder, data[k]);
      }
      assert data[..|data|] == data;
    }

    /** CalculateRemainder, by table: what the bits give, within the width. */
    method RemainderByTable(data: seq<Byte>, r: Word) returns (remainder: Word)
      requires Valid() && |r| == p.size
      ensures remainder == TableRemainder(p, data, r)
      ensures LowEq(remainder, Remainder(p, data, r), p.width)
    {
      RemaindersAgree(p, data, r);
      if !p.reflectInput && p.width < 8 {
        remainder := FoldByTable(Shl(r, 8 - p.width), data);
        remainder := Shr(remainder, 8 - p.width);
      } else {
        remainder := FoldByTable(r, data);
      }
    }

    method Calculate(data: seq<Byte>) returns (crc: Word)
      requires Valid()
      ensures crc == CrcOf(p, data)
      ensures Splittable(p) ==> forall k :: 0 <= k <= |data| ==> crc == Continued(p, data[k..], CrcOf(p, data[..k]))
    {
      if Splittable(p) { EverySplit(p, data); }
      var remainder := RemainderByTable(data, p.initialValue);
      TableCrcAgrees(p, data, p.initialValue);
      crc := Finalize(p, remainder);
    }

    method Continue(data: seq<Byte>, crc: Word) returns (crc': Word)
      requires Valid() && |crc| == p.size
      ensures crc' == Continued(p, data, crc)
      ensures Splittable(p) ==> forall prefix :: crc == CrcOf(p, prefix) ==> crc' == CrcOf(p, prefix + data)
    {
      if Splittable(p) { EveryPrefix(p, data, crc); }
      var start := UndoFinalize(p, crc);
      var remainder := RemainderByTable(data, start);
      TableCrcAgrees(p, data, start);
      crc' := Finalize(p, remainder);
    }
  }

  method Calculate(p: Parameters, data: seq<Byte>) returns (crc: Word)
    requires p.Ok()
    ensures crc == CrcOf(p, data)
    ensures Splittable(p) ==> forall k :: 0 <= k <= |data| ==> crc == Continued(p, data[k..], CrcOf(p, data[..k]))
  {
    if Splittable(p) { EverySplit(p, data); }
    var remainder := RemainderByBits(p, data, p.initialValue);
    crc := Finalize(p, remainder);
  }

  method Continue(p: Parameters, data: seq<Byte>, crc: Word) returns (crc': Word)
    requires p.Ok() && |crc| == p.size
    ensures crc' == Continued(p, data, crc)
    ensures Splittable(p) ==> forall prefix :: crc == CrcOf(p, prefix) ==> crc' == CrcOf(p, prefix + data)
  {
    if Splittable(p) { EveryPrefix(p, data, crc); }
    var remainder := UndoFinalize(p, crc);
    remainder := RemainderByBits(p, data, remainder);
    crc' := Finalize(p, remainder);
  }
}
