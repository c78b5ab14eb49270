/**
 * The base-57 printer and parser (Utilities/StrFmt.cpp): eight bytes, read as a big-endian number, become eleven
 * characters, and back.
 */
module Base57 {
  import opened Arith
  import opened BigNum

  const U64: nat := 0x1_0000_0000_0000_0000

  /** Characters in a group, bytes in a block. */
  const GROUP: nat := 11
  const BLOCK: nat := 8

  // ---------------------------------------------------------------- characters

  /** The printable characters without B, D, I, O and l, in order. */
  const ALPHABET: string :=
    "0123456789" + "AC" + "EFGH" + "JKLMN" + "PQRSTUVWXYZ" + "abcdefghijk" + "mnopqrstuvwxyz"

  datatype Digit = Digit(value: nat) | NotADigit

  predicate IsDigit(c: char) {
    '0' <= c <= '9'
  }

  predicate IsUpper(c: char) {
    'A' <= c <= 'Z'
  }

  predicate IsLower(c: char) {
    'a' <= c <= 'z'
  }

  /** The parser's reading of a character. */
  function ToVal(c: char): Digit {
    if IsDigit(c) then Digit(c as int - '0' as int)
    else if IsUpper(c) then
      if c == 'B' || c == 'D' || c == 'I' || c == 'O' then NotADigit
      else
        var skipped := if c > 'O' then 4 else if c > 'I' then 3 else if c > 'D' then 2 else if c > 'B' then 1 else 0;
        Digit(c as int - skipped - 'A' as int + 10)
    else if IsLower(c) then
      if c == 'l' then NotADigit
      else Digit(c as int - (if c > 'l' then 1 else 0) - 'a' as int + 10 + 22)
    else NotADigit
  }

  predicate Consecutive(s: string, c: char) {
    forall i :: 0 <= i < |s| ==> s[i] as int == c as int + i
  }

  /** The code of the character printed for a digit. */
  function CodeOf(v: nat): int
    requires v < 57
  {
    if v < 10 then '0' as int + v
    else if v == 10 then 'A' as int
    else if v == 11 then 'C' as int
    else if v < 16 then 'E' as int + (v - 12)
    else if v < 21 then 'J' as int + (v - 16)
    else if v < 32 then 'P' as int + (v - 21)
    else if v < 43 then 'a' as int + (v - 32)
    else 'm' as int + (v - 43)
  }

  lemma AlphabetCodes(v: nat)
    requires v < 57
    ensures |ALPHABET| == 57 && ALPHABET[v] as int == CodeOf(v)
  {
    assert Consecutive("0123456789", '0') && Consecutive("EFGH", 'E') && Consecutive("JKLMN", 'J');
    assert Consecutive("PQRSTUVWXYZ", 'P') && Consecutive("abcdefghijk", 'a') && Consecutive("mnopqrstuvwxyz", 'm');
  }

  /** The parser reads each printed character as the digit it was printed for. */
  lemma PrintedIsRead(v: nat)
    requires v < 57
    ensures |ALPHABET| == 57 && ToVal(ALPHABET[v]) == Digit(v)
  {
    AlphabetCodes(v);
  }

  /** And it accepts no other characters. */
  lemma ReadIsPrinted(c: char)
    requires ToVal(c).Digit?
    ensures |ALPHABET| == 57 && ToVal(c).value < 57 && ALPHABET[ToVal(c).value] == c
  {
    AlphabetCodes(ToVal(c).value);
  }

  /** The alphabet is the digits and letters without B, D, I, O and l, in ascending order, which leaves no other. */
  lemma AlphabetExactly(c: char)
    ensures c in ALPHABET <==> (IsDigit(c) || IsUpper(c) || IsLower(c)) && c !in {'B', 'D', 'I', 'O', 'l'}
    ensures forall u: nat, v: nat :: u < v < |ALPHABET| ==> ALPHABET[u] < ALPHABET[v]
  {
    forall u: nat, v: nat | u < v < |ALPHABET|
      ensures ALPHABET[u] < ALPHABET[v]
    {
      AlphabetCodes(u);
      AlphabetCodes(v);
    }
    if c in ALPHABET {
      var v: nat :| v < |ALPHABET| && ALPHABET[v] == c;
      AlphabetCodes(v);
    }
    if (IsDigit(c) || IsUpper(c) || IsLower(c)) && c !in {'B', 'D', 'I', 'O', 'l'} {
      ReadIsPrinted(c);
    }
  }

  // ---------------------------------------------------------------- groups of eleven characters

  /** The n lowest base-57 digits of v, most significant first. */
  function Digits(v: nat, n: nat): (s: string)
    ensures |s| == n
  {
    if n == 0 then "" else
      PrintedIsRead(v % 57);
      Digits(v / 57, n - 1) + [ALPHABET[v % 57]]
  }

  /** The digit at position j of a group; positions past the end count as zero. */
  function DigitAt(s: string, j: nat): Digit {
    if j < |s| then ToVal(s[j]) else Digit(0)
  }

  predicate Readable(s: string) {
    forall j :: 0 <= j < 11 ==> DigitAt(s, j).Digit?
  }

  /** The number read off the first n positions. */
  function Value(s: string, n: nat): nat
    requires Readable(s) && n <= 11
  {
    if n == 0 then 0 else 57 * Value(s, n - 1) + DigitAt(s, n - 1).value
  }

  /** A group is accepted when every character is a digit and the number fits in 64 bits. */
  predicate Accepted(s: string) {
    Readable(s) && Value(s, GROUP) < U64
  }

  lemma {:induction false} DigitsReadable(v: nat, n: nat, j: nat)
    requires j < n
    ensures ToVal(Digits(v, n)[j]).Digit?
  {
    PrintedIsRead(v % 57);
    if j < n - 1 {
      DigitsReadable(v / 57, n - 1, j);
    }
  }

  /** Reading what was printed gives the number back, as far as n digits hold it. */
  lemma {:induction false} ValueOfDigits(v: nat, n: nat, s: string)
    requires n <= 11 <= |s| && Readable(s) && s[..n] == Digits(v, n)
    ensures Value(s, n) == v % Pow57(n)
  {
    if n > 0 {
      PrintedIsRead(v % 57);
      assert s[..n][..n - 1] == s[..n - 1];
      assert s[n - 1] == s[..n][n - 1] == ALPHABET[v % 57];
      ValueOfDigits(v / 57, n - 1, s);
      ModSplit(v, Pow57(n - 1));
    }
  }

  function Pow57(n: nat): (p: nat)
    ensures p > 0
  {
    if n == 0 then 1 else 57 * Pow57(n - 1)
  }

  lemma ModSplit(v: nat, p: nat)
    requires p > 0
    ensures v % (57 * p) == 57 * ((v / 57) % p) + v % 57
  {
    var q, r := v / 57, v % 57;
    var a, b := q / p, q % p;
    assert v == a * (57 * p) + (57 * b + r) by {
      assert q == a * p + b;
      assert 57 * (a * p) == a * (57 * p);
    }
    assert 57 * b + r < 57 * p;
    DivUnique(v, a, 57 * b + r, 57 * p);
  }

  lemma Pow57At11()
    ensures U64 < Pow57(GROUP)
  {
  }

  lemma PrintedGroup(v: nat, s: string)
    requires v < U64 && |s| >= 11 && s[..11] == Digits(v, GROUP)
    ensures Accepted(s) && Value(s, GROUP) == v
  {
    forall j | 0 <= j < 11
      ensures DigitAt(s, j).Digit?
    {
      DigitsReadable(v, GROUP, j);
      assert s[j] == s[..11][j];
    }
    ValueOfDigits(v, GROUP, s);
    Pow57At11();
    DivUnique(v, 0, v, Pow57(GROUP));
  }

  /** Printing what was read gives the characters back. */
  lemma {:induction false} DigitsOfValue(s: string, n: nat)
    requires Readable(s) && n <= 11 <= |s|
    ensures Digits(Value(s, n), n) == s[..n]
  {
    if n > 0 {
      DigitsOfValue(s, n - 1);
      assert DigitAt(s, n - 1).Digit?;
      ReadIsPrinted(s[n - 1]);
      var d := DigitAt(s, n - 1).value;
      DivUnique(Value(s, n), Value(s, n - 1), d, 57);
      assert s[..n] == s[..n - 1] + [s[n - 1]];
    }
  }

  // ---------------------------------------------------------------- groups of eight bytes

  /** The n lowest bytes of v, most significant first. */
  function Bytes(v: nat, n: nat): (b: seq<u8>)
    ensures |b| == n
  {
    if n == 0 then [] else Bytes(v / 256, n - 1) + [(v % 256) as u8]
  }

  lemma {:induction false} BytesOfVal(b: seq<u8>)
    ensures Bytes(Val(b), |b|) == b
  {
    if b != [] {
      var init, last := b[..|b| - 1], b[|b| - 1];
      assert b == init + [last];
      ValSnoc(init, last);
      BytesOfVal(init);
      DivUnique(Val(b), Val(init), last as int, 256);
    }
  }

  lemma {:induction false} ValOfBytes(v: nat, n: nat)
    requires v < Pow(256, n)
    ensures Val(Bytes(v, n)) == v
  {
    if n > 0 {
      assert v / 256 < Pow(256, n - 1);
      ValOfBytes(v / 256, n - 1);
      ValSnoc(Bytes(v / 256, n - 1), (v % 256) as u8);
    }
  }

  lemma Pow256At8()
    ensures Pow(256, BLOCK) == U64
  {
  }

  /** Up to eight bytes as a number, missing ones counting as zero at the low end. */
  function Block(data: seq<u8>): (v: nat)
    ensures v < U64
  {
    var b := if |data| < 8 then data + Zeros(8 - |data|) else data[..8];
    ValBound(b);
    Pow256At8();
    Val(b)
  }

  function Zeros(n: nat): (z: seq<u8>)
    ensures |z| == n
  {
    seq(n, i => 0)
  }

  // ---------------------------------------------------------------- printing

  /** How many characters an incomplete block of r bytes gives. */
  function Tail(r: nat): nat
    requires r < 8
  {
    [0, 2, 3, 5, 6, 7, 9, 10][r]
  }

  function OutSize(n: nat): nat {
    n / 8 * 11 + Tail(n % 8)
  }

  lemma OutSizeStep(n: nat)
    ensures n < 8 ==> OutSize(n) == Tail(n) <= 11
    ensures n >= 8 ==> OutSize(n) == 11 + OutSize(n - 8)
  {
  }

  /** The text printed for a byte string. */
  function Formatted(data: seq<u8>): (s: string)
    ensures |s| == OutSize(|data|)
  {
    OutSizeStep(|data|);
    if |data| < 8 then Digits(Block(data), GROUP)[..Tail(|data|)]
    else Digits(Block(data), GROUP) + Formatted(data[8..])
  }

  lemma NextDigit(v: nat, d: nat, n: nat, text: string, c: char)
    requires d == v % 57 && CodeOf(d) == c as int && Digits(v / 57, n) == text
    ensures Digits(v, n + 1) == text + [c]
  {
    AlphabetCodes(d);
  }

  lemma ExampleNumber()
    ensures Block([1, 2, 3, 4, 5, 6, 7, 8]) == 0x102030405060708
  {
    var b: seq<u8> := [1, 2, 3, 4, 5, 6, 7, 8];
    assert b[..8] == b;
    ValSnoc([], 1);
    ValSnoc([1], 2);
    ValSnoc([1, 2], 3);
    ValSnoc([1, 2, 3], 4);
    ValSnoc([1, 2, 3, 4], 5);
    ValSnoc([1, 2, 3, 4, 5], 6);
    ValSnoc([1, 2, 3, 4, 5, 6], 7);
    ValSnoc([1, 2, 3, 4, 5, 6, 7], 8);
    assert b == [1, 2, 3, 4, 5, 6, 7] + [8];
  }

  lemma ExampleDigits()
    ensures Digits(0x102030405060708, GROUP) == "0CSki1bkGm6"
  {
    NextDigit(0, 0, 0, "", '0');
    NextDigit(0xb, 11, 1, "0", 'C');
    NextDigit(0x28b, 24, 2, "0C", 'S');
    NextDigit(0x911d, 42, 3, "0CS", 'k');
    NextDigit(0x204f9d, 40, 4, "0CSk", 'i');
    NextDigit(0x731b9f6, 1, 5, "0CSki", '1');
    NextDigit(0x19a1267e7, 33, 6, "0CSki1", 'b');
    NextDigit(0x5b4e192299, 42, 7, "0CSki1b", 'k');
    NextDigit(0x14546398b41f, 14, 8, "0CSki1bk", 'G');
    NextDigit(0x486ca2d001b12, 43, 9, "0CSki1bkG", 'm');
    NextDigit(0x102030405060708, 6, 10, "0CSki1bkGm", '6');
  }

  /** For example, the bytes 1 to 8. */
  lemma PrintedExample()
    ensures Formatted([1, 2, 3, 4, 5, 6, 7, 8]) == "0CSki1bkGm6"
  {
    var data: seq<u8> := [1, 2, 3, 4, 5, 6, 7, 8];
    ExampleNumber();
    ExampleDigits();
    assert data[8..] == [];
  }

  // ---------------------------------------------------------------- parsing

  datatype Parse = Ok(bytes: seq<u8>) | Rejected

  function Rest(s: string): string {
    if |s| < 11 then "" else s[11..]
  }

  /** The bytes a text stands for. */
  function Parsed(s: string): (r: Parse)
    decreases |s|
  {
    if s == "" then Ok([])
    else if !Accepted(s) then Rejected
    else match Parsed(Rest(s))
      case Rejected => Rejected
      case Ok(b) => Ok(Bytes(Value(s, GROUP), BLOCK) + b)
  }

  /** What the parser returns: nothing for a rejected text. */
  function Result(s: string): seq<u8> {
    match Parsed(s)
    case Rejected => []
    case Ok(b) => b
  }

  // ---------------------------------------------------------------- the two are inverse on whole blocks

  lemma {:induction false} ParsedWhole(s: string)
    ensures Parsed(s).Ok? ==> |Parsed(s).bytes| % 8 == 0
    decreases |s|
  {
    if s != "" && Accepted(s) {
      ParsedWhole(Rest(s));
    }
  }

  /** Printing whole blocks and parsing the text gives the bytes back. */
  lemma {:induction false} RoundTrip(data: seq<u8>)
    requires |data| % 8 == 0
    ensures Parsed(Formatted(data)) == Ok(data)
  {
    if data == [] {
    } else {
      var s := Formatted(data);
      RoundTrip(data[8..]);
      assert s[..11] == Digits(Block(data), GROUP) && Rest(s) == Formatted(data[8..]);
      PrintedGroup(Block(data), s);
      BytesOfVal(data[..8]);
      assert data == data[..8] + data[8..];
    }
  }

  /** Only whole blocks survive: the parser returns a multiple of eight bytes. */
  lemma RoundTripExactly(data: seq<u8>)
    ensures Result(Formatted(data)) == data <==> |data| % 8 == 0
  {
    if |data| % 8 == 0 {
      RoundTrip(data);
    } else {
      ParsedWhole(Formatted(data));
    }
  }

  lemma ReprintGroup(s: string, b: seq<u8>)
    requires |s| >= 11 && Accepted(s)
    ensures Formatted(Bytes(Value(s, GROUP), BLOCK) + b) == s[..11] + Formatted(b)
  {
    var v := Value(s, GROUP);
    var bytes := Bytes(v, BLOCK) + b;
    assert bytes[..8] == Bytes(v, BLOCK) && bytes[8..] == b;
    Pow256At8();
    ValOfBytes(v, BLOCK);
    DigitsOfValue(s, GROUP);
  }

  lemma ParsedStep(s: string)
    requires s != "" && Parsed(s).Ok?
    ensures Accepted(s) && Parsed(Rest(s)).Ok?
    ensures Parsed(s).bytes == Bytes(Value(s, GROUP), BLOCK) + Parsed(Rest(s)).bytes
  {
  }

  /** A text of whole groups that parses is printed again as it was. */
  lemma {:induction false} Reprint(s: string)
    requires |s| % 11 == 0 && Parsed(s).Ok?
    ensures Formatted(Parsed(s).bytes) == s
    decreases |s|
  {
    if s != "" {
      assert |s| >= 11;
      ParsedStep(s);
      var b := Parsed(Rest(s)).bytes;
      Reprint(Rest(s));
      ReprintGroup(s, b);
      assert s == s[..11] + Rest(s);
    }
  }

  /** Whether group g of a text is accepted. */
  predicate GroupAccepted(s: string, g: nat)
    requires g * 11 <= |s|
  {
    Accepted(s[g * 11..])
  }

  /** A text is rejected exactly when some group has a bad character or a number of 2^64 or more. */
  lemma {:induction false} RejectedExactly(s: string)
    ensures Parsed(s) == Rejected <==> exists g: nat :: g * 11 < |s| && !GroupAccepted(s, g)
    decreases |s|
  {
    if s != "" {
      assert s[0 * 11..] == s;
      assert GroupAccepted(s, 0) <==> Accepted(s);
      if Accepted(s) {
        var rest := Rest(s);
        RejectedExactly(rest);
        if exists g: nat :: g * 11 < |rest| && !GroupAccepted(rest, g) {
          var g: nat :| g * 11 < |rest| && !GroupAccepted(rest, g);
          assert rest[g * 11..] == s[(g + 1) * 11..];
          assert !GroupAccepted(s, g + 1);
        }
        if exists g: nat :: g * 11 < |s| && !GroupAccepted(s, g) {
          var g: nat :| g * 11 < |s| && !GroupAccepted(s, g);
          assert g > 0;
          assert rest[(g - 1) * 11..] == s[g * 11..];
          assert !GroupAccepted(rest, g - 1);
        }
      }
    }
  }

  // ---------------------------------------------------------------- printing never collides

  /** v without its m lowest digits. */
  function Drop(v: nat, m: nat): nat {
    if m == 0 then v else Drop(v / 57, m - 1)
  }

  /** The leading characters are the digits of the number without its low digits. */
  lemma {:induction false} DigitsPrefix(v: nat, n: nat, m: nat)
    requires m <= n
    ensures Digits(v, n)[..m] == Digits(Drop(v, n - m), m)
    decreases n
  {
    if m < n {
      DigitsPrefix(v / 57, n - 1, m);
      assert Digits(v, n)[..m] == Digits(v / 57, n - 1)[..m];
    }
  }

  lemma {:induction false} DropBound(v: nat, k: nat, m: nat)
    requires v < Pow57(k + m)
    ensures Drop(v, m) < Pow57(k)
  {
    if m > 0 {
      assert Pow57(k + m) == 57 * Pow57(k + (m - 1));
      DropBound(v / 57, k, m - 1);
    }
  }

  predicate Close(x: nat, y: nat, p: nat) {
    x < y + p && y < x + p
  }

  /** Numbers that differ only in their m lowest digits are close. */
  lemma {:induction false} DropClose(x: nat, y: nat, m: nat)
    requires Drop(x, m) == Drop(y, m)
    ensures Close(x, y, Pow57(m))
  {
    if m > 0 {
      DropClose(x / 57, y / 57, m - 1);
    }
  }

  lemma {:induction false} DigitsInjective(v: nat, w: nat, n: nat)
    requires v < Pow57(n) && w < Pow57(n) && Digits(v, n) == Digits(w, n)
    ensures v == w
  {
    if n > 0 {
      PrintedIsRead(v % 57);
      PrintedIsRead(w % 57);
      assert Digits(v, n)[n - 1] == Digits(w, n)[n - 1];
      assert Digits(v, n)[..n - 1] == Digits(v / 57, n - 1) && Digits(w, n)[..n - 1] == Digits(w / 57, n - 1);
      DigitsInjective(v / 57, w / 57, n - 1);
    }
  }

  lemma {:induction false} ValPadded(a: seq<u8>, k: nat)
    ensures Val(a + Zeros(k)) == Val(a) * Pow(256, k)
  {
    if k == 0 {
      assert a + Zeros(0) == a;
    } else {
      ValPadded(a, k - 1);
      assert a + Zeros(k) == (a + Zeros(k - 1)) + [0];
      ValSnoc(a + Zeros(k - 1), 0);
      var x, p := Val(a), Pow(256, k - 1);
      assert 256 * (x * p) == x * (256 * p);
    }
  }

  /** A tail of r bytes gets as few characters as can tell 256^r tails apart. */
  lemma TailIsLeast(r: nat)
    requires 0 < r < 8
    ensures Pow57(Tail(r) - 1) < Pow(256, r) <= Pow57(Tail(r))
  {
  }

  /** The characters dropped from an incomplete block weigh less than its missing bytes. */
  lemma TailGap(r: nat)
    requires 0 < r < 8
    ensures Pow57(GROUP - Tail(r)) <= Pow(256, 8 - r)
  {
  }

  lemma CloseMultiples(x: nat, y: nat, m: nat, p: nat)
    requires 0 < p <= m && Close(x * m, y * m, p)
    ensures x == y
  {
    assert (x - y) * m == x * m - y * m;
    MulBound(x - y, m);
  }

  /** An incomplete block is printed as the leading digits of its number. */
  lemma TailPrinted(a: seq<u8>, k: nat)
    requires 0 < |a| < 8 && k == Tail(|a|)
    ensures Formatted(a) == Digits(Drop(Block(a), GROUP - k), k) && Drop(Block(a), GROUP - k) < Pow57(k)
  {
    DigitsPrefix(Block(a), GROUP, k);
    Pow57At11();
    DropBound(Block(a), k, GROUP - k);
  }

  lemma TailNumber(a: seq<u8>)
    requires |a| < 8
    ensures Block(a) == Val(a) * Pow(256, 8 - |a|)
  {
    ValPadded(a, 8 - |a|);
  }

  lemma ValInjective(a: seq<u8>, b: seq<u8>)
    requires |a| == |b| && Val(a) == Val(b)
    ensures a == b
  {
    BytesOfVal(a);
    BytesOfVal(b);
  }

  lemma TailsClose(a: seq<u8>, b: seq<u8>, m: nat)
    requires 0 < |a| == |b| < 8 && m == GROUP - Tail(|a|)
    requires Close(Block(a), Block(b), Pow57(m))
    ensures a == b
  {
    TailNumber(a);
    TailNumber(b);
    TailGap(|a|);
    CloseMultiples(Val(a), Val(b), Pow(256, 8 - |a|), Pow57(m));
    ValInjective(a, b);
  }

  lemma SameTextClose(a: seq<u8>, b: seq<u8>, k: nat)
    requires 0 < |a| == |b| < 8 && k == Tail(|a|) && Formatted(a) == Formatted(b)
    ensures Close(Block(a), Block(b), Pow57(GROUP - k))
  {
    TailPrinted(a, k);
    TailPrinted(b, k);
    DigitsInjective(Drop(Block(a), GROUP - k), Drop(Block(b), GROUP - k), k);
    DropClose(Block(a), Block(b), GROUP - k);
  }

  lemma TailInjective(a: seq<u8>, b: seq<u8>)
    requires |a| == |b| < 8 && Formatted(a) == Formatted(b)
    ensures a == b
  {
    if |a| > 0 {
      var k := Tail(|a|);
      SameTextClose(a, b, k);
      TailsClose(a, b, GROUP - k);
    }
  }

  lemma SizesDiffer(m: nat, n: nat)
    requires OutSize(m) == OutSize(n)
    ensures m == n
  {
  }

  /** Different byte strings are printed differently, whole blocks or not. */
  lemma {:induction false} PrintingInjective(a: seq<u8>, b: seq<u8>)
    requires Formatted(a) == Formatted(b)
    ensures a == b
    decreases |a|
  {
    SizesDiffer(|a|, |b|);
    if |a| < 8 {
      TailInjective(a, b);
    } else {
      FirstGroup(a);
      FirstGroup(b);
      PrintingInjective(a[8..], b[8..]);
      Pow57At11();
      DigitsInjective(Block(a), Block(b), GROUP);
      ValInjective(a[..8], b[..8]);
      assert a == a[..8] + a[8..] && b == b[..8] + b[8..];
    }
  }

  lemma FirstGroup(a: seq<u8>)
    requires |a| >= 8
    ensures |Formatted(a)| >= 11 && Formatted(a)[..11] == Digits(Block(a), GROUP)
    ensures Formatted(a)[11..] == Formatted(a[8..])
  {
  }

  // ---------------------------------------------------------------- the printer

  /** Character k of the group printed for block g. */
  lemma {:induction false} FormattedAt(data: seq<u8>, g: nat, k: nat)
    requires 8 * g < |data| && k < 11 && 11 * g + k < |Formatted(data)|
    ensures Formatted(data)[11 * g + k] == Digits(Block(data[8 * g..]), GROUP)[k]
    decreases g
  {
    if g == 0 {
      FirstCharacter(data, k);
      assert data[0..] == data;
    } else {
      FirstGroup(data);
      var text, rest := Formatted(data), data[8..];
      assert text[11 * g + k] == text[11..][11 * (g - 1) + k];
      assert rest[8 * (g - 1)..] == data[8 * g..];
      FormattedAt(rest, g - 1, k);
    }
  }

  lemma FirstCharacter(data: seq<u8>, k: nat)
    requires k < 11 && k < |Formatted(data)|
    ensures Formatted(data)[k] == Digits(Block(data), GROUP)[k]
  {
  }

  lemma OutSizeBound(n: nat, g: nat)
    requires n <= 8 * g
    ensures OutSize(n) <= 11 * g
  {
  }

  /** The characters of one group, those that fit. */
  method PutGroup(ptr: array<char>, p: nat, v: nat)
    modifies ptr
    ensures forall k :: 0 <= k < 11 && p + k < ptr.Length ==> ptr[p + k] == Digits(v, GROUP)[k]
    ensures forall q :: 0 <= q < ptr.Length && q < p ==> ptr[q] == old(ptr[q])
  {
    ghost var group := Digits(v, GROUP);
    var value, j := v, 11;
    while j > 0
      invariant 0 <= j <= 11
      invariant group == Digits(value, j) + group[j..]
      invariant forall k :: j <= k < 11 && p + k < ptr.Length ==> ptr[p + k] == group[k]
      invariant forall q :: 0 <= q < ptr.Length && q < p ==> ptr[q] == old(ptr[q])
    {
      j := j - 1;
      PrintedIsRead(value % 57);
      assert Digits(value, j + 1) == Digits(value / 57, j) + [ALPHABET[value % 57]];
      assert group[j] == ALPHABET[value % 57];
      if p + j < ptr.Length {
        ptr[p + j] := ALPHABET[value % 57];
      }
      value := value / 57;
    }
  }

  method Format(out: string, data: seq<u8>) returns (r: string)
    ensures r == out + Formatted(data)
  {
    if |data| == 0 {
      return out;
    }
    var outSize := OutSize(|data|);
    var ptr := new char[outSize];
    var i, p := 0, 0;
    ghost var text, g := Formatted(data), 0;
    while i < |data|
      invariant 0 <= g && i == 8 * g && p == 11 * g
      invariant forall q :: 0 <= q < outSize && q < p ==> ptr[q] == text[q]
    {
      PutGroup(ptr, p, Block(data[i..]));
      forall q | p <= q < outSize && q < p + 11
        ensures ptr[q] == text[q]
      {
        FormattedAt(data, g, q - p);
        assert ptr[p + (q - p)] == Digits(Block(data[i..]), GROUP)[q - p];
      }
      i, p, g := i + 8, p + 11, g + 1;
    }
    OutSizeBound(|data|, g);
    assert ptr[..] == text;
    r := out + ptr[..];
  }

  // ---------------------------------------------------------------- the parser

  predicate ReadableFrom(s: string, j: nat) {
    forall i :: j <= i < 11 ==> DigitAt(s, i).Digit?
  }

  function Product(d: nat, p: nat): (r: nat)
    ensures r == d * p
  {
    assert d * p >= 0;
    d * p
  }

  /** The weight of the positions from j on. */
  function Weighted(s: string, j: nat): (w: nat)
    requires j <= 11 && ReadableFrom(s, j)
    decreases 11 - j
  {
    if j == 11 then 0 else Product(DigitAt(s, j).value, Pow57(10 - j)) + Weighted(s, j + 1)
  }

  lemma HornerStep(v: nat, d: nat, p: nat)
    ensures Product(57 * v + d, p) == Product(v, 57 * p) + Product(d, p)
  {
  }

  lemma {:induction false} WeightedIsValue(s: string, j: nat)
    requires Readable(s) && j <= 11
    ensures Product(Value(s, j), Pow57(11 - j)) + Weighted(s, j) == Value(s, GROUP)
    decreases 11 - j
  {
    if j < 11 {
      WeightedIsValue(s, j + 1);
      HornerStep(Value(s, j), DigitAt(s, j).value, Pow57(10 - j));
      assert Pow57(11 - j) == 57 * Pow57(10 - j);
      assert Value(s, j + 1) == 57 * Value(s, j) + DigitAt(s, j).value;
    } else {
      assert Pow57(0) == 1;
    }
  }

  lemma {:induction false} WeightedGrows(s: string, j: nat)
    requires Readable(s) && j <= 11
    ensures Weighted(s, j) <= Weighted(s, 0)
  {
    if j > 0 {
      WeightedGrows(s, j - 1);
      assert Weighted(s, j - 1) == Product(DigitAt(s, j - 1).value, Pow57(11 - j)) + Weighted(s, j);
    }
  }

  lemma QuotientTest(n: nat, res: nat, m: nat)
    requires m > 0
    ensures n / m < res <==> res * m > n
  {
    var q := n / m;
    var d := res - q - 1;
    assert n < q * m + m && q * m <= n;
    MulBound(d + 1, m);
    assert d * m == res * m - q * m - m;
    if d >= 0 { assert d * m >= 0; } else { MulBound(d, m); }
  }

  /** A group whose upper positions already weigh too much is not accepted. */
  lemma TooHeavy(s: string, j: nat)
    requires j <= 11 && ReadableFrom(s, j) && Weighted(s, j) >= U64
    ensures !Accepted(s)
  {
    if Readable(s) {
      WeightedGrows(s, j);
      WeightedIsValue(s, 0);
    }
  }

  method ReadGroup(s: string) returns (ok: bool, value: nat)
    ensures ok <==> Accepted(s)
    ensures ok ==> value == Value(s, GROUP)
  {
    value := 0;
    var j, multiplier := 11, 0;
    while j > 0
      invariant 0 <= j <= 11 && ReadableFrom(s, j)
      invariant value == Weighted(s, j) < U64
      invariant if j == 11 then multiplier == 0 else multiplier == Pow57(10 - j)
    {
      j := j - 1;
      multiplier := if multiplier == 0 then 1 else multiplier * 57;
      assert multiplier == Pow57(10 - j);
      if j < |s| {
        var res := ToVal(s[j]);
        if res == NotADigit {
          assert !DigitAt(s, j).Digit?;
          return false, 0;
        }
        assert ReadableFrom(s, j);
        QuotientTest(U64 - 1, res.value, multiplier);
        assert Weighted(s, j) == Product(res.value, multiplier) + value;
        if (U64 - 1) / multiplier < res.value {
          TooHeavy(s, j);
          return false, 0;
        }
        var addend := res.value * multiplier;
        if U64 - 1 - value < addend {
          TooHeavy(s, j);
          return false, 0;
        }
        value := value + addend;
      } else {
        assert Weighted(s, j) == Product(0, multiplier) + value;
      }
    }
    WeightedIsValue(s, 0);
    ok := true;
  }

  /** The bytes found so far, with what the rest of the text gives, are what the whole text gives. */
  predicate Progress(s: string, rest: string, found: seq<u8>) {
    Parsed(s) == After(found, Parsed(rest))
  }

  function After(found: seq<u8>, r: Parse): Parse {
    match r
    case Rejected => Rejected
    case Ok(b) => Ok(found + b)
  }

  function From(s: string, p: nat): string {
    if p <= |s| then s[p..] else ""
  }

  lemma Advance(s: string, rest: string, found: seq<u8>)
    requires Progress(s, rest, found) && rest != ""
    ensures !Accepted(rest) ==> Parsed(s) == Rejected
    ensures Accepted(rest) ==> Progress(s, Rest(rest), found + Bytes(Value(rest, GROUP), BLOCK))
  {
  }

  /** The size of the result: one block for each group, complete or not. */
  method ResultSize(n: nat) returns (size: nat, ghost groups: nat)
    ensures size == 8 * groups && n <= 11 * groups && (groups > 0 ==> 11 * (groups - 1) < n)
  {
    size := n / 11 * 8 + if n % 11 != 0 then 8 else 0;
    groups := (n + 10) / 11;
  }

  lemma NextRest(s: string, p: nat)
    requires p < |s|
    ensures From(s, p) == s[p..] != "" && Rest(s[p..]) == From(s, p + 11)
  {
  }

  /** One group: its eight bytes are stored, unless it is not accepted. */
  method NextGroup(s: string, p: nat, memory: array<u8>, i: nat) returns (ok: bool)
    requires p < |s| && i + 8 <= memory.Length && Progress(s, From(s, p), memory[..i])
    modifies memory
    ensures if ok then Progress(s, From(s, p + 11), memory[..i + 8]) else Result(s) == []
  {
    NextRest(s, p);
    Advance(s, s[p..], memory[..i]);
    var value;
    ok, value := ReadGroup(s[p..]);
    if ok {
      PutBlock(memory, i, value);
    }
  }

  method ReadGroups(s: string, memory: array<u8>, ghost groups: nat) returns (ok: bool)
    requires memory.Length == 8 * groups && |s| <= 11 * groups && (groups > 0 ==> 11 * (groups - 1) < |s|)
    modifies memory
    ensures if ok then memory[..] == Result(s) else Result(s) == []
  {
    var i, p := 0, 0;
    ghost var g := 0;
    Started(s, memory[..0]);
    while i < memory.Length
      invariant 0 <= g <= groups && i == 8 * g && p == 11 * g
      invariant Progress(s, From(s, p), memory[..i])
    {
      ok := NextGroup(s, p, memory, i);
      if !ok {
        return;
      }
      i, p, g := i + 8, p + 11, g + 1;
    }
    ok := true;
    ghost var found := memory[..];
    assert memory[..i] == found;
    Finished(s, p, found);
  }

  method FromString(s: string) returns (result: seq<u8>)
    ensures result == Result(s)
  {
    var size; ghost var groups;
    size, groups := ResultSize(|s|);
    var memory := new u8[size];
    var ok := ReadGroups(s, memory, groups);
    result := if ok then memory[..] else [];
  }

  lemma Started(s: string, found: seq<u8>)
    requires found == []
    ensures Progress(s, From(s, 0), found)
  {
  }

  lemma Finished(s: string, p: nat, found: seq<u8>)
    requires Progress(s, From(s, p), found) && p >= |s|
    ensures found == Result(s)
  {
  }

  /** The eight bytes of a number, most significant first. */
  method PutBlock(memory: array<u8>, i: nat, value: nat)
    requires i + 8 <= memory.Length
    modifies memory
    ensures memory[..i + 8] == old(memory[..i]) + Bytes(value, BLOCK)
  {
    ghost var block := Bytes(value, BLOCK);
    var v, j := value, 8;
    while j > 0
      invariant 0 <= j <= 8
      invariant block == Bytes(v, j) + block[j..]
      invariant forall k :: j <= k < 8 ==> memory[i + k] == block[k]
      invariant forall q :: 0 <= q < i ==> memory[q] == old(memory[q])
    {
      j := j - 1;
      assert block[j] == (v % 256) as u8;
      memory[i + j] := (v % 256) as u8;
      v := v / 256;
    }
  }
}
