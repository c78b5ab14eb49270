/** The table of inverses modulo 256 used by the Montgomery digit step (rpcs3/Crypto/ec.cpp). */
module InverseTable {
  import opened Arith
  import opened BigNum

  /** Inverses of the odd bytes modulo 256, eight to a row: entry `k` inverts `2 * k + 1`. */
  const INV256: seq<seq<u8>> := [
    [0x01, 0xab, 0xcd, 0xb7, 0x39, 0xa3, 0xc5, 0xef],
    [0xf1, 0x1b, 0x3d, 0xa7, 0x29, 0x13, 0x35, 0xdf],
    [0xe1, 0x8b, 0xad, 0x97, 0x19, 0x83, 0xa5, 0xcf],
    [0xd1, 0xfb, 0x1d, 0x87, 0x09, 0xf3, 0x15, 0xbf],
    [0xc1, 0x6b, 0x8d, 0x77, 0xf9, 0x63, 0x85, 0xaf],
    [0xb1, 0xdb, 0xfd, 0x67, 0xe9, 0xd3, 0xf5, 0x9f],
    [0xa1, 0x4b, 0x6d, 0x57, 0xd9, 0x43, 0x65, 0x8f],
    [0x91, 0xbb, 0xdd, 0x47, 0xc9, 0xb3, 0xd5, 0x7f],
    [0x81, 0x2b, 0x4d, 0x37, 0xb9, 0x23, 0x45, 0x6f],
    [0x71, 0x9b, 0xbd, 0x27, 0xa9, 0x93, 0xb5, 0x5f],
    [0x61, 0x0b, 0x2d, 0x17, 0x99, 0x03, 0x25, 0x4f],
    [0x51, 0x7b, 0x9d, 0x07, 0x89, 0x73, 0x95, 0x3f],
    [0x41, 0xeb, 0x0d, 0xf7, 0x79, 0xe3, 0x05, 0x2f],
    [0x31, 0x5b, 0x7d, 0xe7, 0x69, 0x53, 0x75, 0x1f],
    [0x21, 0xcb, 0xed, 0xd7, 0x59, 0xc3, 0xe5, 0x0f],
    [0x11, 0x3b, 0x5d, 0xc7, 0x49, 0x33, 0x55, 0xff]
  ]

  /** Down a column, entries step by `16 * c` modulo 256. */
  predicate RowSteps(row: seq<u8>, r: int) {
    && |row| == 8
    && row[0] as int == (0x1 + 240 * r) % 256
    && row[1] as int == (0xab + 112 * r) % 256
    && row[2] as int == (0xcd + 112 * r) % 256
    && row[3] as int == (0xb7 + 240 * r) % 256
    && row[4] as int == (0x39 + 240 * r) % 256
    && row[5] as int == (0xa3 + 112 * r) % 256
    && row[6] as int == (0xc5 + 112 * r) % 256
    && row[7] as int == (0xef + 240 * r) % 256
  }

  lemma Rows0To3(r: nat)
    requires 0 <= r < 4
    ensures |INV256| == 16 && RowSteps(INV256[r], r)
  {
    match r
    case 0 => case 1 => case 2 => case 3 =>
  }

  lemma Rows4To7(r: nat)
    requires 4 <= r < 8
    ensures |INV256| == 16 && RowSteps(INV256[r], r)
  {
    match r
    case 4 => case 5 => case 6 => case 7 =>
  }

  lemma Rows8To11(r: nat)
    requires 8 <= r < 12
    ensures |INV256| == 16 && RowSteps(INV256[r], r)
  {
    match r
    case 8 => case 9 => case 10 => case 11 =>
  }

  lemma Rows12To15(r: nat)
    requires 12 <= r < 16
    ensures |INV256| == 16 && RowSteps(INV256[r], r)
  {
    match r
    case 12 => case 13 => case 14 => case 15 =>
  }

  lemma TableSteps(r: nat)
    requires r < 16
    ensures |INV256| == 16 && RowSteps(INV256[r], r)
  {
    if r < 4 {
      Rows0To3(r);
    } else if r < 8 {
      Rows4To7(r);
    } else if r < 12 {
      Rows8To11(r);
    } else {
      Rows12To15(r);
    }
  }

  /** If `t` inverts `x0` and the step `16 * c` offsets a step of 16 in `x0`, every entry of the column inverts. */
  lemma ColumnInverts(t: int, c: int, s: int, x0: int, r: int, y: int, x: int)
    requires ColumnBase(t, c, x0)
    requires s == 16 * c && y == (t + s * r) % 256 && x == x0 + 16 * r
    ensures (y * x) % 256 == 1
  {
    var u, e := t + s * r, (t + c * x0) / 16;
    CongMod(u, 256);
    CongMul(y, u, x, x, 256);
    calc {
      u * x;
      (t + 16 * c * r) * (x0 + 16 * r);
      t * x0 + 16 * r * (t + c * x0) + 256 * (c * r * r);
      { assert t + c * x0 == 16 * e; assert 16 * r * (16 * e) == 256 * (r * e); }
      t * x0 + 256 * (r * e + c * r * r);
    }
    CongIntro(u * x, t * x0, r * e + c * r * r, 256);
    CongTrans(y * x, u * x, t * x0, 256);
    CongToMod(y * x, t * x0, 256);
  }

  /** The column of `j`: its first entry `t`, its step `16 * c`. */
  lemma Column(row: seq<u8>, r: int, j: int) returns (t: int, c: int)
    requires RowSteps(row, r) && 0 <= j < 8
    ensures (c == 15 && row[j] as int == (t + 240 * r) % 256) || (c == 7 && row[j] as int == (t + 112 * r) % 256)
    ensures ColumnBase(t, c, 2 * j + 1)
  {
    match j
    case 0 => t, c := 0x1, 15; assert ColumnBase(0x1, 15, 1);
    case 1 => t, c := 0xab, 7; assert ColumnBase(0xab, 7, 3);
    case 2 => t, c := 0xcd, 7; assert ColumnBase(0xcd, 7, 5);
    case 3 => t, c := 0xb7, 15; assert ColumnBase(0xb7, 15, 7);
    case 4 => t, c := 0x39, 15; assert ColumnBase(0x39, 15, 9);
    case 5 => t, c := 0xa3, 7; assert ColumnBase(0xa3, 7, 11);
    case 6 => t, c := 0xc5, 7; assert ColumnBase(0xc5, 7, 13);
    case 7 => t, c := 0xef, 15; assert ColumnBase(0xef, 15, 15);
  }

  predicate ColumnBase(t: int, c: int, x0: int) {
    (t * x0) % 256 == 1 && (t + c * x0) % 16 == 0
  }

  lemma EntryInverts(row: seq<u8>, r: int, j: int, x: int)
    requires RowSteps(row, r) && 0 <= j < 8 && x == 16 * r + 2 * j + 1
    ensures (row[j] as int * x) % 256 == 1
  {
    var t, c := Column(row, r, j);
    ColumnInverts(t, c, if c == 15 then 240 else 112, 2 * j + 1, r, row[j] as int, x);
  }

  /** The table entry for the odd byte `x`. */
  function Inverse256(x: u8): (y: u8)
    requires x % 2 == 1
    ensures (y as int * x as int) % 256 == 1
  {
    var r, j := x as int / 16, x as int % 16 / 2;
    TableSteps(r);
    EntryInverts(INV256[r], r, j, x as int);
    INV256[r][j]
  }
}
