/**
 * The stream that reads several files as one (the class gather_stream inside make_gather in Utilities/File.cpp).
 * The files are modelled as fixed byte strings with a read position each.
 */
module GatherStream {

  type Byte = x: int | 0 <= x < 256

  const S63 := 0x8000_0000_0000_0000
  const U64 := 0x1_0000_0000_0000_0000

  /** An entry of the ordered map from fragment ends to file indices. */
  datatype Fragment = Fragment(end: nat, index: nat)

  datatype Whence = SeekSet | SeekCur | SeekEnd

  function Min(a: nat, b: nat): nat {
    if a < b then a else b
  }

  // ---------------------------------------------------------------- the concatenation

  function Concat(files: seq<seq<Byte>>): seq<Byte> {
    if files == [] then [] else Concat(files[..|files| - 1]) + files[|files| - 1]
  }

  /** Where file k starts in the concatenation. */
  function Offset(files: seq<seq<Byte>>, k: nat): nat
    requires k <= |files|
  {
    |Concat(files[..k])|
  }

  lemma OffsetStep(files: seq<seq<Byte>>, k: nat)
    requires k < |files|
    ensures Concat(files[..k + 1]) == Concat(files[..k]) + files[k]
    ensures Offset(files, k + 1) == Offset(files, k) + |files[k]|
  {
    assert files[..k + 1][..k] == files[..k];
  }

  lemma {:induction false} ConcatPrefix(files: seq<seq<Byte>>, k: nat)
    requires k <= |files|
    ensures Concat(files[..k]) <= Concat(files)
    decreases |files| - k
  {
    if k == |files| {
      assert files[..k] == files;
    } else {
      OffsetStep(files, k);
      ConcatPrefix(files, k + 1);
    }
  }

  /** A stretch of one file is the same stretch of the concatenation. */
  lemma ConcatSlice(files: seq<seq<Byte>>, k: nat, a: nat, b: nat)
    requires k < |files| && a <= b <= |files[k]|
    ensures Offset(files, k) + b <= |Concat(files)|
    ensures Concat(files)[Offset(files, k) + a..Offset(files, k) + b] == files[k][a..b]
  {
    OffsetStep(files, k);
    ConcatPrefix(files, k + 1);
    var c, d := Concat(files[..k]), Concat(files[..k + 1]);
    assert Concat(files)[..|d|] == d;
    assert d[|c| + a..|c| + b] == files[k][a..b];
  }

  /** The bytes r stand in `all` from position pos on. */
  predicate IsAt(r: seq<Byte>, all: seq<Byte>, pos: nat) {
    pos + |r| <= |all| && forall i :: 0 <= i < |r| ==> r[i] == all[pos + i]
  }

  lemma IsAtJoin(a: seq<Byte>, b: seq<Byte>, all: seq<Byte>, pos: nat)
    requires IsAt(a, all, pos) && IsAt(b, all, pos + |a|)
    ensures IsAt(a + b, all, pos)
  {
  }

  lemma IsAtSlice(r: seq<Byte>, all: seq<Byte>, pos: nat)
    requires IsAt(r, all, pos)
    ensures r == all[pos..pos + |r|]
  {
  }

  // ---------------------------------------------------------------- the index

  /** No empty file, the first excepted, comes before a non-empty one. */
  predicate Indexable(files: seq<seq<Byte>>) {
    forall i, j :: 0 < i < j < |files| && files[i] == [] ==> files[j] == []
  }

  /** emplace at the end of an ordered map: an existing key keeps its value. */
  function Emplace(ends: seq<Fragment>, end: nat, index: nat): seq<Fragment> {
    if ends != [] && ends[|ends| - 1].end == end then ends else ends + [Fragment(end, index)]
  }

  /** The index built by the constructor. */
  function Index(files: seq<seq<Byte>>): seq<Fragment> {
    if files == [] then [] else
      var ends := Index(files[..|files| - 1]);
      Emplace(ends, |Concat(files)|, |ends|)
  }

  /** Entry i is for file i and says where it ends. */
  predicate EntryOk(files: seq<seq<Byte>>, ends: seq<Fragment>, i: nat) {
    i < |ends| <= |files| && ends[i] == Fragment(Offset(files, i + 1), i)
  }

  predicate Ascending(ends: seq<Fragment>) {
    forall i, j :: 0 <= i < j < |ends| ==> ends[i].end < ends[j].end
  }

  /** Every entry says where its file ends, and no later file holds anything. */
  predicate IndexOk(files: seq<seq<Byte>>, ends: seq<Fragment>) {
    && |ends| <= |files| && Ascending(ends)
    && (forall i: nat {:trigger EntryOk(files, ends, i)} :: i < |ends| ==> EntryOk(files, ends, i))
    && Offset(files, |ends|) == |Concat(files)|
  }

  lemma {:induction false} OffsetMono(files: seq<seq<Byte>>, i: nat, j: nat)
    requires i <= j <= |files|
    ensures Offset(files, i) <= Offset(files, j)
    decreases j
  {
    if i < j {
      OffsetStep(files, j - 1);
      OffsetMono(files, i, j - 1);
    }
  }

  lemma OffsetInit(files: seq<seq<Byte>>, n: nat, i: nat)
    requires i <= n <= |files|
    ensures Offset(files[..n], i) == Offset(files, i)
  {
    assert files[..n][..i] == files[..i];
  }

  /** With a non-empty file to follow, every file so far has its entry. */
  lemma AllEntered(files: seq<seq<Byte>>, n: nat, ends: seq<Fragment>)
    requires Indexable(files) && n < |files| && files[n] != [] && IndexOk(files[..n], ends) && (n > 0 ==> ends != [])
    ensures |ends| == n
  {
    var init, m := files[..n], |ends|;
    assert init[..n] == init;
    if m < n {
      OffsetStep(init, m);
      OffsetMono(init, m + 1, n);
    }
  }

  lemma EntriesKept(files: seq<seq<Byte>>, n: nat, ends: seq<Fragment>, ends': seq<Fragment>, i: nat)
    requires n <= |files| && IndexOk(files[..n], ends) && ends <= ends' && |ends'| <= |files| && i < |ends|
    ensures EntryOk(files, ends', i)
  {
    assert EntryOk(files[..n], ends, i);
    OffsetInit(files, n, i + 1);
  }

  /** The last entry is where the last file ends. */
  lemma LastEntry(files: seq<seq<Byte>>, ends: seq<Fragment>)
    requires IndexOk(files, ends) && ends != []
    ensures ends[|ends| - 1].end == |Concat(files)|
  {
    assert EntryOk(files, ends, |ends| - 1);
  }

  lemma IndexSkips(files: seq<seq<Byte>>, n: nat, ends: seq<Fragment>)
    requires n + 1 == |files| && files[n] == [] && ends != [] && IndexOk(files[..n], ends)
    ensures IndexOk(files, ends)
  {
    OffsetStep(files, n);
    assert files[..n + 1] == files;
    OffsetInit(files, n, |ends|);
    forall i: nat | i < |ends|
      ensures EntryOk(files, ends, i)
    {
      EntriesKept(files, n, ends, ends, i);
    }
  }

  lemma IndexAppends(files: seq<seq<Byte>>, n: nat, ends: seq<Fragment>)
    requires n + 1 == |files| && |ends| == n && IndexOk(files[..n], ends) && (n > 0 ==> files[n] != [])
    ensures IndexOk(files, ends + [Fragment(|Concat(files)|, n)])
  {
    var ends' := ends + [Fragment(|Concat(files)|, n)];
    OffsetStep(files, n);
    assert files[..n + 1] == files;
    if n > 0 {
      LastEntry(files[..n], ends);
    }
    forall i: nat | i < |ends'|
      ensures EntryOk(files, ends', i)
    {
      if i < n {
        EntriesKept(files, n, ends, ends', i);
      }
    }
  }

  /** Adding one file to a right index. */
  lemma IndexGrows(files: seq<seq<Byte>>, n: nat, ends: seq<Fragment>)
    requires Indexable(files) && n + 1 == |files| && IndexOk(files[..n], ends) && (n > 0 ==> ends != [])
    ensures IndexOk(files, Emplace(ends, |Concat(files)|, |ends|))
  {
    OffsetStep(files, n);
    assert files[..n + 1] == files;
    if n > 0 {
      LastEntry(files[..n], ends);
    }
    if n > 0 && files[n] == [] {
      IndexSkips(files, n, ends);
    } else {
      if n > 0 { AllEntered(files, n, ends); }
      IndexAppends(files, n, ends);
    }
  }

  lemma IndexableInit(files: seq<seq<Byte>>, n: nat)
    requires Indexable(files) && n <= |files|
    ensures Indexable(files[..n])
  {
  }

  lemma {:induction false} IndexBuilt(files: seq<seq<Byte>>)
    requires Indexable(files)
    ensures IndexOk(files, Index(files)) && (files != [] ==> Index(files) != [])
  {
    if files != [] {
      var n := |files| - 1;
      IndexableInit(files, n);
      IndexBuilt(files[..n]);
      IndexGrows(files, n, Index(files[..n]));
    }
  }

  lemma FilesApart(files: seq<seq<Byte>>, ends: seq<Fragment>, i: nat)
    requires IndexOk(files, ends) && 0 < i < |ends|
    ensures Offset(files, i) < Offset(files, i + 1)
  {
    assert EntryOk(files, ends, i) && EntryOk(files, ends, i - 1);
  }

  lemma OkIsIndexable(files: seq<seq<Byte>>, ends: seq<Fragment>)
    requires IndexOk(files, ends)
    ensures Indexable(files)
  {
    forall i, j | 0 < i < j < |files| && files[i] == []
      ensures files[j] == []
    {
      OffsetStep(files, i);
      OffsetStep(files, j);
      assert files[..|files|] == files;
      OffsetMono(files, j + 1, |files|);
      if i < |ends| {
        FilesApart(files, ends, i);
        assert false;
      }
      OffsetMono(files, |ends|, j);
    }
  }

  /** The index names the right files if and only if no empty file is in the way. */
  lemma IndexExact(files: seq<seq<Byte>>)
    ensures IndexOk(files, Index(files)) <==> Indexable(files)
  {
    if Indexable(files) {
      IndexBuilt(files);
    }
    if IndexOk(files, Index(files)) {
      OkIsIndexable(files, Index(files));
    }
  }

  /** The index of a prefix of the files is a prefix of the index. */
  lemma {:induction false} IndexPrefix(files: seq<seq<Byte>>, n: nat)
    requires n <= |files|
    ensures Index(files[..n]) <= Index(files)
    decreases |files| - n
  {
    if n == |files| {
      assert files[..n] == files;
    } else {
      IndexPrefix(files, n + 1);
      assert files[..n + 1][..n] == files[..n];
    }
  }

  /** Whatever the files, entries are ascending, end where the stream ends, and count up from file 0. */
  predicate Sound(files: seq<seq<Byte>>, ends: seq<Fragment>) {
    && |ends| <= |files| && Ascending(ends)
    && (forall i :: 0 <= i < |ends| ==> ends[i].index == i)
    && (if ends == [] then files == [] else ends[|ends| - 1].end == |Concat(files)|)
  }

  lemma {:induction false} IndexSound(files: seq<seq<Byte>>)
    ensures Sound(files, Index(files))
  {
    if files != [] {
      IndexSound(files[..|files| - 1]);
    }
  }

  // ---------------------------------------------------------------- reading

  /** Up to `count` bytes of a file from a position, which may lie outside the file. */
  function ReadPart(part: seq<Byte>, from: int, count: nat): (r: seq<Byte>)
    ensures |r| <= count
  {
    if 0 <= from < |part| then part[from..Min(from + count, |part|)] else []
  }

  /** The first entry that ends after pos. */
  function UpperBound(ends: seq<Fragment>, pos: nat): (k: nat)
    ensures k <= |ends| && (k < |ends| ==> pos < ends[k].end)
    ensures Ascending(ends) ==> forall i :: 0 <= i < k ==> ends[i].end <= pos
  {
    if ends == [] then 0
    else
      var n := |ends| - 1;
      if pos < ends[n].end then UpperBoundBelow(ends, pos, n) else |ends|
  }

  function UpperBoundBelow(ends: seq<Fragment>, pos: nat, n: nat): (k: nat)
    requires n < |ends| && pos < ends[n].end
    ensures k <= n && pos < ends[k].end
    ensures Ascending(ends) ==> forall i :: 0 <= i < k ==> ends[i].end <= pos
  {
    if n > 0 && pos < ends[n - 1].end then UpperBoundBelow(ends, pos, n - 1) else n
  }

  /** The stretch of the concatenation a read asks for. */
  function Slice(files: seq<seq<Byte>>, start: nat, size: nat): (r: seq<Byte>)
  {
    var all := Concat(files);
    if start < |all| then all[start..Min(start + size, |all|)] else []
  }

  /** With a right index, reading from the file that holds pos gives that stretch of the concatenation. */
  lemma PartIsSlice(files: seq<seq<Byte>>, ends: seq<Fragment>, k: nat, pos: nat, count: nat)
    requires IndexOk(files, ends) && k < |ends| && Offset(files, k) <= pos < ends[k].end && count <= ends[k].end - pos
    ensures ends[k].index == k && ends[k].end == Offset(files, k + 1) <= |Concat(files)|
    ensures var from := |files[k]| + pos - ends[k].end;
            && 0 <= from && |ReadPart(files[k], from, count)| == count
            && IsAt(ReadPart(files[k], from, count), Concat(files), pos)
  {
    assert EntryOk(files, ends, k);
    OffsetStep(files, k);
    var a := pos - Offset(files, k);
    ConcatSlice(files, k, a, a + count);
    ConcatPrefix(files, k + 1);
    assert Concat(files)[pos..pos + count] == files[k][a..a + count];
  }

  /** A file that ends before the stream does is followed by another entry. */
  lemma NextFile(files: seq<seq<Byte>>, ends: seq<Fragment>, k: nat)
    requires IndexOk(files, ends) && Sound(files, ends) && k < |ends| && ends[k].end < |Concat(files)|
    ensures k + 1 < |ends| && ends[k].end == Offset(files, k + 1) < ends[k + 1].end
  {
    assert EntryOk(files, ends, k);
    assert k != |ends| - 1;
  }

  lemma FirstFile(files: seq<seq<Byte>>, ends: seq<Fragment>, pos: nat)
    requires IndexOk(files, ends) && Sound(files, ends) && pos < |Concat(files)|
    ensures var k := UpperBound(ends, pos); k < |ends| && Offset(files, k) <= pos < ends[k].end
  {
    var k := UpperBound(ends, pos);
    assert files == [] ==> Concat(files) == [];
    if k > 0 {
      assert EntryOk(files, ends, k - 1);
    }
  }

  /** Reading at entry k of the index, whatever file the entry names. */
  function ReadEntry(files: seq<seq<Byte>>, ends: seq<Fragment>, k: nat, pos: nat, count: nat): (r: seq<Byte>)
    requires k < |ends| && ends[k].index < |files|
    ensures |r| <= count
  {
    var part := files[ends[k].index];
    ReadPart(part, |part| + pos - ends[k].end, count)
  }

  /** Every byte of the stream can be read. */
  ghost predicate Readable(files: seq<seq<Byte>>) {
    forall pos: nat :: pos < |Concat(files)| ==> ByteReadable(files, pos)
  }

  /** Reading one byte at pos delivers the byte of the concatenation. */
  ghost predicate ByteReadable(files: seq<seq<Byte>>, pos: nat)
    requires pos < |Concat(files)|
  {
    var ends := Index(files);
    var k := UpperBound(ends, pos);
    k < |ends| && ends[k].index < |files| && ReadEntry(files, ends, k, pos, 1) == [Concat(files)[pos]]
  }

  lemma RightEntryReads(files: seq<seq<Byte>>, ends: seq<Fragment>, k: nat, pos: nat)
    requires IndexOk(files, ends) && k < |ends| && Offset(files, k) <= pos < ends[k].end
    ensures ends[k].index == k && pos < |Concat(files)| && ReadEntry(files, ends, k, pos, 1) == [Concat(files)[pos]]
  {
    PartIsSlice(files, ends, k, pos, 1);
    var r := ReadEntry(files, ends, k, pos, 1);
    assert |r| == 1 && r[0] == Concat(files)[pos + 0];
  }

  lemma RightIndexReads(files: seq<seq<Byte>>, pos: nat)
    requires Indexable(files) && pos < |Concat(files)|
    ensures ByteReadable(files, pos)
  {
    IndexBuilt(files);
    IndexSound(files);
    FirstFile(files, Index(files), pos);
    RightEntryReads(files, Index(files), UpperBound(Index(files), pos), pos);
  }

  /** An empty file i with a non-empty file j after it, and no such file before i. */
  predicate FirstGap(files: seq<seq<Byte>>, i: nat, j: nat) {
    && 0 < i < j < |files| && files[i] == [] && files[j] != []
    && (forall k :: i <= k < j ==> files[k] == [])
    && (forall k :: 0 < k < i ==> files[k] != [])
  }

  lemma FindGap(files: seq<seq<Byte>>) returns (i: nat, j: nat)
    requires !Indexable(files)
    ensures FirstGap(files, i, j)
  {
    i, j :| 0 < i < j < |files| && files[i] == [] && files[j] != [];
    while exists k :: 0 < k < i && files[k] == []
      invariant 0 < i < j < |files| && files[i] == [] && files[j] != []
      decreases i
    {
      var k :| 0 < k < i && files[k] == [];
      i := k;
    }
    while exists k :: i < k < j && files[k] != []
      invariant 0 < i < j < |files| && files[i] == [] && files[j] != []
      decreases j
    {
      var k :| i < k < j && files[k] != [];
      j := k;
    }
  }

  /** Empty files after the first leave the index as it is. */
  lemma {:induction false} EmptiesSkipped(files: seq<seq<Byte>>, i: nat, k: nat)
    requires 0 < i <= k <= |files| && (forall m :: i <= m < k ==> files[m] == [])
    requires IndexOk(files[..i], Index(files[..i])) && Index(files[..i]) != []
    ensures Index(files[..k]) == Index(files[..i]) && Concat(files[..k]) == Concat(files[..i])
    decreases k
  {
    if i < k {
      EmptiesSkipped(files, i, k - 1);
      OffsetStep(files, k - 1);
      assert files[..k][..k - 1] == files[..k - 1];
      LastEntry(files[..i], Index(files[..i]));
    }
  }

  /** The non-empty file after the gap is entered under the number of the first empty file. */
  lemma GapEntry(files: seq<seq<Byte>>, i: nat, j: nat) returns (before: seq<Fragment>, f: Fragment)
    requires FirstGap(files, i, j)
    ensures |before| == i && before[i - 1].end == Offset(files, j) < f.end && f.index == i
    ensures before + [f] == Index(files[..j + 1])
  {
    var init := files[..i];
    before, f := Index(init), Fragment(Offset(files, j + 1), i);
    IndexBuilt(init);
    var others := init + [files[j]];
    assert others[..i] == init;
    AllEntered(others, i, before);
    EmptiesSkipped(files, i, j);
    LastEntry(init, before);
    OffsetStep(files, j);
    assert files[..j + 1][..j] == files[..j];
  }

  /** The entry just after those that end at pos is the one found for pos. */
  lemma EntryAt(before: seq<Fragment>, f: Fragment, ends: seq<Fragment>, pos: nat)
    requires before != [] && before + [f] <= ends && Ascending(ends) && before[|before| - 1].end == pos < f.end
    ensures UpperBound(ends, pos) == |before| && ends[|before|] == f
  {
    var k, i := UpperBound(ends, pos), |before|;
    assert (before + [f])[i] == ends[i] && (before + [f])[i - 1] == ends[i - 1];
  }

  /** If that entry names an empty file, the byte cannot be read. */
  lemma NothingRead(files: seq<seq<Byte>>, before: seq<Fragment>, f: Fragment, ends: seq<Fragment>, pos: nat)
    requires ends == Index(files) && pos < |Concat(files)|
    requires before != [] && before + [f] <= ends && Ascending(ends) && before[|before| - 1].end == pos < f.end
    requires f.index < |files| && files[f.index] == []
    ensures !ByteReadable(files, pos)
  {
    EntryAt(before, f, ends, pos);
  }

  lemma FileStartsInside(files: seq<seq<Byte>>, j: nat)
    requires j < |files| && files[j] != []
    ensures Offset(files, j) < |Concat(files)|
  {
    OffsetStep(files, j);
    ConcatPrefix(files, j + 1);
  }

  lemma IndexStarts(files: seq<seq<Byte>>, n: nat, start: seq<Fragment>) returns (ends: seq<Fragment>)
    requires n <= |files| && start == Index(files[..n])
    ensures start <= ends && Ascending(ends) && ends == Index(files)
  {
    ends := Index(files);
    IndexPrefix(files, n);
    IndexSound(files);
  }

  lemma GapIndex(files: seq<seq<Byte>>, i: nat, j: nat)
    returns (before: seq<Fragment>, f: Fragment, ends: seq<Fragment>)
    requires FirstGap(files, i, j)
    ensures before != [] && before[|before| - 1].end == Offset(files, j) < f.end && f.index == i
    ensures before + [f] <= ends && Ascending(ends) && ends == Index(files)
  {
    before, f := GapEntry(files, i, j);
    ends := IndexStarts(files, j + 1, before + [f]);
  }

  /** Reading where that file starts delivers nothing. */
  lemma GapHides(files: seq<seq<Byte>>, i: nat, j: nat)
    requires FirstGap(files, i, j)
    ensures Offset(files, j) < |Concat(files)| && !ByteReadable(files, Offset(files, j))
  {
    FileStartsInside(files, j);
    var before, f, ends := GapIndex(files, i, j);
    NothingRead(files, before, f, ends, Offset(files, j));
  }

  /** Every byte can be read if and only if no empty file, the first excepted, is before a non-empty one. */
  lemma ReadsExactly(files: seq<seq<Byte>>)
    ensures Readable(files) <==> Indexable(files)
  {
    if Indexable(files) {
      forall pos: nat | pos < |Concat(files)|
        ensures ByteReadable(files, pos)
      {
        RightIndexReads(files, pos);
      }
    } else {
      var i, j := FindGap(files);
      GapHides(files, i, j);
    }
  }

  lemma IndexOfThree(a: seq<Byte>, b: seq<Byte>, c: seq<Byte>)
    ensures Concat([a]) == a && Concat([a, b]) == a + b && Concat([a, b, c]) == a + b + c
    ensures Index([a]) == [Fragment(|a|, 0)]
    ensures Index([a, b]) == Emplace(Index([a]), |a + b|, |Index([a])|)
    ensures Index([a, b, c]) == Emplace(Index([a, b]), |a + b + c|, |Index([a, b])|)
  {
    assert [a][..0] == [] && [a, b][..1] == [a] && [a, b, c][..2] == [a, b];
  }

  /** An empty file in the middle makes the byte after it unreadable: its entry names the empty file. */
  lemma EmptyFileHidesNext(x: Byte, y: Byte)
    ensures var files: seq<seq<Byte>> := [[x], [], [y]];
            && Concat(files) == [x, y] && Index(files) == [Fragment(1, 0), Fragment(2, 1)]
            && UpperBound(Index(files), 1) == 1 && ReadEntry(files, Index(files), 1, 1, 1) == []
  {
    IndexOfThree([x], [], [y]);
  }

  /** The loop of read_at. */
  method GatherAt(files: seq<seq<Byte>>, ends: seq<Fragment>, start: nat, max: nat) returns (out: seq<Byte>)
    requires Sound(files, ends) && 0 < max && start + max <= |Concat(files)|
    ensures IndexOk(files, ends) ==> |out| == max && IsAt(out, Concat(files), start)
    ensures max == 1 ==> var k := UpperBound(ends, start);
                         out == if k < |ends| then ReadEntry(files, ends, k, start, 1) else []
  {
    out := [];
    ghost var good := IndexOk(files, ends);
    if good { FirstFile(files, ends, start); }
    var p: nat, left: nat, k: nat := start, max, UpperBound(ends, start);
    ghost var first := k;
    while k < |ends|
      invariant k <= |ends| && (k < |ends| ==> p < ends[k].end) && p == start + |out|
      invariant good ==> 0 < left && |out| + left == max && IsAt(out, Concat(files), start)
      invariant good ==> k < |ends| && Offset(files, k) <= p
      invariant max == 1 ==> p == start && left == 1 && out == [] && k == first
    {
      var count := Min(ends[k].end - p, left);
      var got := ReadEntry(files, ends, k, p, count);
      if good {
        PartIsSlice(files, ends, k, p, count);
        IsAtJoin(out, got, Concat(files), start);
      }
      out := out + got;
      if |got| < count || left == count {
        return;
      }
      if good { NextFile(files, ends, k); }
      p, left, k := p + |got|, left - count, k + 1;
    }
  }

  // ---------------------------------------------------------------- the stream

  class Stream {
    const files: seq<seq<Byte>>
    var cursors: seq<nat>
    var pos: nat
    var end: nat
    var ends: seq<Fragment>

    ghost predicate Valid()
      reads this
    {
      && |cursors| == |files| && end == |Concat(files)| && ends == Index(files) && Sound(files, ends)
    }

    constructor (files: seq<seq<Byte>>)
      ensures Valid() && this.files == files && pos == 0
    {
      this.files := files;
      cursors := seq(|files|, i => 0);
      pos := 0;
      end := 0;
      ends := [];
      new;
      for k := 0 to |files|
        invariant this.files == files && |cursors| == |files| && pos == 0
        invariant end == |Concat(files[..k])| && ends == Index(files[..k])
      {
        OffsetStep(files, k);
        assert files[..k + 1][..k] == files[..k];
        end := end + |files[k]|;
        ends := Emplace(ends, end, |ends|);
      }
      assert files[..|files|] == files;
      IndexSound(files);
    }

    /** read_at: the bytes of the concatenation it was asked for. */
    method ReadAt(start: nat, size: nat) returns (out: seq<Byte>)
      requires Valid()
      ensures Indexable(files) ==> out == Slice(files, start, size)
      ensures start < end && size == 1 ==> (out == [Concat(files)[start]] <==> ByteReadable(files, start))
    {
      out := [];
      if start < end && size > 0 {
        out := GatherAt(files, ends, start, Min(size, end - start));
        if Indexable(files) {
          IndexBuilt(files);
          IsAtSlice(out, Concat(files), start);
        }
      }
    }

    /** Moves a file's position relative to its end; a position before the start is refused. */
    method SeekFile(i: nat, offset: int)
      requires i < |cursors| == |files|
      modifies this`cursors
      ensures |cursors| == |files|
      ensures |files[i]| + offset >= 0 ==> cursors[i] == |files[i]| + offset
    {
      if |files[i]| + offset >= 0 {
        cursors := cursors[i := |files[i]| + offset];
      }
    }

    method ReadFile(i: nat, count: nat) returns (got: seq<Byte>)
      requires i < |cursors| == |files|
      modifies this`cursors
      ensures |cursors| == |files| && got == ReadPart(files[i], old(cursors[i]), count)
    {
      got := ReadPart(files[i], cursors[i], count);
      cursors := cursors[i := cursors[i] + |got|];
    }

    /** One fragment of read. */
    method ReadFragment(k: nat, count: nat) returns (got: seq<Byte>)
      requires Sound(files, ends) && |cursors| == |files|
      requires k < |ends| && pos < ends[k].end && count <= ends[k].end - pos
      modifies this`pos, this`cursors
      ensures |cursors| == |files| && pos == old(pos) + |got| && |got| <= count
      ensures IndexOk(files, ends) && Offset(files, k) <= old(pos) ==>
                |got| == count && IsAt(got, Concat(files), old(pos))
    {
      if IndexOk(files, ends) && Offset(files, k) <= pos {
        PartIsSlice(files, ends, k, pos, count);
      }
      var f := ends[k];
      SeekFile(f.index, pos - f.end);
      got := ReadFile(f.index, count);
      pos := pos + |got|;
    }

    /** read: the next bytes of the concatenation, and the position moves past them. */
    method Read(size: nat) returns (out: seq<Byte>)
      requires Valid()
      modifies this`pos, this`cursors
      ensures Valid()
      ensures pos == old(pos) + |out|
      ensures Indexable(files) ==> out == Slice(files, old(pos), size)
    {
      out := [];
      if pos < end && size > 0 {
        if Indexable(files) { IndexBuilt(files); }
        ghost var start := pos;
        out := ReadLoop(Min(size, end - pos));
        if Indexable(files) { IsAtSlice(out, Concat(files), start); }
      }
    }

    method ReadLoop(max: nat) returns (out: seq<Byte>)
      requires Sound(files, ends) && |cursors| == |files| && 0 < max && pos + max <= |Concat(files)|
      modifies this`pos, this`cursors
      ensures |cursors| == |files|
      ensures pos == old(pos) + |out|
      ensures IndexOk(files, ends) ==> |out| == max && IsAt(out, Concat(files), old(pos))
    {
      out := [];
      ghost var start, good := pos, IndexOk(files, ends);
      if good { FirstFile(files, ends, pos); }
      var left: nat, k: nat := max, UpperBound(ends, pos);
      while k < |ends|
        invariant |cursors| == |files| && k <= |ends| && (k < |ends| ==> pos < ends[k].end) && pos == start + |out|
        invariant good ==> 0 < left && |out| + left == max && IsAt(out, Concat(files), start)
        invariant good ==> k < |ends| && Offset(files, k) <= pos
      {
        var count := Min(ends[k].end - pos, left);
        var got := ReadFragment(k, count);
        if good { IsAtJoin(out, got, Concat(files), start); }
        out := out + got;
        if |got| < count || left == count {
          break;
        }
        if good { NextFile(files, ends, k); }
        left, k := left - count, k + 1;
      }
    }

    /** seek, in signed 64-bit arithmetic. */
    method Seek(offset: int, whence: Whence) returns (result: int)
      requires Valid() && -S63 <= offset < S63 && pos < U64 && end < U64
      modifies this`pos
      ensures var target := offset + (match whence case SeekSet => 0 case SeekCur => old(pos) case SeekEnd => end);
              && (-S63 <= target < 0 ==> result == -1 && pos == old(pos))
              && (0 <= target < S63 ==> result == target == pos)
              && (S63 <= target < U64 ==> result == -1 && pos == old(pos))
              && (U64 <= target ==> result == target - U64 == pos)
    {
      var target := offset + (match whence case SeekSet => 0 case SeekCur => pos case SeekEnd => end);
      var newPos := (target + S63) % U64 - S63;
      if newPos < 0 {
        return -1;
      }
      pos := newPos;
      return pos;
    }
  }
}
