/**
 * The single-reader, single-writer ring buffer (Utilities/simple_ringbuf.cpp). Both pointers live in one atomic
 * word pair and only grow; bytes are copied before the pair is exchanged, in any order, one byte per step.
 */
module RingBuf {
  import Arith

  type Byte = x: int | 0 <= x < 256

  // ---------------------------------------------------------------- positions

  /** Wraps a position that has passed the end of the buffer at most once. */
  function Wrap(x: nat, size: nat): nat
    requires x < 2 * size
  {
    if x < size then x else x - size
  }

  /** get_free_size, once the pointers are reduced. */
  function Free(r: nat, w: nat, size: nat): (free: nat)
    requires r < size && w < size
    ensures free < size
  {
    (if w >= r then size + r - w else r - w) - 1
  }

  /** get_used_size, once the pointers are reduced. */
  function Used(r: nat, w: nat, size: nat): (used: nat)
    requires r < size && w < size
    ensures used + Free(r, w, size) == size - 1
  {
    if w >= r then w - r else size + w - r
  }

  /** get_free_size, for given pointers. */
  function FreeSize(rd: nat, wr: nat, size: nat): (free: nat)
    requires size > 0
    ensures free < size
  {
    Free(rd % size, wr % size, size)
  }

  /** get_used_size, for given pointers. */
  function UsedSize(rd: nat, wr: nat, size: nat): (used: nat)
    requires size > 0
    ensures used + FreeSize(rd, wr, size) == size - 1
  {
    Used(rd % size, wr % size, size)
  }

  function Min(a: nat, b: nat): nat {
    if a < b then a else b
  }

  /** How many of `wanted` bytes an operation moves when `available` can be moved. */
  function Amount(wanted: nat, available: nat, force: bool): (n: nat)
    ensures n <= wanted && n <= available
    ensures wanted <= available ==> n == wanted
    ensures available < wanted ==> n == if force then available else 0
  {
    if !force && available < wanted then 0 else Min(wanted, available)
  }

  lemma WrapMod(x: nat, k: nat, size: nat)
    requires 0 < size && k <= size
    ensures (x + k) % size == Wrap(x % size + k, size)
  {
    var q, r := x / size, x % size;
    if r + k < size {
      Arith.DivUnique(x + k, q, r + k, size);
    } else {
      assert x + k == (q + 1) * size + (r + k - size);
      Arith.DivUnique(x + k, q + 1, r + k - size, size);
    }
  }

  /** The used size is the distance from the read to the write position around the buffer. */
  lemma UsedIsDistance(rd: nat, wr: nat, size: nat)
    requires size > 0
    ensures (rd + UsedSize(rd, wr, size)) % size == wr % size
    ensures (wr + FreeSize(rd, wr, size) + 1) % size == rd % size
  {
    WrapMod(rd, UsedSize(rd, wr, size), size);
    WrapMod(wr, FreeSize(rd, wr, size) + 1, size);
  }

  // ---------------------------------------------------------------- the contents

  /** The bytes between two reduced positions. */
  function Slice(buf: seq<Byte>, r: nat, w: nat): (q: seq<Byte>)
    requires r < |buf| && w < |buf|
    ensures |q| == Used(r, w, |buf|)
  {
    if w >= r then buf[r..w] else buf[r..] + buf[..w]
  }

  /** The bytes between the read and the write position, oldest first. */
  function Contents(buf: seq<Byte>, rd: nat, wr: nat): (q: seq<Byte>)
    requires |buf| > 0
    ensures |q| == UsedSize(rd, wr, |buf|)
  {
    Slice(buf, rd % |buf|, wr % |buf|)
  }

  lemma SliceAt(buf: seq<Byte>, r: nat, w: nat, j: nat)
    requires r < |buf| && w < |buf| && j < Used(r, w, |buf|)
    ensures Slice(buf, r, w)[j] == buf[Wrap(r + j, |buf|)]
  {
  }

  lemma SliceWrite(buf: seq<Byte>, r: nat, w: nat, j: nat, b: Byte)
    requires r < |buf| && w < |buf| && j < Free(r, w, |buf|)
    ensures Slice(buf[Wrap(w + j, |buf|) := b], r, w) == Slice(buf, r, w)
  {
  }

  lemma SlicePush(buf: seq<Byte>, r: nat, w: nat, data: seq<Byte>)
    requires r < |buf| && w < |buf| && |data| <= Free(r, w, |buf|)
    requires forall j :: 0 <= j < |data| ==> data[j] == buf[Wrap(w + j, |buf|)]
    ensures Slice(buf, r, Wrap(w + |data|, |buf|)) == Slice(buf, r, w) + data
  {
    var w', used := Wrap(w + |data|, |buf|), Used(r, w, |buf|);
    var q, q' := Slice(buf, r, w), Slice(buf, r, w');
    forall j | 0 <= j < |q'|
      ensures q'[j] == (q + data)[j]
    {
      SliceAt(buf, r, w', j);
      if j < used {
        SliceAt(buf, r, w, j);
      } else {
        assert Wrap(r + j, |buf|) == Wrap(w + (j - used), |buf|);
      }
    }
  }

  lemma SlicePop(buf: seq<Byte>, r: nat, w: nat, n: nat)
    requires r < |buf| && w < |buf| && n <= Used(r, w, |buf|)
    ensures Slice(buf, Wrap(r + n, |buf|), w) == Slice(buf, r, w)[n..]
  {
  }

  lemma SliceUnpush(buf: seq<Byte>, r: nat, w: nat, n: nat)
    requires r < |buf| && w < |buf| && n <= Used(r, w, |buf|)
    ensures Slice(buf, r, Wrap(w + (|buf| - n), |buf|)) == Slice(buf, r, w)[..Used(r, w, |buf|) - n]
  {
  }

  lemma PushedContents(buf: seq<Byte>, rd: nat, wr: nat, data: seq<Byte>)
    requires |buf| > 0 && |data| <= FreeSize(rd, wr, |buf|)
    requires forall j :: 0 <= j < |data| ==> data[j] == buf[Wrap(wr % |buf| + j, |buf|)]
    ensures Contents(buf, rd, wr + |data|) == Contents(buf, rd, wr) + data
  {
    WrapMod(wr, |data|, |buf|);
    SlicePush(buf, rd % |buf|, wr % |buf|, data);
  }

  lemma PoppedContents(buf: seq<Byte>, rd: nat, wr: nat, n: nat)
    requires |buf| > 0 && n <= UsedSize(rd, wr, |buf|)
    ensures Contents(buf, rd + n, wr) == Contents(buf, rd, wr)[n..]
  {
    WrapMod(rd, n, |buf|);
    SlicePop(buf, rd % |buf|, wr % |buf|, n);
  }

  /** Advancing the write pointer by the buffer size less n takes back the n newest bytes. */
  lemma UnpushedContents(buf: seq<Byte>, rd: nat, wr: nat, n: nat)
    requires |buf| > 0 && n <= UsedSize(rd, wr, |buf|)
    ensures Contents(buf, rd, wr + (|buf| - n)) == Contents(buf, rd, wr)[..UsedSize(rd, wr, |buf|) - n]
  {
    WrapMod(wr, |buf| - n, |buf|);
    SliceUnpush(buf, rd % |buf|, wr % |buf|, n);
  }

  // ---------------------------------------------------------------- the two threads

  /** The writer: each operation holds the pointer pair it last saw. */
  datatype Writer =
    | Resting
    | Pushing(data: seq<Byte>, force: bool, rd: nat, wr: nat, copied: set<nat>)
    | Retracting(cnt: nat, rd: nat, wr: nat)

  datatype Reader =
    | Quiet
    | Popping(wanted: nat, force: bool, rd: nat, wr: nat, got: map<nat, Byte>)
    | Skipping(cnt: nat, rd: nat, wr: nat)

  datatype State = State(buf: seq<Byte>, rd: nat, wr: nat, writer: Writer, reader: Reader)

  /** What a step shows to the callers: a completed operation with its result, or nothing. */
  datatype Event =
    | Internal
    | Pushed(data: seq<Byte>, force: bool, n: nat)
    | Popped(wanted: nat, force: bool, out: seq<Byte>)
    | WriterFlushed(cnt: nat)
    | ReaderFlushed(cnt: nat)

  function PushSize(w: Writer, size: nat): (n: nat)
    requires w.Pushing? && size > 0
    ensures n <= |w.data| && n <= FreeSize(w.rd, w.wr, size)
  {
    Amount(|w.data|, FreeSize(w.rd, w.wr, size), w.force)
  }

  function PopSize(r: Reader, size: nat): (n: nat)
    requires r.Popping? && size > 0
    ensures n <= r.wanted && n <= UsedSize(r.rd, r.wr, size)
  {
    Amount(r.wanted, UsedSize(r.rd, r.wr, size), r.force)
  }

  /** push at work: one copied byte, a failed exchange that reloads, or a successful one. */
  ghost predicate PushStep(s: State, s': State, e: Event)
    requires |s.buf| > 0 && s.writer.Pushing?
  {
    var w, n := s.writer, PushSize(s.writer, |s.buf|);
    || (e == Internal && exists j: nat :: j < n && s' == CopiedIn(s, j))
    || (&& (w.rd, w.wr) != (s.rd, s.wr) && e == Internal
        && s' == s.(writer := Pushing(w.data, w.force, s.rd, s.wr, {})))
    || (&& (w.rd, w.wr) == (s.rd, s.wr) && (forall j: nat :: j < n ==> j in w.copied)
        && e == Pushed(w.data, w.force, n) && s' == s.(wr := w.wr + n, writer := Resting))
  }

  /** writer_flush at work. */
  predicate RetractStep(s: State, s': State, e: Event)
    requires |s.buf| > 0 && s.writer.Retracting?
  {
    var w := s.writer;
    if (w.rd, w.wr) != (s.rd, s.wr) then e == Internal && s' == s.(writer := Retracting(w.cnt, s.rd, s.wr))
    else && e == WriterFlushed(w.cnt)
         && s' == s.(wr := w.wr + Retraction(w.rd, w.wr, |s.buf|, w.cnt), writer := Resting)
  }

  ghost predicate WriterStep(s: State, s': State, e: Event) {
    && |s.buf| > 0
    && match s.writer
       case Resting =>
         && e == Internal
         && (|| (exists data: seq<Byte>, force: bool :: s' == s.(writer := Pushing(data, force, s.rd, s.wr, {})))
             || (exists cnt: nat :: s' == s.(writer := Retracting(cnt, s.rd, s.wr))))
       case Pushing(_, _, _, _, _) => PushStep(s, s', e)
       case Retracting(_, _, _) => RetractStep(s, s', e)
  }

  /** Byte j of the data is written to its place in the buffer. */
  function CopiedIn(s: State, j: nat): State
    requires |s.buf| > 0 && s.writer.Pushing? && j < PushSize(s.writer, |s.buf|)
  {
    s.(buf := s.buf[Wrap(s.writer.wr % |s.buf| + j, |s.buf|) := s.writer.data[j]],
       writer := s.writer.(copied := s.writer.copied + {j}))
  }

  /** writer_flush's increment of the write pointer. */
  function Retraction(rd: nat, wr: nat, size: nat, cnt: nat): nat
    requires size > 0
  {
    var used := UsedSize(rd, wr, size);
    if used == 0 then 0 else size - Min(used, cnt)
  }

  /** pop at work. */
  ghost predicate PopStep(s: State, s': State, e: Event)
    requires |s.buf| > 0 && s.reader.Popping?
  {
    var r, n := s.reader, PopSize(s.reader, |s.buf|);
    || (e == Internal && exists j: nat :: j < n && s' == CopiedOut(s, j))
    || (&& (r.rd, r.wr) != (s.rd, s.wr) && e == Internal
        && s' == s.(reader := Popping(r.wanted, r.force, s.rd, s.wr, map[])))
    || (&& (r.rd, r.wr) == (s.rd, s.wr) && (forall j: nat :: j < n ==> j in r.got)
        && e == Popped(r.wanted, r.force, seq(n, j requires 0 <= j < n => r.got[j]))
        && s' == s.(rd := r.rd + n, reader := Quiet))
  }

  /** reader_flush at work. */
  predicate SkipStep(s: State, s': State, e: Event)
    requires |s.buf| > 0 && s.reader.Skipping?
  {
    var r := s.reader;
    if (r.rd, r.wr) != (s.rd, s.wr) then e == Internal && s' == s.(reader := Skipping(r.cnt, s.rd, s.wr))
    else && e == ReaderFlushed(r.cnt)
         && s' == s.(rd := r.rd + Min(UsedSize(r.rd, r.wr, |s.buf|), r.cnt), reader := Quiet)
  }

  ghost predicate ReaderStep(s: State, s': State, e: Event) {
    && |s.buf| > 0
    && match s.reader
       case Quiet =>
         && e == Internal
         && (|| (exists wanted: nat, force: bool :: s' == s.(reader := Popping(wanted, force, s.rd, s.wr, map[])))
             || (exists cnt: nat :: s' == s.(reader := Skipping(cnt, s.rd, s.wr))))
       case Popping(_, _, _, _, _) => PopStep(s, s', e)
       case Skipping(_, _, _) => SkipStep(s, s', e)
  }

  /** Byte j of the output is read from its place in the buffer. */
  function CopiedOut(s: State, j: nat): State
    requires |s.buf| > 0 && s.reader.Popping? && j < PopSize(s.reader, |s.buf|)
  {
    s.(reader := s.reader.(got := s.reader.got[j := s.buf[Wrap(s.reader.rd % |s.buf| + j, |s.buf|)]]))
  }

  ghost predicate Next(s: State, s': State, e: Event) {
    WriterStep(s, s', e) || ReaderStep(s, s', e)
  }

  /** set_buf_size: one byte more than asked for, both pointers at zero. */
  predicate Init(s: State) {
    |s.buf| > 0 && s.rd == 0 && s.wr == 0 && s.writer == Resting && s.reader == Quiet
  }

  ghost predicate Run(run: seq<State>, events: seq<Event>) {
    && |run| == |events| + 1 && Init(run[0])
    && forall i :: 0 <= i < |events| ==> Next(run[i], run[i + 1], events[i])
  }

  // ---------------------------------------------------------------- the queue it implements

  /** All of the bytes asked for are moved if they can be; otherwise as many as can be with force, and none without. */
  predicate Moves(n: nat, wanted: nat, available: nat, force: bool) {
    n == if wanted <= available then wanted else if force then available else 0
  }

  /** One step of a queue of at most `cap` bytes. */
  predicate FifoStep(q: seq<Byte>, q': seq<Byte>, cap: nat, e: Event) {
    && |q| <= cap && |q'| <= cap
    && match e
       case Internal => q' == q
       case Pushed(data, force, n) => Moves(n, |data|, cap - |q|, force) && q' == q + data[..n]
       case Popped(wanted, force, out) => Moves(|out|, wanted, |q|, force) && q == out + q'
       case WriterFlushed(cnt) => q' == q[..|q| - Min(|q|, cnt)]
       case ReaderFlushed(cnt) => q' == q[Min(|q|, cnt)..]
  }

  function Queue(s: State): (q: seq<Byte>)
    requires |s.buf| > 0
    ensures |q| == UsedSize(s.rd, s.wr, |s.buf|) < |s.buf|
  {
    Contents(s.buf, s.rd, s.wr)
  }

  // ---------------------------------------------------------------- the invariant

  /** The copied ones of n bytes are at their places from position w on. */
  predicate BytesPlaced(buf: seq<Byte>, w: nat, data: seq<Byte>, copied: set<nat>, n: nat)
    requires w < |buf| && n <= |data| && n < |buf|
  {
    forall j :: j in copied ==> j < n && data[j] == buf[Wrap(w + j, |buf|)]
  }

  lemma PlaceByte(buf: seq<Byte>, w: nat, data: seq<Byte>, copied: set<nat>, n: nat, j: nat)
    requires w < |buf| && n <= |data| && n < |buf| && j < n && BytesPlaced(buf, w, data, copied, n)
    ensures BytesPlaced(buf[Wrap(w + j, |buf|) := data[j]], w, data, copied + {j}, n)
  {
  }

  /** The writer's view: its pointer is current, its free room is still free, its bytes are in place. */
  predicate WriterOk(s: State)
    requires |s.buf| > 0
  {
    s.writer.Pushing? ==>
      && s.writer.wr == s.wr
      && FreeSize(s.writer.rd, s.wr, |s.buf|) <= FreeSize(s.rd, s.wr, |s.buf|)
      && BytesPlaced(s.buf, s.wr % |s.buf|, s.writer.data, s.writer.copied, PushSize(s.writer, |s.buf|))
  }

  predicate BytesFetched(q: seq<Byte>, got: map<nat, Byte>) {
    forall j :: j in got ==> j < |q| && got[j] == q[j]
  }

  /** The reader's view: what it fetched is the queue's front, unless the write pointer has moved on for good. */
  predicate ReaderOk(s: State)
    requires |s.buf| > 0
  {
    s.reader.Popping? ==>
      && s.reader.rd == s.rd && s.reader.wr <= s.wr
      && (s.reader.wr == s.wr ==> BytesFetched(Queue(s), s.reader.got))
  }

  predicate Inv(s: State) {
    |s.buf| > 0 && WriterOk(s) && ReaderOk(s)
  }

  /** What a step must achieve. */
  predicate Good(s: State, s': State, e: Event)
    requires Inv(s)
  {
    Inv(s') && |s'.buf| == |s.buf| && FifoStep(Queue(s), Queue(s'), |s.buf| - 1, e)
  }

  // ---------------------------------------------------------------- the writer's steps

  lemma CopyInPlaced(s: State, j: nat)
    requires |s.buf| > 0 && WriterOk(s) && s.writer.Pushing? && j < PushSize(s.writer, |s.buf|)
    ensures WriterOk(CopiedIn(s, j))
  {
    PlaceByte(s.buf, s.wr % |s.buf|, s.writer.data, s.writer.copied, PushSize(s.writer, |s.buf|), j);
  }

  lemma CopyInGood(s: State, j: nat)
    requires Inv(s) && s.writer.Pushing? && j < PushSize(s.writer, |s.buf|)
    ensures Good(s, CopiedIn(s, j), Internal)
  {
    SliceWrite(s.buf, s.rd % |s.buf|, s.wr % |s.buf|, j, s.writer.data[j]);
    CopyInPlaced(s, j);
    assert Queue(CopiedIn(s, j)) == Queue(s);
  }

  lemma PushGood(s: State, n: nat)
    requires Inv(s) && s.writer.Pushing? && s.writer.rd == s.rd && n == PushSize(s.writer, |s.buf|)
    requires forall j: nat :: j < n ==> j in s.writer.copied
    ensures Good(s, s.(wr := s.wr + n, writer := Resting), Pushed(s.writer.data, s.writer.force, n))
  {
    PushedContents(s.buf, s.rd, s.wr, s.writer.data[..n]);
  }

  lemma RetractGood(s: State, cnt: nat)
    requires Inv(s) && s.writer == Retracting(cnt, s.rd, s.wr)
    ensures Good(s, s.(wr := s.wr + Retraction(s.rd, s.wr, |s.buf|, cnt), writer := Resting), WriterFlushed(cnt))
  {
    var used, wr := UsedSize(s.rd, s.wr, |s.buf|), s.wr + Retraction(s.rd, s.wr, |s.buf|, cnt);
    if used > 0 {
      UnpushedContents(s.buf, s.rd, s.wr, Min(used, cnt));
    }
    assert Contents(s.buf, s.rd, wr) == Queue(s)[..used - Min(used, cnt)];
  }

  /** Starting over with the current pointers keeps everything. */
  lemma WriterReload(s: State, writer: Writer)
    requires Inv(s)
    requires writer.Pushing? ==> writer.rd == s.rd && writer.wr == s.wr && writer.copied == {}
    ensures Good(s, s.(writer := writer), Internal)
  {
  }

  lemma PushStepGood(s: State, s': State, e: Event)
    requires Inv(s) && s.writer.Pushing? && PushStep(s, s', e)
    ensures Good(s, s', e)
  {
    var w, n := s.writer, PushSize(s.writer, |s.buf|);
    if e.Pushed? {
      PushGood(s, n);
    } else if exists j: nat :: j < n && s' == CopiedIn(s, j) {
      var j: nat :| j < n && s' == CopiedIn(s, j);
      CopyInGood(s, j);
    } else {
      WriterReload(s, Pushing(w.data, w.force, s.rd, s.wr, {}));
    }
  }

  lemma RetractStepGood(s: State, s': State, e: Event)
    requires Inv(s) && s.writer.Retracting? && RetractStep(s, s', e)
    ensures Good(s, s', e)
  {
    if e.WriterFlushed? {
      RetractGood(s, s.writer.cnt);
    } else {
      WriterReload(s, s'.writer);
    }
  }

  lemma WriterGood(s: State, s': State, e: Event)
    requires Inv(s) && WriterStep(s, s', e)
    ensures Good(s, s', e)
  {
    match s.writer
    case Resting => WriterReload(s, s'.writer);
    case Pushing(_, _, _, _, _) => PushStepGood(s, s', e);
    case Retracting(_, _, _) => RetractStepGood(s, s', e);
  }

  // ---------------------------------------------------------------- the reader's steps

  lemma CopyOutGood(s: State, j: nat)
    requires Inv(s) && s.reader.Popping? && j < PopSize(s.reader, |s.buf|)
    ensures Good(s, CopiedOut(s, j), Internal)
  {
  }

  /** Taking bytes out only makes more room for the writer. */
  lemma AdvanceGood(s: State, n: nat)
    requires Inv(s) && n <= UsedSize(s.rd, s.wr, |s.buf|)
    ensures var s' := s.(rd := s.rd + n, reader := Quiet); Inv(s') && Queue(s') == Queue(s)[n..]
  {
    PoppedContents(s.buf, s.rd, s.wr, n);
  }

  lemma PopGood(s: State, out: seq<Byte>)
    requires Inv(s) && s.reader.Popping? && s.reader.wr == s.wr && |out| == PopSize(s.reader, |s.buf|)
    requires forall j: nat :: j < |out| ==> j in s.reader.got && out[j] == s.reader.got[j]
    ensures Good(s, s.(rd := s.rd + |out|, reader := Quiet), Popped(s.reader.wanted, s.reader.force, out))
  {
    AdvanceGood(s, |out|);
    assert out == Queue(s)[..|out|];
  }

  lemma ReaderReload(s: State, reader: Reader)
    requires Inv(s)
    requires reader.Popping? ==> reader.rd == s.rd && reader.wr == s.wr && reader.got == map[]
    ensures Good(s, s.(reader := reader), Internal)
  {
  }

  lemma PopStepGood(s: State, s': State, e: Event)
    requires Inv(s) && s.reader.Popping? && PopStep(s, s', e)
    ensures Good(s, s', e)
  {
    var r, n := s.reader, PopSize(s.reader, |s.buf|);
    if e.Popped? {
      PopGood(s, e.out);
    } else if exists j: nat :: j < n && s' == CopiedOut(s, j) {
      var j: nat :| j < n && s' == CopiedOut(s, j);
      CopyOutGood(s, j);
    } else {
      ReaderReload(s, Popping(r.wanted, r.force, s.rd, s.wr, map[]));
    }
  }

  lemma SkipStepGood(s: State, s': State, e: Event)
    requires Inv(s) && s.reader.Skipping? && SkipStep(s, s', e)
    ensures Good(s, s', e)
  {
    if e.ReaderFlushed? {
      AdvanceGood(s, Min(UsedSize(s.rd, s.wr, |s.buf|), s.reader.cnt));
    } else {
      ReaderReload(s, s'.reader);
    }
  }

  lemma ReaderGood(s: State, s': State, e: Event)
    requires Inv(s) && ReaderStep(s, s', e)
    ensures Good(s, s', e)
  {
    match s.reader
    case Quiet => ReaderReload(s, s'.reader);
    case Popping(_, _, _, _, _) => PopStepGood(s, s', e);
    case Skipping(_, _, _) => SkipStepGood(s, s', e);
  }

  // ---------------------------------------------------------------- every run

  lemma {:induction false} RunInv(run: seq<State>, events: seq<Event>, i: nat)
    requires Run(run, events) && i < |run|
    ensures Inv(run[i]) && |run[i].buf| == |run[0].buf|
  {
    if i > 0 {
      RunInv(run, events, i - 1);
      StepGood(run[i - 1], run[i], events[i - 1]);
    }
  }

  lemma StepGood(s: State, s': State, e: Event)
    requires Inv(s) && Next(s, s', e)
    ensures Good(s, s', e)
  {
    if WriterStep(s, s', e) {
      WriterGood(s, s', e);
    } else {
      ReaderGood(s, s', e);
    }
  }

  /** The buffer refines a bounded queue: every step of every run is a step of the queue, with the same results. */
  lemma RefinesFifo(run: seq<State>, events: seq<Event>, i: nat)
    requires Run(run, events) && i < |events|
    ensures |run[i].buf| == |run[i + 1].buf| == |run[0].buf| > 0
    ensures FifoStep(Queue(run[i]), Queue(run[i + 1]), |run[0].buf| - 1, events[i])
  {
    RunInv(run, events, i);
    StepGood(run[i], run[i + 1], events[i]);
  }

  /** Everything completed pushes put in, in order. */
  function AllPushed(events: seq<Event>): seq<Byte> {
    if events == [] then [] else
      var e := events[|events| - 1];
      AllPushed(events[..|events| - 1]) + (if e.Pushed? && e.n <= |e.data| then e.data[..e.n] else [])
  }

  /** Everything completed pops handed out, in order. */
  function AllPopped(events: seq<Event>): seq<Byte> {
    if events == [] then [] else
      var e := events[|events| - 1];
      AllPopped(events[..|events| - 1]) + (if e.Popped? then e.out else [])
  }

  lemma OrderStep(events: seq<Event>, e: Event, q: seq<Byte>, q': seq<Byte>, cap: nat)
    requires AllPushed(events) == AllPopped(events) + q && FifoStep(q, q', cap, e)
    requires !e.WriterFlushed? && !e.ReaderFlushed?
    ensures AllPushed(events + [e]) == AllPopped(events + [e]) + q'
  {
  }

  /** Without flushes, what went in is what came out followed by what is still inside. */
  lemma {:induction false} FifoOrder(run: seq<State>, events: seq<Event>, i: nat)
    requires Run(run, events) && i <= |events|
    requires forall e :: e in events ==> !e.WriterFlushed? && !e.ReaderFlushed?
    ensures |run[i].buf| > 0 && AllPushed(events[..i]) == AllPopped(events[..i]) + Queue(run[i])
  {
    if i == 0 {
      assert Queue(run[0]) == [];
    } else {
      FifoOrder(run, events, i - 1);
      RefinesFifo(run, events, i - 1);
      assert events[i - 1] in events;
      OrderStep(events[..i - 1], events[i - 1], Queue(run[i - 1]), Queue(run[i]), |run[0].buf| - 1);
      assert events[..i] == events[..i - 1] + [events[i - 1]];
    }
  }

  /** Each exchange that changes the pair strictly increases one pointer, so a stale pair never matches again. */
  lemma PointersGrow(run: seq<State>, events: seq<Event>, i: nat)
    requires Run(run, events) && i < |events|
    ensures run[i].rd <= run[i + 1].rd && run[i].wr <= run[i + 1].wr
    ensures Queue(run[i]) != Queue(run[i + 1]) ==> run[i].rd + run[i].wr < run[i + 1].rd + run[i + 1].wr
  {
    RefinesFifo(run, events, i);
  }

  // ---------------------------------------------------------------- the calls

  /** A call goes on as it was made or returns, and nothing returns that was not called. */
  predicate WriterAnswers(s: State, s': State, e: Event) {
    match s.writer
    case Resting => !e.Pushed? && !e.WriterFlushed?
    case Pushing(data, force, _, _, _) =>
      if e.Pushed? then e.data == data && e.force == force && s'.writer == Resting
      else s'.writer.Pushing? && s'.writer.data == data && s'.writer.force == force && !e.WriterFlushed?
    case Retracting(cnt, _, _) =>
      if e.WriterFlushed? then e.cnt == cnt && s'.writer == Resting
      else s'.writer.Retracting? && s'.writer.cnt == cnt && !e.Pushed?
  }

  predicate ReaderAnswers(s: State, s': State, e: Event) {
    match s.reader
    case Quiet => !e.Popped? && !e.ReaderFlushed?
    case Popping(wanted, force, _, _, _) =>
      if e.Popped? then e.wanted == wanted && e.force == force && s'.reader == Quiet
      else s'.reader.Popping? && s'.reader.wanted == wanted && s'.reader.force == force && !e.ReaderFlushed?
    case Skipping(cnt, _, _) =>
      if e.ReaderFlushed? then e.cnt == cnt && s'.reader == Quiet
      else s'.reader.Skipping? && s'.reader.cnt == cnt && !e.Popped?
  }

  /** What a completed operation reports is what its caller asked for. */
  lemma CallsAnswered(run: seq<State>, events: seq<Event>, i: nat)
    requires Run(run, events) && i < |events|
    ensures WriterAnswers(run[i], run[i + 1], events[i]) && ReaderAnswers(run[i], run[i + 1], events[i])
  {
    assert Next(run[i], run[i + 1], events[i]);
  }

  /** Steps of the writer alone, or of the reader alone. */
  ghost predicate Alone(run: seq<State>, events: seq<Event>, writing: bool) {
    && |run| == |events| + 1
    && forall i :: 0 <= i < |events| ==>
         if writing then WriterStep(run[i], run[i + 1], events[i]) else ReaderStep(run[i], run[i + 1], events[i])
  }

  lemma AloneMore(run: seq<State>, events: seq<Event>, writing: bool, s: State, e: Event)
    requires Alone(run, events, writing)
    requires var last := run[|events|]; if writing then WriterStep(last, s, e) else ReaderStep(last, s, e)
    ensures Alone(run + [s], events + [e], writing)
  {
  }

  /** A push, wherever it is, can be completed by the writer alone, with the queue as it is then. */
  lemma PushCompletes(s: State) returns (run: seq<State>, events: seq<Event>)
    requires |s.buf| > 0 && s.writer.Pushing?
    ensures Alone(run, events, true) && run[0] == s && events != []
    ensures var last := events[|events| - 1];
            && last.Pushed? && last.data == s.writer.data && last.force == s.writer.force
            && Moves(last.n, |s.writer.data|, FreeSize(s.rd, s.wr, |s.buf|), s.writer.force)
  {
    run, events := [s], [];
    var w := s.writer;
    if (w.rd, w.wr) != (s.rd, s.wr) {
      var s1 := s.(writer := Pushing(w.data, w.force, s.rd, s.wr, {}));
      AloneMore(run, events, true, s1, Internal);
      run, events := run + [s1], events + [Internal];
    }
    var n := PushSize(run[|events|].writer, |s.buf|);
    for j := 0 to n
      invariant Alone(run, events, true) && run[0] == s
      invariant var last := run[|events|];
                && last.writer.Pushing? && last.writer.data == w.data && last.writer.force == w.force
                && last.writer.rd == last.rd == s.rd && last.writer.wr == last.wr == s.wr && |last.buf| == |s.buf|
                && forall k: nat :: k < j ==> k in last.writer.copied
    {
      var next := CopiedIn(run[|events|], j);
      AloneMore(run, events, true, next, Internal);
      run, events := run + [next], events + [Internal];
    }
    var last := run[|events|];
    var end, e := last.(wr := last.wr + n, writer := Resting), Pushed(w.data, w.force, n);
    AloneMore(run, events, true, end, e);
    run, events := run + [end], events + [e];
  }

  /** So can a pop by the reader alone. */
  lemma PopCompletes(s: State) returns (run: seq<State>, events: seq<Event>)
    requires |s.buf| > 0 && s.reader.Popping?
    ensures Alone(run, events, false) && run[0] == s && events != []
    ensures var last := events[|events| - 1];
            && last.Popped? && last.wanted == s.reader.wanted && last.force == s.reader.force
            && Moves(|last.out|, s.reader.wanted, UsedSize(s.rd, s.wr, |s.buf|), s.reader.force)
  {
    run, events := [s], [];
    var r := s.reader;
    if (r.rd, r.wr) != (s.rd, s.wr) {
      var s1 := s.(reader := Popping(r.wanted, r.force, s.rd, s.wr, map[]));
      AloneMore(run, events, false, s1, Internal);
      run, events := run + [s1], events + [Internal];
    }
    var n := PopSize(run[|events|].reader, |s.buf|);
    for j := 0 to n
      invariant Alone(run, events, false) && run[0] == s
      invariant var last := run[|events|];
                && last.reader.Popping? && last.reader.wanted == r.wanted && last.reader.force == r.force
                && last.reader.rd == last.rd == s.rd && last.reader.wr == last.wr == s.wr && |last.buf| == |s.buf|
                && forall k: nat :: k < j ==> k in last.reader.got
    {
      var next := CopiedOut(run[|events|], j);
      AloneMore(run, events, false, next, Internal);
      run, events := run + [next], events + [Internal];
    }
    var last := run[|events|];
    var out := seq(n, j requires 0 <= j < n => last.reader.got[j]);
    var end, e := last.(rd := last.rd + n, reader := Quiet), Popped(r.wanted, r.force, out);
    AloneMore(run, events, false, end, e);
    run, events := run + [end], events + [e];
  }
}
