/**
 * The bump allocator for generated code (add_jit_memory in Utilities/JITASM.cpp). One 64-bit counter packs the
 * position (low half) and the size of the committed prefix (high half); memory is committed between two atomic
 * updates, so several threads may be committing at once.
 */
module JitMemory {
  import Arith

  const U64 := 0x1_0000_0000_0000_0000
  const U32 := 0x1_0000_0000
  const LIMIT := 0x4000_0000
  const COMMIT_UNIT := 0x20_0000

  // ---------------------------------------------------------------- rounding up

  function Times(k: nat, a: nat): nat {
    k * a
  }

  ghost predicate Multiple(x: nat, a: nat) {
    exists k: nat :: x == Times(k, a)
  }

  /** The powers of two below 2^64 are its proper divisors. */
  ghost predicate IsAlignment(a: nat) {
    0 < a < U64 && Multiple(U64, a)
  }

  ghost predicate IsCeil(v: nat, a: nat, r: nat) {
    v <= r < v + a && Multiple(r, a)
  }

  /** v rounded up to a multiple of a. */
  ghost function Ceil(v: nat, a: nat): (r: nat)
    requires a > 0
    ensures v <= r < v + a
  {
    CeilExists(v, a);
    var r: nat :| IsCeil(v, a, r);
    r
  }

  /** utils::align on 64-bit words, where clearing the low bits takes the remainder off. */
  function Align64(v: nat, a: nat): nat
    requires a > 0
  {
    var x := (v + (a - 1)) % U64;
    x - x % a
  }

  lemma MultipleIntro(x: nat, k: nat, a: nat)
    requires x == k * a
    ensures Multiple(x, a)
  {
    assert x == Times(k, a);
  }

  lemma MultipleMod(x: nat, a: nat)
    requires a > 0
    ensures Multiple(x, a) <==> x % a == 0
  {
    if Multiple(x, a) {
      var k: nat :| x == Times(k, a);
      Arith.DivUnique(x, k, 0, a);
    }
    if x % a == 0 {
      MultipleIntro(x, x / a, a);
    }
  }

  lemma Pow64()
    ensures Arith.Pow(2, 64) == U64
  {
    assert Arith.Pow(2, 4) == 16;
    Arith.PowAdd(2, 4, 4);
    Arith.PowAdd(2, 8, 8);
    Arith.PowAdd(2, 16, 16);
    Arith.PowAdd(2, 32, 32);
  }

  lemma ProperFactor(x: int, y: int, m: nat)
    requires x >= 1 && y >= 2 && x * y == m
    ensures x < m
  {
    Arith.MulBound(y - 1, x);
    assert x * y == (y - 1) * x + x;
  }

  /** Every power of two below 2^64 is an alignment. */
  lemma PowersAlign(e: nat, a: nat)
    requires e < 64 && a == Arith.Pow(2, e)
    ensures IsAlignment(a)
  {
    var rest, half := Arith.Pow(2, 64 - e), Arith.Pow(2, 63 - e);
    Pow64();
    Arith.PowAdd(2, e, 64 - e);
    Arith.PowPos(2, e);
    Arith.PowPos(2, 63 - e);
    assert rest == 2 * half;
    ProperFactor(a, rest, U64);
    MultipleIntro(U64, rest, a);
  }

  lemma FloorMultiple(x: nat, a: nat)
    requires a > 0
    ensures 0 <= x % a < a && x % a <= x && Multiple(x - x % a, a)
  {
    MultipleIntro(x - x % a, x / a, a);
  }

  lemma CeilExists(v: nat, a: nat)
    requires a > 0
    ensures exists r: nat :: IsCeil(v, a, r)
  {
    var x := v + (a - 1);
    FloorMultiple(x, a);
    assert IsCeil(v, a, x - x % a);
  }

  lemma SumOfMultiples(x: nat, y: nat, a: nat)
    requires Multiple(x, a) && Multiple(y, a)
    ensures Multiple(x + y, a)
    ensures y <= x && a > 0 ==> Multiple(x - y, a)
  {
    var k: nat, m: nat :| x == Times(k, a) && y == Times(m, a);
    MultipleIntro(x + y, k + m, a);
    if y <= x && a > 0 {
      if k < m {
        Arith.MulBound(m - k, a);
      }
      MultipleIntro(x - y, k - m, a);
    }
  }

  lemma MultiplesApart(x: nat, y: nat, a: nat)
    requires a > 0 && Multiple(x, a) && Multiple(y, a) && x < y
    ensures x + a <= y
  {
    SumOfMultiples(y, x, a);
    var d: nat :| y - x == Times(d, a);
    Arith.MulBound(d, a);
  }

  lemma CeilUnique(v: nat, a: nat, r: nat)
    requires a > 0 && IsCeil(v, a, r)
    ensures r == Ceil(v, a)
  {
    var c := Ceil(v, a);
    if r < c { MultiplesApart(r, c, a); }
    if c < r { MultiplesApart(c, r, a); }
  }

  lemma CeilShift(v: nat, base: nat, a: nat)
    requires a > 0 && Multiple(base, a)
    ensures Ceil(base + v, a) == base + Ceil(v, a)
  {
    SumOfMultiples(base, Ceil(v, a), a);
    CeilUnique(base + v, a, base + Ceil(v, a));
  }

  lemma CeilOfMultiple(v: nat, a: nat)
    requires a > 0 && Multiple(v, a)
    ensures Ceil(v, a) == v
  {
    CeilUnique(v, a, v);
  }

  lemma CeilMonotone(v: nat, w: nat, a: nat)
    requires a > 0 && v <= w
    ensures Ceil(v, a) <= Ceil(w, a)
  {
    if Ceil(w, a) < Ceil(v, a) {
      MultiplesApart(Ceil(w, a), Ceil(v, a), a);
    }
  }

  /** A multiple of the alignment stays one modulo 2^64. */
  lemma MultipleReduced(x: nat, a: nat)
    requires IsAlignment(a) && Multiple(x, a)
    ensures Multiple(x % U64, a)
  {
    var m: nat :| U64 == Times(m, a);
    var q := x / U64;
    assert q * U64 == (q * m) * a;
    MultipleIntro(q * U64, q * m, a);
    SumOfMultiples(x, q * U64, a);
  }

  lemma BelowNextMultiple(x: nat, m: nat, a: nat)
    requires a > 0 && Multiple(x, a) && Multiple(m, a) && x < m
    ensures x + (a - 1) < m
  {
    MultiplesApart(x, m, a);
  }

  lemma RoundingDown(x: nat, c: nat, a: nat)
    requires a > 0 && Multiple(c, a) && c <= x < c + a
    ensures x - x % a == c
  {
    var k: nat :| c == Times(k, a);
    Arith.DivUnique(x, k, x - c, a);
  }

  /** Rounding up with wrap-around is rounding up modulo 2^64, because the alignment divides 2^64. */
  lemma Align64IsCeil(v: nat, a: nat)
    requires IsAlignment(a)
    ensures Align64(v, a) == Ceil(v, a) % U64
  {
    var c := Ceil(v, a);
    var rem := v + (a - 1) - c;
    MultipleReduced(c, a);
    BelowNextMultiple(c % U64, U64, a);
    var x := c % U64 + rem;
    Arith.DivUnique(v + (a - 1), c / U64, x, U64);
    RoundingDown(x, c % U64, a);
  }

  lemma ModAdd(y: nat, k: nat, m: nat)
    requires m > 0
    ensures (y % m + k) % m == (y + k) % m
  {
    var z := y % m + k;
    assert y + k == (y / m + z / m) * m + z % m;
    Arith.DivUnique(y + k, y / m + z / m, z % m, m);
  }

  lemma Align64Reduced(y: nat, a: nat)
    requires a > 0
    ensures Align64(y % U64, a) == Align64(y, a)
  {
    ModAdd(y, a - 1, U64);
  }

  // ---------------------------------------------------------------- one request

  /** Where a request starting the search at `low` would be placed, and the position after it. */
  function Pos(low: nat, a: nat): nat
    requires a > 0
  {
    Align64(low, a)
  }

  function NewPos(low: nat, size: nat, a: nat): nat
    requires a > 0
  {
    Align64((Pos(low, a) + size) % U64, a)
  }

  /** The same position without wrap-around. */
  ghost function ExactNewPos(low: nat, size: nat, a: nat): nat
    requires a > 0
  {
    Ceil(low, a) + Ceil(size, a)
  }

  lemma AlignmentHalf(a: nat)
    requires IsAlignment(a)
    ensures 2 * a <= U64
  {
    MultipleIntro(a, 1, a);
    MultiplesApart(a, U64, a);
  }

  lemma PosExact(low: nat, a: nat)
    requires IsAlignment(a) && low < U32
    ensures Pos(low, a) == Ceil(low, a)
  {
    AlignmentHalf(a);
    Align64IsCeil(low, a);
  }

  /** The computed position is the exact one modulo 2^64. */
  lemma NewPosWraps(low: nat, size: nat, a: nat)
    requires IsAlignment(a) && low < U32
    ensures NewPos(low, size, a) == ExactNewPos(low, size, a) % U64
  {
    PosExact(low, a);
    var y := Ceil(low, a) + size;
    Align64Reduced(y, a);
    Align64IsCeil(y, a);
    CeilShift(size, Ceil(low, a), a);
  }

  /** The largest position the counter can hold, once a failure has set bit 30. */
  const TOP := 0x7fff_ffff

  /** A request whose rounded size leaves room for every position below 2^64. */
  ghost predicate Fits(size: nat, a: nat)
    requires a > 0
  {
    Ceil(size, a) + Ceil(TOP, a) < U64
  }

  /** The request is granted exactly when its block really ends within the limit. */
  ghost predicate DecidedRightly(low: nat, size: nat, a: nat)
    requires a > 0
  {
    NewPos(low, size, a) <= LIMIT <==> ExactNewPos(low, size, a) <= LIMIT
  }

  lemma FitsIsExact(low: nat, size: nat, a: nat)
    requires IsAlignment(a) && low <= TOP && Fits(size, a)
    ensures NewPos(low, size, a) == ExactNewPos(low, size, a)
  {
    NewPosWraps(low, size, a);
    CeilMonotone(low, TOP, a);
    Arith.DivUnique(ExactNewPos(low, size, a), 0, ExactNewPos(low, size, a), U64);
  }

  lemma MisfitAt(size: nat, a: nat) returns (low: nat)
    requires IsAlignment(a) && 0 < size < U64 && !Fits(size, a)
    ensures low <= TOP && ExactNewPos(low, size, a) == U64
  {
    CeilMonotone(size, U64, a);
    CeilOfMultiple(U64, a);
    var t := U64 - Ceil(size, a);
    SumOfMultiples(U64, Ceil(size, a), a);
    if t <= TOP {
      low := t;
      CeilOfMultiple(t, a);
    } else {
      low := TOP;
      if t < Ceil(TOP, a) {
        MultiplesApart(t, Ceil(TOP, a), a);
      }
    }
  }

  /** Some position makes a request that does not fit wrap around to zero. */
  lemma MisfitWraps(size: nat, a: nat) returns (low: nat)
    requires IsAlignment(a) && 0 < size < U64 && !Fits(size, a)
    ensures low <= TOP && NewPos(low, size, a) == 0 && ExactNewPos(low, size, a) == U64
  {
    low := MisfitAt(size, a);
    NewPosWraps(low, size, a);
  }

  /** Requests are decided rightly at every position if and only if their rounded size fits. */
  lemma DecisionExact(size: nat, a: nat)
    requires IsAlignment(a) && 0 < size < U64
    ensures (forall low :: 0 <= low <= TOP ==> DecidedRightly(low, size, a)) <==> Fits(size, a)
  {
    if Fits(size, a) {
      forall low | 0 <= low <= TOP
        ensures DecidedRightly(low, size, a)
      {
        FitsIsExact(low, size, a);
      }
    } else {
      var low := MisfitWraps(size, a);
      assert !DecidedRightly(low, size, a);
    }
  }

  // ---------------------------------------------------------------- the counter

  function Low(ctr: nat): nat {
    ctr % U32
  }

  function High(ctr: nat): nat {
    ctr / U32
  }

  /** Sets bit 30. */
  function MarkFull(ctr: nat): nat {
    if (Low(ctr) / LIMIT) % 2 == 1 then ctr else ctr + LIMIT
  }

  /** The atomic update that acknowledges committed memory. */
  function Acknowledge(ctr: nat, newa: nat): nat {
    if High(ctr) < newa then ctr + (newa - High(ctr)) * U32 else ctr
  }

  // ---------------------------------------------------------------- the threads

  datatype Block = Block(pos: nat, size: nat, align: nat)

  datatype Pc =
    | Idle
    | Committing(block: Block, olda: nat, newa: nat)    // before memory_commit
    | Acknowledging(block: Block, newa: nat)            // before the second atomic update

  /**
   * The counter, the committed addresses, the threads, and what happened so far: blocks granted in the order of
   * their atomic updates, blocks returned to callers, and whether a request has failed.
   */
  datatype State = State(ctr: nat, committed: set<nat>, pcs: seq<Pc>,
                         granted: seq<Block>, returned: set<Block>, failed: bool)

  predicate Between(from: nat, x: nat, to: nat) {
    from <= x < to
  }

  function Addresses(from: nat, to: nat): set<nat> {
    set x: nat | from <= x < to && Between(from, x, to)
  }

  /** A granted block is returned at once unless more memory has to be committed for it. */
  function Grant(s: State, t: nat, block: Block, ctr: nat, olda: nat, newa: nat): State
    requires t < |s.pcs|
  {
    var s' := s.(ctr := ctr, granted := s.granted + [block]);
    if olda != newa then s'.(pcs := s.pcs[t := Committing(block, olda, newa)])
    else s'.(returned := s.returned + {block})
  }

  /** The first atomic update. */
  function Allocate(s: State, t: nat, size: nat, a: nat): State
    requires t < |s.pcs| && a > 0
  {
    var low := Low(s.ctr);
    var pos := Pos(low, a);
    var new_ := NewPos(low, size, a);
    if new_ > LIMIT then s.(ctr := MarkFull(s.ctr), failed := true)
    else
      var olda := High(s.ctr);
      var newa := if new_ > olda then Align64(new_, COMMIT_UNIT) else olda;
      Grant(s, t, Block(pos, size, a), (s.ctr + (new_ - low)) % U64, olda, newa)
  }

  datatype Request = Request(size: nat, align: nat)

  /** What a caller may ask for. */
  ghost predicate Proper(r: Request) {
    0 < r.size < U64 && IsAlignment(r.align)
  }

  /** A request that fits, or one of the further ones. */
  ghost predicate Allowed(r: Request, extra: set<Request>) {
    Proper(r) && (Fits(r.size, r.align) || r in extra)
  }

  /** One step of thread t, when callers make fitting requests and those in `extra`. */
  ghost predicate StepWith(s: State, s': State, t: nat, extra: set<Request>) {
    && t < |s.pcs|
    && match s.pcs[t]
       case Idle => exists r :: Allowed(r, extra) && s' == Allocate(s, t, r.size, r.align)
       case Committing(block, olda, newa) =>
         s' == s.(committed := s.committed + Addresses(olda, newa), pcs := s.pcs[t := Acknowledging(block, newa)])
       case Acknowledging(block, newa) =>
         s' == s.(ctr := Acknowledge(s.ctr, newa), pcs := s.pcs[t := Idle], returned := s.returned + {block})
  }

  ghost predicate NextWith(s: State, s': State, extra: set<Request>) {
    exists t: nat :: StepWith(s, s', t, extra)
  }

  predicate Init(s: State) {
    && s.ctr == 0 && s.granted == [] && s.returned == {} && !s.failed
    && forall t :: 0 <= t < |s.pcs| ==> s.pcs[t] == Idle
  }

  ghost predicate RunWith(run: seq<State>, extra: set<Request>) {
    && |run| > 0 && Init(run[0])
    && forall i :: 0 <= i < |run| - 1 ==> NextWith(run[i], run[i + 1], extra)
  }

  /** A run of fitting requests. */
  ghost predicate Run(run: seq<State>) {
    RunWith(run, {})
  }

  // ---------------------------------------------------------------- the invariant

  /** The counter's halves: a position below 2^31 and a committed prefix within the limit. */
  predicate CtrOk(s: State) {
    && Low(s.ctr) <= TOP && High(s.ctr) <= LIMIT
    && Addresses(0, High(s.ctr)) <= s.committed
    && (s.failed ==> Low(s.ctr) >= LIMIT)
  }

  predicate InPlace(b: Block) {
    0 < b.size && 0 < b.align && b.pos % b.align == 0 && b.pos + b.size <= LIMIT
  }

  /** Each block lies wholly before the next one and before the position. */
  predicate InOrder(blocks: seq<Block>, low: nat) {
    && (forall i :: 0 <= i < |blocks| ==> InPlace(blocks[i]) && blocks[i].pos + blocks[i].size <= low)
    && (forall i, j :: 0 <= i < j < |blocks| ==> blocks[i].pos + blocks[i].size <= blocks[j].pos)
  }

  predicate Backed(b: Block, committed: set<nat>) {
    Addresses(b.pos, b.pos + b.size) <= committed
  }

  predicate PcOk(pc: Pc, s: State) {
    match pc
    case Idle => true
    case Committing(b, olda, newa) =>
      && b in s.granted && b.pos + b.size <= newa <= LIMIT && Addresses(0, olda) <= s.committed
    case Acknowledging(b, newa) =>
      && b in s.granted && b.pos + b.size <= newa <= LIMIT && Addresses(0, newa) <= s.committed
  }

  predicate PcsOk(s: State) {
    forall t :: 0 <= t < |s.pcs| ==> PcOk(s.pcs[t], s)
  }

  predicate ReturnedOk(s: State) {
    forall b :: b in s.returned ==> b in s.granted && Backed(b, s.committed)
  }

  predicate Inv(s: State) {
    CtrOk(s) && InOrder(s.granted, Low(s.ctr)) && PcsOk(s) && ReturnedOk(s)
  }

  // ---------------------------------------------------------------- the atomic updates

  lemma AddHigh(ctr: nat, k: nat)
    ensures Low(ctr + k * U32) == Low(ctr) && High(ctr + k * U32) == High(ctr) + k
  {
    Arith.DivUnique(ctr + k * U32, High(ctr) + k, Low(ctr), U32);
  }

  /** Acknowledging raises the committed size to the maximum of both and leaves the position alone. */
  lemma AcknowledgedIsMax(ctr: nat, newa: nat)
    ensures Low(Acknowledge(ctr, newa)) == Low(ctr)
    ensures High(Acknowledge(ctr, newa)) == if High(ctr) < newa then newa else High(ctr)
  {
    if High(ctr) < newa {
      AddHigh(ctr, newa - High(ctr));
    }
  }

  lemma MoveLow(ctr: nat, low': nat)
    requires ctr < U64 && low' < U32
    ensures var ctr' := (ctr + (low' - Low(ctr))) % U64; Low(ctr') == low' && High(ctr') == High(ctr)
  {
    var ctr' := ctr + (low' - Low(ctr));
    assert ctr' == High(ctr) * U32 + low';
    Arith.DivUnique(ctr', High(ctr), low', U32);
  }

  /** Marking puts the position at or past the limit, whatever it was, and leaves the other half alone. */
  lemma MarkFullOk(ctr: nat)
    requires Low(ctr) <= TOP
    ensures LIMIT <= Low(MarkFull(ctr)) <= TOP && Low(ctr) <= Low(MarkFull(ctr)) && High(MarkFull(ctr)) == High(ctr)
  {
    if Low(ctr) < LIMIT {
      Arith.DivUnique(ctr + LIMIT, High(ctr), Low(ctr) + LIMIT, U32);
    }
  }

  /** What a granted request satisfies. */
  lemma GrantOk(low: nat, size: nat, a: nat)
    requires low <= TOP && 0 < size && IsAlignment(a) && Fits(size, a) && NewPos(low, size, a) <= LIMIT
    ensures var pos := Pos(low, a); low <= pos && pos % a == 0 && pos + size <= NewPos(low, size, a)
  {
    FitsIsExact(low, size, a);
    PosExact(low, a);
    MultipleMod(Ceil(low, a), a);
  }

  /** Past the limit every request is refused. */
  lemma PastLimitRefused(low: nat, size: nat, a: nat)
    requires LIMIT <= low <= TOP && 0 < size && IsAlignment(a) && Fits(size, a)
    ensures NewPos(low, size, a) > LIMIT
  {
    FitsIsExact(low, size, a);
  }

  lemma CommitUnitOk(v: nat)
    requires v <= LIMIT
    ensures v <= Align64(v, COMMIT_UNIT) <= LIMIT
  {
    MultipleIntro(U64, 0x800_0000_0000, COMMIT_UNIT);
    MultipleIntro(LIMIT, 0x200, COMMIT_UNIT);
    CeilMonotone(v, LIMIT, COMMIT_UNIT);
    CeilOfMultiple(LIMIT, COMMIT_UNIT);
    Align64IsCeil(v, COMMIT_UNIT);
  }

  // ---------------------------------------------------------------- every step

  lemma OtherPcs(s: State, s': State, t: nat)
    requires PcsOk(s) && t < |s.pcs| && |s'.pcs| == |s.pcs| && PcOk(s'.pcs[t], s')
    requires forall u :: 0 <= u < |s.pcs| && u != t ==> s'.pcs[u] == s.pcs[u]
    requires s.committed <= s'.committed && (forall b :: b in s.granted ==> b in s'.granted)
    ensures PcsOk(s')
  {
  }

  lemma BlockAppended(blocks: seq<Block>, low: nat, b: Block, low': nat)
    requires InOrder(blocks, low) && InPlace(b) && low <= b.pos && b.pos + b.size <= low'
    ensures InOrder(blocks + [b], low')
  {
  }

  lemma AddressesMono(from: nat, to: nat, from': nat, to': nat)
    requires from' <= from && to <= to'
    ensures Addresses(from, to) <= Addresses(from', to')
  {
  }

  lemma FailKeepsInv(s: State, t: nat, size: nat, a: nat)
    requires Inv(s) && t < |s.pcs| && a > 0 && NewPos(Low(s.ctr), size, a) > LIMIT
    ensures Inv(Allocate(s, t, size, a))
  {
    var s' := Allocate(s, t, size, a);
    MarkFullOk(s.ctr);
    OtherPcs(s, s', t);
  }

  /** The granted block, before looking at how much memory is committed. */
  lemma GrantKeepsOrder(s: State, t: nat, size: nat, a: nat)
    requires Inv(s) && t < |s.pcs| && 0 < size && IsAlignment(a) && Fits(size, a)
    requires NewPos(Low(s.ctr), size, a) <= LIMIT
    ensures var s' := Allocate(s, t, size, a);
            && CtrOk(s') && InOrder(s'.granted, Low(s'.ctr)) && High(s'.ctr) == High(s.ctr)
  {
    var low := Low(s.ctr);
    if s.failed {
      PastLimitRefused(low, size, a);
    }
    GrantOk(low, size, a);
    MoveLow(s.ctr, NewPos(low, size, a));
    BlockAppended(s.granted, low, Block(Pos(low, a), size, a), NewPos(low, size, a));
  }

  lemma GrantBacked(s: State, t: nat, b: Block, ctr: nat, newa: nat)
    requires Inv(s) && t < |s.pcs| && s.pcs[t] == Idle && b.pos + b.size <= newa <= LIMIT
    ensures var s' := Grant(s, t, b, ctr, High(s.ctr), newa); PcsOk(s') && ReturnedOk(s')
  {
    var s' := Grant(s, t, b, ctr, High(s.ctr), newa);
    assert b == s'.granted[|s.granted|];
    OtherPcs(s, s', t);
    AddressesMono(b.pos, b.pos + b.size, 0, newa);
  }

  lemma GrantKeepsInv(s: State, t: nat, size: nat, a: nat)
    requires Inv(s) && t < |s.pcs| && s.pcs[t] == Idle && 0 < size && IsAlignment(a) && Fits(size, a)
    requires NewPos(Low(s.ctr), size, a) <= LIMIT
    ensures Inv(Allocate(s, t, size, a))
  {
    var low, olda := Low(s.ctr), High(s.ctr);
    var pos, new_ := Pos(low, a), NewPos(low, size, a);
    var newa := if new_ > olda then Align64(new_, COMMIT_UNIT) else olda;
    GrantOk(low, size, a);
    CommitUnitOk(new_);
    GrantBacked(s, t, Block(pos, size, a), (s.ctr + (new_ - low)) % U64, newa);
    GrantKeepsOrder(s, t, size, a);
  }

  lemma CommitKeepsInv(s: State, s': State, t: nat)
    requires Inv(s) && t < |s.pcs| && s.pcs[t].Committing? && StepWith(s, s', t, {})
    ensures Inv(s')
  {
    OtherPcs(s, s', t);
  }

  lemma AcknowledgeKeepsInv(s: State, s': State, t: nat)
    requires Inv(s) && t < |s.pcs| && s.pcs[t].Acknowledging? && StepWith(s, s', t, {})
    ensures Inv(s')
  {
    var b, newa := s.pcs[t].block, s.pcs[t].newa;
    AcknowledgedIsMax(s.ctr, newa);
    OtherPcs(s, s', t);
    AddressesMono(b.pos, b.pos + b.size, 0, newa);
  }

  lemma StepKeepsInv(s: State, s': State, t: nat)
    requires Inv(s) && StepWith(s, s', t, {})
    ensures Inv(s')
  {
    match s.pcs[t]
    case Idle =>
      var r :| Allowed(r, {}) && s' == Allocate(s, t, r.size, r.align);
      var size, a := r.size, r.align;
      if NewPos(Low(s.ctr), size, a) > LIMIT {
        FailKeepsInv(s, t, size, a);
      } else {
        GrantKeepsInv(s, t, size, a);
      }
    case Committing(_, _, _) => CommitKeepsInv(s, s', t);
    case Acknowledging(_, _) => AcknowledgeKeepsInv(s, s', t);
  }

  lemma {:induction false} RunInv(run: seq<State>, i: nat)
    requires Run(run) && i < |run|
    ensures Inv(run[i])
  {
    if i > 0 {
      RunInv(run, i - 1);
      assert NextWith(run[i - 1], run[i - 1 + 1], {});
      var t :| StepWith(run[i - 1], run[i], t, {});
      StepKeepsInv(run[i - 1], run[i], t);
    }
  }

  // ---------------------------------------------------------------- what callers get

  predicate Disjoint(b: Block, c: Block) {
    b.pos + b.size <= c.pos || c.pos + c.size <= b.pos
  }

  /** Where the last granted block ends, rounded up as its caller asked. */
  ghost function Tail(blocks: seq<Block>): nat {
    if blocks == [] || blocks[|blocks| - 1].align == 0 then 0 else
      var b := blocks[|blocks| - 1];
      b.pos + Ceil(b.size, b.align)
  }

  /** Until a request fails the position is the end of the last granted block. */
  ghost predicate AtTail(s: State) {
    !s.failed ==> Low(s.ctr) == Tail(s.granted)
  }

  /** A bump allocator: the request gets the first fitting place behind all others, or fails, and then for good. */
  ghost predicate Bumps(s: State, s': State, t: nat, r: Request)
    requires r.align > 0
  {
    var pos := Ceil(Tail(s.granted), r.align);
    var b := Block(pos, r.size, r.align);
    if !s.failed && pos + Ceil(r.size, r.align) <= LIMIT
    then && s'.granted == s.granted + [b] && !s'.failed && t < |s'.pcs|
         && if s'.pcs[t] == Idle then b in s'.returned else s'.pcs[t].Committing? && s'.pcs[t].block == b
    else s'.granted == s.granted && s'.failed && s'.returned == s.returned && s'.pcs == s.pcs
  }

  lemma AllocateBumps(s: State, t: nat, r: Request)
    requires Inv(s) && AtTail(s) && t < |s.pcs| && s.pcs[t] == Idle && Proper(r) && Fits(r.size, r.align)
    ensures Bumps(s, Allocate(s, t, r.size, r.align), t, r) && AtTail(Allocate(s, t, r.size, r.align))
  {
    var low, s' := Low(s.ctr), Allocate(s, t, r.size, r.align);
    FitsIsExact(low, r.size, r.align);
    PosExact(low, r.align);
    if s.failed {
      PastLimitRefused(low, r.size, r.align);
    }
    if NewPos(low, r.size, r.align) <= LIMIT {
      MoveLow(s.ctr, NewPos(low, r.size, r.align));
      assert s'.granted[|s.granted|] == Block(Ceil(low, r.align), r.size, r.align);
    }
  }

  lemma {:induction false} RunAtTail(run: seq<State>, n: nat)
    requires Run(run) && n < |run|
    ensures AtTail(run[n])
  {
    if n > 0 {
      RunAtTail(run, n - 1);
      RunInv(run, n - 1);
      assert NextWith(run[n - 1], run[n - 1 + 1], {});
      var t: nat :| StepWith(run[n - 1], run[n], t, {});
      StepAtTail(run[n - 1], run[n], t);
    }
  }

  lemma StepAtTail(s: State, s': State, t: nat)
    requires Inv(s) && AtTail(s) && StepWith(s, s', t, {})
    ensures AtTail(s')
  {
    match s.pcs[t]
    case Idle =>
      var r :| Allowed(r, {}) && s' == Allocate(s, t, r.size, r.align);
      AllocateBumps(s, t, r);
    case Committing(_, _, _) =>
    case Acknowledging(_, newa) => AcknowledgedIsMax(s.ctr, newa);
  }

  /**
   * In every reachable state a fitting request is granted exactly if none has failed and the first aligned place
   * behind the last granted block ends within the limit, and is given that place.
   */
  lemma GrantedExactly(run: seq<State>, n: nat, t: nat, r: Request)
    requires Run(run) && n + 1 < |run| && t < |run[n].pcs| && run[n].pcs[t] == Idle
    requires Proper(r) && Fits(r.size, r.align) && run[n + 1] == Allocate(run[n], t, r.size, r.align)
    ensures Bumps(run[n], run[n + 1], t, r)
  {
    RunInv(run, n);
    RunAtTail(run, n);
    AllocateBumps(run[n], t, r);
  }

  /** A call for which memory is committed goes on with its block until it returns that block. */
  lemma GrantReturned(run: seq<State>, n: nat, t: nat)
    requires Run(run) && n + 1 < |run| && t < |run[n].pcs| && run[n].pcs[t] != Idle
    ensures |run[n + 1].pcs| == |run[n].pcs|
    ensures var before, after := run[n].pcs[t], run[n + 1].pcs[t];
            if after == Idle then before.Acknowledging? && before.block in run[n + 1].returned
            else after == before || (before.Committing? && after == Acknowledging(before.block, before.newa))
  {
    assert NextWith(run[n], run[n + 1], {});
    var u: nat :| StepWith(run[n], run[n + 1], u, {});
  }

  /** In every reachable state each granted block is aligned and within the limit. */
  lemma BlocksInPlace(run: seq<State>, n: nat, i: nat)
    requires Run(run) && n < |run| && i < |run[n].granted|
    ensures InPlace(run[n].granted[i])
  {
    RunInv(run, n);
  }

  /** In every reachable state granted blocks are pairwise disjoint. */
  lemma BlocksDisjoint(run: seq<State>, n: nat, i: nat, j: nat)
    requires Run(run) && n < |run| && i < |run[n].granted| && j < |run[n].granted| && i != j
    ensures Disjoint(run[n].granted[i], run[n].granted[j])
  {
    RunInv(run, n);
  }

  /** A returned block was granted, is fully committed, and starts inside the subrange. */
  lemma ReturnedIsCommitted(run: seq<State>, n: nat, b: Block)
    requires Run(run) && n < |run| && b in run[n].returned
    ensures b in run[n].granted && b.pos < LIMIT
    ensures forall x: nat :: b.pos <= x < b.pos + b.size ==> x in run[n].committed
  {
    RunInv(run, n);
    forall x: nat | b.pos <= x < b.pos + b.size
      ensures x in run[n].committed
    {
      assert Between(b.pos, x, b.pos + b.size);
      assert x in Addresses(b.pos, b.pos + b.size);
    }
  }

  lemma FailedStep(s: State, s': State)
    requires Inv(s) && s.failed && NextWith(s, s', {})
    ensures s'.failed && s'.granted == s.granted
  {
    var t: nat :| StepWith(s, s', t, {});
    if s.pcs[t] == Idle {
      var r :| Allowed(r, {}) && s' == Allocate(s, t, r.size, r.align);
      PastLimitRefused(Low(s.ctr), r.size, r.align);
    }
  }

  /** After one failure nothing is granted any more. */
  lemma {:induction false} FailureIsFinal(run: seq<State>, n: nat, k: nat)
    requires Run(run) && n <= k < |run| && run[n].failed
    ensures run[k].failed && run[k].granted == run[n].granted
    decreases k
  {
    if n < k {
      FailureIsFinal(run, n, k - 1);
      RunInv(run, k - 1);
      assert NextWith(run[k - 1], run[k - 1 + 1], {});
      FailedStep(run[k - 1], run[k]);
    }
  }

  // ---------------------------------------------------------------- requests that do not fit

  /** Granted blocks never overlap. */
  ghost predicate KeepsApart(run: seq<State>) {
    forall n: nat, i: nat, j: nat ::
      n < |run| && i < |run[n].granted| && j < |run[n].granted| && i != j ==>
        Disjoint(run[n].granted[i], run[n].granted[j])
  }

  /** Nothing is granted after a failure. */
  ghost predicate FailsForGood(run: seq<State>) {
    forall n: nat, k: nat :: n <= k < |run| && run[n].failed ==> run[k].granted == run[n].granted
  }

  ghost predicate Sane(run: seq<State>) {
    KeepsApart(run) && FailsForGood(run)
  }

  lemma FittingIsSane(run: seq<State>)
    requires Run(run)
    ensures Sane(run)
  {
    forall n: nat, i: nat, j: nat | n < |run| && i < |run[n].granted| && j < |run[n].granted| && i != j
      ensures Disjoint(run[n].granted[i], run[n].granted[j])
    {
      BlocksDisjoint(run, n, i, j);
    }
    forall n: nat, k: nat | n <= k < |run| && run[n].failed
      ensures run[k].granted == run[n].granted
    {
      FailureIsFinal(run, n, k);
    }
  }

  lemma FitsAtZero(size: nat)
    requires 0 < size <= LIMIT
    ensures Proper(Request(size, 1)) && Fits(size, 1) && Pos(0, 1) == 0 && NewPos(0, size, 1) == size
  {
    MultipleIntro(U64, U64, 1);
    MultipleIntro(size, size, 1);
    MultipleIntro(TOP, TOP, 1);
    MultipleIntro(0, 0, 1);
    CeilOfMultiple(size, 1);
    CeilOfMultiple(TOP, 1);
    CeilOfMultiple(0, 1);
    PosExact(0, 1);
    FitsIsExact(0, size, 1);
  }

  function Start(): State {
    State(0, {}, [Idle, Idle, Idle], [], {}, false)
  }

  /** A grant moves the position, appends the block and leaves the other threads alone. */
  lemma GrantStep(s: State, t: nat, r: Request, new_: nat, extra: set<Request>) returns (s': State)
    requires t < |s.pcs| && s.pcs[t] == Idle && Allowed(r, extra)
    requires s.ctr < U32 && new_ == NewPos(s.ctr, r.size, r.align) <= LIMIT
    ensures NextWith(s, s', extra)
    ensures s'.ctr == new_ && s'.granted == s.granted + [Block(Pos(s.ctr, r.align), r.size, r.align)]
    ensures s'.failed == s.failed && |s'.pcs| == |s.pcs|
    ensures forall u :: 0 <= u < |s.pcs| && u != t ==> s'.pcs[u] == s.pcs[u]
  {
    s' := Allocate(s, t, r.size, r.align);
    assert StepWith(s, s', t, extra);
    MoveLow(s.ctr, new_);
    assert Low(s.ctr) == s.ctr && High(s.ctr) == 0;
  }

  /** Asking for the whole subrange fails once a byte is gone, and sets bit 30 of the position. */
  lemma FailStep(s: State, t: nat, extra: set<Request>) returns (s': State)
    requires t < |s.pcs| && s.pcs[t] == Idle && 0 < s.ctr < LIMIT
    ensures NextWith(s, s', extra) && s' == s.(ctr := s.ctr + LIMIT, failed := true)
  {
    FitsAtZero(LIMIT);
    FitsIsExact(s.ctr, LIMIT, 1);
    assert Low(s.ctr) == s.ctr;
    var r := Request(LIMIT, 1);
    s' := Allocate(s, t, r.size, r.align);
    assert Allowed(r, extra);
    assert StepWith(s, s', t, extra);
  }

  lemma Extended(run: seq<State>, s': State, extra: set<Request>)
    requires RunWith(run, extra) && NextWith(run[|run| - 1], s', extra)
    ensures RunWith(run + [s'], extra)
  {
    var run' := run + [s'];
    forall i | 0 <= i < |run'| - 1
      ensures NextWith(run'[i], run'[i + 1], extra)
    {
    }
  }

  lemma SeenOverlap(run: seq<State>, n: nat, i: nat, j: nat)
    requires n < |run| && i < |run[n].granted| && j < |run[n].granted| && i != j
    requires !Disjoint(run[n].granted[i], run[n].granted[j])
    ensures !KeepsApart(run)
  {
  }

  lemma GrantRun(run: seq<State>, t: nat, r: Request, new_: nat, extra: set<Request>) returns (s': State)
    requires RunWith(run, extra) && Allowed(r, extra)
    requires var s := run[|run| - 1];
             && t < |s.pcs| && s.pcs[t] == Idle && s.ctr < U32 && new_ == NewPos(s.ctr, r.size, r.align) <= LIMIT
    ensures RunWith(run + [s'], extra)
    ensures var s := run[|run| - 1];
            && s'.ctr == new_ && s'.granted == s.granted + [Block(Pos(s.ctr, r.align), r.size, r.align)]
            && s'.failed == s.failed && |s'.pcs| == |s.pcs|
            && forall u :: 0 <= u < |s.pcs| && u != t ==> s'.pcs[u] == s.pcs[u]
  {
    s' := GrantStep(run[|run| - 1], t, r, new_, extra);
    Extended(run, s', extra);
  }

  /** Bytes up to `low` are granted, and after that, from position zero, byte 0 again. */
  lemma OverlapRun(low: nat, r: Request) returns (run: seq<State>)
    requires Proper(r) && 0 < low <= LIMIT && NewPos(low, r.size, r.align) == 0
    ensures RunWith(run, {r}) && !KeepsApart(run)
  {
    FitsAtZero(low);
    FitsAtZero(1);
    run := [Start()];
    var s := GrantRun(run, 0, Request(low, 1), low, {r});
    run := run + [s];
    s := GrantRun(run, 1, r, 0, {r});
    run := run + [s];
    s := GrantRun(run, 2, Request(1, 1), 1, {r});
    run := run + [s];
    SeenOverlap(run, 3, 0, 2);
  }

  /** For example: one byte, then 2^64 - 1 bytes, then one byte again. */
  lemma HugeRequestOverlaps() returns (run: seq<State>)
    ensures RunWith(run, {Request(U64 - 1, 1)}) && !KeepsApart(run)
  {
    FitsAtZero(1);
    assert NewPos(1, U64 - 1, 1) == 0;
    run := OverlapRun(1, Request(U64 - 1, 1));
  }

  /** From position zero the wrapping block itself starts at byte 0, which is granted again. */
  lemma OverlapAtZero(r: Request) returns (run: seq<State>)
    requires Proper(r) && NewPos(0, r.size, r.align) == 0
    ensures RunWith(run, {r}) && !KeepsApart(run)
  {
    PosExact(0, r.align);
    MultipleIntro(0, 0, r.align);
    CeilOfMultiple(0, r.align);
    FitsAtZero(1);
    run := [Start()];
    var s := GrantRun(run, 0, r, 0, {r});
    run := run + [s];
    s := GrantRun(run, 1, Request(1, 1), 1, {r});
    run := run + [s];
    SeenOverlap(run, 2, 0, 1);
  }

  /** A failure leads to a position past the limit, from which the wrapping request is granted all the same. */
  lemma RevivalRun(low: nat, r: Request) returns (run: seq<State>)
    requires Proper(r) && LIMIT < low <= TOP && NewPos(low, r.size, r.align) == 0
    ensures RunWith(run, {r}) && !FailsForGood(run)
  {
    FitsAtZero(low - LIMIT);
    run := [Start()];
    var s := GrantRun(run, 0, Request(low - LIMIT, 1), low - LIMIT, {r});
    run := run + [s];
    s := FailStep(s, 1, {r});
    Extended(run, s, {r});
    run := run + [s];
    s := GrantRun(run, 1, r, 0, {r});
    run := run + [s];
    assert run[2].failed && run[3].granted != run[2].granted;
  }

  /** Every request that does not fit breaks some run in which all others fit. */
  lemma MisfitBreaks(r: Request) returns (run: seq<State>)
    requires Proper(r) && !Fits(r.size, r.align)
    ensures RunWith(run, {r}) && !Sane(run)
  {
    var low := MisfitWraps(r.size, r.align);
    if low == 0 {
      run := OverlapAtZero(r);
    } else if low <= LIMIT {
      run := OverlapRun(low, r);
    } else {
      run := RevivalRun(low, r);
    }
  }

  ghost predicate FittingRequest(r: Request) {
    r.align > 0 && Fits(r.size, r.align)
  }

  ghost predicate Safe(extra: set<Request>) {
    forall run :: RunWith(run, extra) ==> Sane(run)
  }

  /**
   * Callers may make the requests in `extra` beside fitting ones without overlapping blocks, and without a grant
   * after a failure, if and only if these requests fit too.
   */
  lemma RequestsExact(extra: set<Request>)
    requires forall r :: r in extra ==> Proper(r)
    ensures Safe(extra) <==> forall r :: r in extra ==> FittingRequest(r)
  {
    if forall r :: r in extra ==> FittingRequest(r) {
      forall run | RunWith(run, extra)
        ensures Sane(run)
      {
        MoreRequests(run, extra, {});
        FittingIsSane(run);
      }
    } else {
      var r :| r in extra && !FittingRequest(r);
      var run := MisfitBreaks(r);
      MoreRequests(run, {r}, extra);
    }
  }

  lemma MoreRequests(run: seq<State>, extra: set<Request>, more: set<Request>)
    requires RunWith(run, extra) && forall r :: Allowed(r, extra) ==> Allowed(r, more)
    ensures RunWith(run, more)
  {
    forall i | 0 <= i < |run| - 1
      ensures NextWith(run[i], run[i + 1], more)
    {
      assert NextWith(run[i], run[i + 1], extra);
      var t: nat :| StepWith(run[i], run[i + 1], t, extra);
      assert StepWith(run[i], run[i + 1], t, more);
    }
  }
}
