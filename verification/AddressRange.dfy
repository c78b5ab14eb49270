/**
 * Address ranges and the vector of ranges that stands for a set of addresses (Utilities/address_range.h). Addresses
 * are unsigned integers up to `max`; the neighbours of a range wrap around there.
 */
module AddressRange {

  datatype Range = Range(start: nat, end: nat) {

    predicate Valid() {
      start <= end
    }

    /** overlaps, for an address. */
    predicate Has(a: int) {
      start <= a <= end
    }

    /** overlaps, for a range. */
    predicate Overlaps(other: Range) {
      start <= other.end && other.start <= end
    }

    function NextAddress(max: nat): nat {
      (end + 1) % (max + 1)
    }

    function PrevAddress(max: nat): nat {
      (start - 1) % (max + 1)
    }

    predicate Touches(other: Range, max: nat) {
      Overlaps(other) || other.start == NextAddress(max) || other.end == PrevAddress(max)
    }

    predicate Within(max: nat) {
      start <= max && end <= max
    }
  }

  function Invalid(max: nat): Range {
    Range(max, 0)
  }

  function Min(a: nat, b: nat): nat {
    if a < b then a else b
  }

  function Max(a: nat, b: nat): nat {
    if a < b then b else a
  }

  /** get_min_max. */
  function MinMax(a: Range, b: Range, max: nat): Range {
    Range(Min(if a.Valid() then a.start else max, if b.Valid() then b.start else max),
          Max(if a.Valid() then a.end else 0, if b.Valid() then b.end else 0))
  }

  // ---------------------------------------------------------------- touching

  /** The two ranges are neighbours only across the top of the address space. */
  predicate WrapAround(a: Range, b: Range, max: nat) {
    (a.end == max && b.start == 0) || (a.start == 0 && b.end == max)
  }

  /** Touching, except across the top, is leaving no address between. */
  lemma TouchesMeaning(a: Range, b: Range, max: nat)
    requires a.Valid() && b.Valid() && a.Within(max) && b.Within(max) && max > 0
    ensures a.Touches(b, max) <==> (a.start <= b.end + 1 && b.start <= a.end + 1) || WrapAround(a, b, max)
    ensures a.Touches(b, max) <==> b.Touches(a, max)
  {
    NextMeaning(a.end, max);
    NextMeaning(b.end, max);
    PrevMeaning(a.start, max);
    PrevMeaning(b.start, max);
  }

  lemma NextMeaning(x: nat, max: nat)
    requires x <= max
    ensures (x + 1) % (max + 1) == if x == max then 0 else x + 1
  {
  }

  lemma PrevMeaning(x: nat, max: nat)
    requires x <= max
    ensures (x - 1) % (max + 1) == if x == 0 then max else x - 1
  {
  }

  // ---------------------------------------------------------------- the set of addresses

  ghost predicate Covers(data: seq<Range>, a: int) {
    exists i :: 0 <= i < |data| && data[i].Has(a)
  }

  predicate AllWithin(data: seq<Range>, max: nat) {
    forall i :: 0 <= i < |data| ==> data[i].Within(max)
  }

  /** check_consistency: no two valid ranges touch. */
  predicate Consistent(data: seq<Range>, max: nat) {
    forall i, j :: 0 <= i < j < |data| && data[i].Valid() && data[j].Valid() ==> !data[i].Touches(data[j], max)
  }

  /** Some valid range is a neighbour of `r` across the top of the address space. */
  predicate HasWrapPair(data: seq<Range>, r: Range, max: nat) {
    exists i :: 0 <= i < |data| && data[i].Valid() && WrapAround(data[i], r, max)
  }

  // ---------------------------------------------------------------- merging

  predicate Touched(data: seq<Range>, i: nat, r: Range, max: nat)
    requires i < |data|
  {
    data[i].Valid() && data[i].Touches(r, max)
  }

  /** h reaches exactly as far as r and the touched ranges among the first n. */
  ghost predicate IsHull(h: Range, data: seq<Range>, n: nat, r: Range, max: nat)
    requires n <= |data|
  {
    && h.start <= r.start && r.end <= h.end
    && (forall i: nat :: i < n && Touched(data, i, r, max) ==> h.start <= data[i].start && data[i].end <= h.end)
    && (h.start == r.start || exists i: nat :: i < n && Touched(data, i, r, max) && h.start == data[i].start)
    && (h.end == r.end || exists i: nat :: i < n && Touched(data, i, r, max) && h.end == data[i].end)
  }

  /** What merging r makes of range i when the touched ranges are gathered at `found`. */
  ghost predicate MergedSlot(data: seq<Range>, data': seq<Range>, i: nat, n: nat, found: nat, r: Range, max: nat)
    requires n <= |data| == |data'| && i < |data|
  {
    if i == found then IsHull(data'[i], data, n, r, max)
    else if i < n && Touched(data, i, r, max) then data'[i] == Invalid(max)
    else data'[i] == data[i]
  }

  ghost predicate MergedAt(data: seq<Range>, data': seq<Range>, n: nat, found: nat, r: Range, max: nat)
    requires n <= |data|
  {
    && |data'| == |data| && found < n && Touched(data, found, r, max)
    && forall i: nat :: i < |data| ==> MergedSlot(data, data', i, n, found, r, max)
  }

  /** An address of the hull belongs to r or to a touched range, unless the touching wraps around. */
  lemma HullCovers(h: Range, data: seq<Range>, r: Range, max: nat, a: int)
    requires AllWithin(data, max) && r.Within(max) && r.Valid() && max > 0
    requires IsHull(h, data, |data|, r, max) && !HasWrapPair(data, r, max)
    ensures h.Has(a) ==> r.Has(a) || exists i: nat :: i < |data| && Touched(data, i, r, max) && data[i].Has(a)
  {
    if h.Has(a) && a < r.start {
      var i: nat :| i < |data| && Touched(data, i, r, max) && h.start == data[i].start;
      TouchesMeaning(data[i], r, max);
      assert data[i].Has(a);
    } else if h.Has(a) && r.end < a {
      var i: nat :| i < |data| && Touched(data, i, r, max) && h.end == data[i].end;
      TouchesMeaning(data[i], r, max);
      assert data[i].Has(a);
    }
  }

  lemma MergedCoversOne(data: seq<Range>, data': seq<Range>, found: nat, r: Range, max: nat, a: int)
    requires AllWithin(data, max) && r.Within(max) && r.Valid() && max > 0
    requires MergedAt(data, data', |data|, found, r, max) && !HasWrapPair(data, r, max)
    ensures Covers(data', a) <==> Covers(data, a) || r.Has(a)
  {
    var n := |data|;
    assert MergedSlot(data, data', found, n, found, r, max);
    if Covers(data', a) {
      var i :| 0 <= i < |data'| && data'[i].Has(a);
      assert MergedSlot(data, data', i, n, found, r, max);
      if i == found {
        HullCovers(data'[i], data, r, max, a);
      }
    }
    if r.Has(a) {
      assert data'[found].Has(a);
    }
    if Covers(data, a) {
      var i: nat :| i < |data| && data[i].Has(a);
      assert MergedSlot(data, data', i, n, found, r, max);
      if Touched(data, i, r, max) {
        assert data'[found].Has(a);
      } else {
        assert data'[i].Has(a);
      }
    }
  }

  /** A wrap-around neighbour makes the hull the whole address space. */
  lemma WrapCoversAll(data: seq<Range>, data': seq<Range>, found: nat, r: Range, max: nat)
    requires AllWithin(data, max) && r.Within(max) && r.Valid() && max > 0
    requires MergedAt(data, data', |data|, found, r, max) && HasWrapPair(data, r, max)
    ensures data'[found].start == 0 && data'[found].end >= max
  {
    var i :| 0 <= i < |data| && data[i].Valid() && WrapAround(data[i], r, max);
    TouchesMeaning(data[i], r, max);
    assert Touched(data, i, r, max);
    assert MergedSlot(data, data', found, |data|, found, r, max);
  }

  // ---------------------------------------------------------------- merging keeps ranges apart

  predicate Apart(a: Range, b: Range, max: nat) {
    a.Valid() && b.Valid() ==> !a.Touches(b, max)
  }

  /** A range apart from r and from everything r touches is apart from their hull. */
  lemma HullApart(h: Range, data: seq<Range>, r: Range, max: nat, e: Range)
    requires AllWithin(data, max) && r.Within(max) && e.Within(max) && r.Valid() && e.Valid() && max > 0
    requires IsHull(h, data, |data|, r, max) && h.Within(max) && !HasWrapPair(data, r, max)
    requires Apart(e, r, max)
    requires forall i: nat :: i < |data| && Touched(data, i, r, max) ==> Apart(e, data[i], max)
    ensures Apart(e, h, max)
  {
    TouchesMeaning(e, h, max);
    TouchesMeaning(e, r, max);
    if e.Touches(h, max) {
      if e.end < r.start {
        if h.start != r.start {
          var i: nat :| i < |data| && Touched(data, i, r, max) && h.start == data[i].start;
          TouchesMeaning(e, data[i], max);
          TouchesMeaning(data[i], r, max);
        }
      }
      if e.start > r.end {
        if h.end != r.end {
          var i: nat :| i < |data| && Touched(data, i, r, max) && h.end == data[i].end;
          TouchesMeaning(e, data[i], max);
          TouchesMeaning(data[i], r, max);
        }
      }
    }
  }

  lemma HullWithin(h: Range, data: seq<Range>, n: nat, r: Range, max: nat)
    requires n <= |data| && AllWithin(data, max) && r.Within(max) && r.Valid() && IsHull(h, data, n, r, max)
    ensures h.Within(max) && h.Valid()
  {
  }

  lemma ConsistentPair(data: seq<Range>, max: nat, i: nat, j: nat)
    requires AllWithin(data, max) && max > 0 && Consistent(data, max) && i < |data| && j < |data| && i != j
    ensures Apart(data[i], data[j], max)
  {
    if data[i].Valid() && data[j].Valid() {
      TouchesMeaning(data[i], data[j], max);
    }
  }

  lemma SlotApart(data: seq<Range>, data': seq<Range>, found: nat, r: Range, max: nat, j: nat)
    requires AllWithin(data, max) && r.Within(max) && r.Valid() && max > 0 && Consistent(data, max)
    requires MergedAt(data, data', |data|, found, r, max) && !HasWrapPair(data, r, max)
    requires j < |data| && j != found
    ensures Apart(data'[j], data'[found], max)
  {
    assert MergedSlot(data, data', found, |data|, found, r, max) && MergedSlot(data, data', j, |data|, found, r, max);
    HullWithin(data'[found], data, |data|, r, max);
    if data'[j].Valid() {
      forall i: nat | i < |data| && Touched(data, i, r, max)
        ensures Apart(data[j], data[i], max)
      {
        if i != j {
          ConsistentPair(data, max, j, i);
        }
      }
      HullApart(data'[found], data, r, max, data[j]);
    }
  }

  lemma MergedConsistent(data: seq<Range>, data': seq<Range>, found: nat, r: Range, max: nat)
    requires AllWithin(data, max) && r.Within(max) && r.Valid() && max > 0 && Consistent(data, max)
    requires MergedAt(data, data', |data|, found, r, max) && !HasWrapPair(data, r, max)
    ensures Consistent(data', max)
  {
    assert MergedSlot(data, data', found, |data|, found, r, max);
    HullWithin(data'[found], data, |data|, r, max);
    forall i, j | 0 <= i < j < |data'| && data'[i].Valid() && data'[j].Valid()
      ensures !data'[i].Touches(data'[j], max)
    {
      assert MergedSlot(data, data', i, |data|, found, r, max) && MergedSlot(data, data', j, |data|, found, r, max);
      if i == found {
        SlotApart(data, data', found, r, max, j);
        TouchesMeaning(data'[i], data'[j], max);
      } else if j == found {
        SlotApart(data, data', found, r, max, i);
      }
    }
  }

  predicate AllTouch(data: seq<Range>, r: Range, max: nat) {
    forall i: nat :: i < |data| && data[i].Valid() ==> Touched(data, i, r, max)
  }

  lemma WrapConsistent(data: seq<Range>, data': seq<Range>, found: nat, r: Range, max: nat)
    requires AllWithin(data, max) && r.Within(max) && r.Valid() && max > 0
    requires MergedAt(data, data', |data|, found, r, max) && HasWrapPair(data, r, max)
    ensures Consistent(data', max) <==> AllTouch(data, r, max)
  {
    WrapCoversAll(data, data', found, r, max);
    if AllTouch(data, r, max) {
      forall i | 0 <= i < |data'| && i != found
        ensures !data'[i].Valid()
      {
        assert MergedSlot(data, data', i, |data|, found, r, max);
      }
    }
    if !AllTouch(data, r, max) {
      var i: nat :| i < |data| && data[i].Valid() && !Touched(data, i, r, max);
      assert MergedSlot(data, data', i, |data|, found, r, max);
      assert data'[i].Overlaps(data'[found]) && data'[found].Overlaps(data'[i]);
    }
  }

  /** Adding a range that touches nothing, in an invalid slot or at the end. */
  lemma AddedCovers(data: seq<Range>, slot: nat, r: Range, a: int)
    requires slot < |data| && !data[slot].Valid()
    ensures Covers(data[slot := r], a) <==> Covers(data, a) || r.Has(a)
  {
    var data' := data[slot := r];
    if r.Has(a) { assert data'[slot].Has(a); }
    if Covers(data, a) {
      var i :| 0 <= i < |data| && data[i].Has(a);
      assert data'[i].Has(a);
    }
  }

  lemma AppendedCovers(data: seq<Range>, r: Range, a: int)
    ensures Covers(data + [r], a) <==> Covers(data, a) || r.Has(a)
  {
    var data' := data + [r];
    if r.Has(a) { assert data'[|data|].Has(a); }
    if Covers(data, a) {
      var i :| 0 <= i < |data| && data[i].Has(a);
      assert data'[i].Has(a);
    }
  }

  lemma NoneTouched(data: seq<Range>, r: Range, max: nat)
    requires AllWithin(data, max) && r.Within(max) && r.Valid() && max > 0
    requires forall i: nat :: i < |data| ==> !Touched(data, i, r, max)
    ensures !HasWrapPair(data, r, max)
    ensures forall i :: 0 <= i < |data| && data[i].Valid() ==> !data[i].Touches(r, max) && !r.Touches(data[i], max)
  {
    forall i | 0 <= i < |data| && data[i].Valid()
      ensures !data[i].Touches(r, max) && !r.Touches(data[i], max) && !WrapAround(data[i], r, max)
    {
      assert !Touched(data, i, r, max);
      TouchesMeaning(data[i], r, max);
    }
  }

  // ---------------------------------------------------------------- what merge promises

  /** The ranges after merging r stand for the union, except that wrap-around neighbours make it everything. */
  ghost predicate MergedSet(data: seq<Range>, data': seq<Range>, r: Range, max: nat) {
    if r.Valid() && HasWrapPair(data, r, max) then forall a :: 0 <= a <= max ==> Covers(data', a)
    else forall a {:trigger Covers(data', a)} :: Covers(data', a) <==> Covers(data, a) || r.Has(a)
  }

  /** Ranges that were apart stay apart, except that wrap-around needs every range to be touched. */
  ghost predicate MergedApart(data: seq<Range>, data': seq<Range>, r: Range, max: nat) {
    Consistent(data, max) ==>
      (Consistent(data', max) <==> !(r.Valid() && HasWrapPair(data, r, max)) || AllTouch(data, r, max))
  }

  /** The range at `found` takes in r and the ranges touching it; the other ranges are kept. */
  ghost predicate Gathers(data: seq<Range>, data': seq<Range>, found: nat, r: Range, max: nat) {
    && found < |data'| && data'[found].start <= r.start && r.end <= data'[found].end
    && (forall k: nat :: k < |data'| && k != found && data'[k].Valid() ==>
          data'[k] in data && !data'[k].Touches(r, max))
    && (forall d :: d in data && d.Valid() ==>
          if d.Touches(r, max) then data'[found].start <= d.start && d.end <= data'[found].end else d in data')
  }

  ghost predicate MergedRanges(data: seq<Range>, data': seq<Range>, r: Range, max: nat) {
    if r.Valid() then exists found: nat :: Gathers(data, data', found, r, max) else data' == data
  }

  lemma FoundGathers(data: seq<Range>, data': seq<Range>, found: nat, r: Range, max: nat)
    requires r.Valid() && MergedAt(data, data', |data|, found, r, max) && max > 0
    ensures MergedRanges(data, data', r, max)
  {
    assert MergedSlot(data, data', found, |data|, found, r, max);
    forall k: nat | k < |data'| && k != found && data'[k].Valid()
      ensures data'[k] in data && !data'[k].Touches(r, max)
    {
      assert MergedSlot(data, data', k, |data|, found, r, max);
    }
    forall d | d in data && d.Valid()
      ensures if d.Touches(r, max) then data'[found].start <= d.start && d.end <= data'[found].end else d in data'
    {
      var i: nat :| i < |data| && data[i] == d;
      assert MergedSlot(data, data', i, |data|, found, r, max);
      assert Touched(data, i, r, max) <==> d.Touches(r, max);
    }
    assert Gathers(data, data', found, r, max);
  }

  lemma AddedGathers(data: seq<Range>, data': seq<Range>, slot: nat, r: Range, max: nat)
    requires r.Valid() && (forall i: nat :: i < |data| ==> !Touched(data, i, r, max))
    requires if slot < |data| then !data[slot].Valid() && data' == data[slot := r] else data' == data + [r]
    ensures MergedRanges(data, data', r, max)
  {
    var found := Min(slot, |data|);
    forall d | d in data && d.Valid()
      ensures !d.Touches(r, max) && d in data'
    {
      var i: nat :| i < |data| && data[i] == d;
      assert !Touched(data, i, r, max) && data'[i] == d;
    }
    forall k: nat | k < |data'| && k != found && data'[k].Valid()
      ensures data'[k] in data && !data'[k].Touches(r, max)
    {
      assert data'[k] == data[k] && !Touched(data, k, r, max);
    }
    assert Gathers(data, data', found, r, max);
  }

  lemma FoundOutcome(data: seq<Range>, data': seq<Range>, found: nat, r: Range, max: nat)
    requires AllWithin(data, max) && r.Within(max) && r.Valid() && max > 0
    requires MergedAt(data, data', |data|, found, r, max)
    ensures AllWithin(data', max) && MergedSet(data, data', r, max) && MergedApart(data, data', r, max)
    ensures MergedRanges(data, data', r, max)
  {
    FoundGathers(data, data', found, r, max);
    assert MergedSlot(data, data', found, |data|, found, r, max);
    HullWithin(data'[found], data, |data|, r, max);
    forall i | 0 <= i < |data'|
      ensures data'[i].Within(max)
    {
      assert MergedSlot(data, data', i, |data|, found, r, max);
    }
    if HasWrapPair(data, r, max) {
      WrapCoversAll(data, data', found, r, max);
      forall a | 0 <= a <= max
        ensures Covers(data', a)
      {
        assert data'[found].Has(a);
      }
      WrapConsistent(data, data', found, r, max);
    } else {
      forall a
        ensures Covers(data', a) <==> Covers(data, a) || r.Has(a)
      {
        MergedCoversOne(data, data', found, r, max, a);
      }
      if Consistent(data, max) {
        MergedConsistent(data, data', found, r, max);
      }
    }
  }

  lemma AddedOutcome(data: seq<Range>, data': seq<Range>, slot: nat, r: Range, max: nat)
    requires AllWithin(data, max) && r.Within(max) && r.Valid() && max > 0
    requires forall i: nat :: i < |data| ==> !Touched(data, i, r, max)
    requires if slot < |data| then !data[slot].Valid() && data' == data[slot := r] else data' == data + [r]
    ensures AllWithin(data', max) && MergedSet(data, data', r, max) && MergedApart(data, data', r, max)
    ensures MergedRanges(data, data', r, max)
  {
    AddedGathers(data, data', slot, r, max);
    NoneTouched(data, r, max);
    forall a
      ensures Covers(data', a) <==> Covers(data, a) || r.Has(a)
    {
      if slot < |data| {
        AddedCovers(data, slot, r, a);
      } else {
        AppendedCovers(data, r, a);
      }
    }
  }

  /** Merging denotes set union if and only if no wrap-around neighbour is there, or the union is everything anyway. */
  lemma UnionExactly(data: seq<Range>, data': seq<Range>, r: Range, max: nat)
    requires AllWithin(data, max) && AllWithin(data', max) && r.Within(max) && MergedSet(data, data', r, max)
    ensures (forall a {:trigger Covers(data', a)} :: Covers(data', a) <==> Covers(data, a) || r.Has(a))
       <==> (|| !(r.Valid() && HasWrapPair(data, r, max))
             || forall a :: 0 <= a <= max ==> Covers(data, a) || r.Has(a))
  {
    forall a
      ensures Covers(data', a) ==> 0 <= a <= max
      ensures Covers(data, a) ==> 0 <= a <= max
    {
    }
    if r.Valid() && HasWrapPair(data, r, max) &&
       forall a {:trigger Covers(data', a)} :: Covers(data', a) <==> Covers(data, a) || r.Has(a) {
      forall a | 0 <= a <= max
        ensures Covers(data, a) || r.Has(a)
      {
        assert Covers(data', a);
      }
    }
  }

  /** The lowest and the highest address, merged, take in the address between them. */
  lemma WrapFillsGap(data': seq<Range>)
    requires MergedSet([Range(2, 2)], data', Range(0, 0), 2)
    ensures Covers(data', 1) && !Covers([Range(2, 2)], 1) && !Range(0, 0).Has(1)
  {
    var data := [Range(2, 2)];
    assert data[0].Valid() && WrapAround(data[0], Range(0, 0), 2);
  }

  // ---------------------------------------------------------------- excluding

  /** Range k has been dealt with when the loop stands at n; the ones past `size` were appended by it. */
  predicate Dealt(k: nat, n: nat, size: nat) {
    k < n || size <= k
  }

  /** A piece left over from range o: inside it and clear of the exclusion. */
  predicate PieceOf(p: Range, data: seq<Range>, o: nat, n: nat, e: Range) {
    p.Valid() ==>
      && o < n <= |data| && data[o].start <= p.start && p.end <= data[o].end
      && (p.end < e.start || e.end < p.start)
  }

  /** Two pieces of one range lie on different sides of the exclusion. */
  predicate Split(p: Range, q: Range, e: Range) {
    p.Valid() && q.Valid() ==> (p.end < e.start && e.end < q.start) || (q.end < e.start && e.end < p.start)
  }

  ghost predicate Kept(data': seq<Range>, n: nat, size: nat, a: int) {
    exists k: nat :: k < |data'| && Dealt(k, n, size) && data'[k].Has(a)
  }

  /** The state of the loop: what is left of the first n ranges, and where each piece comes from. */
  ghost predicate Excluding(data: seq<Range>, data': seq<Range>, origin: seq<nat>, n: nat, e: Range, max: nat) {
    && n <= |data| <= |data'| == |origin| && AllWithin(data', max)
    && (forall k :: n <= k < |data| ==> data'[k] == data[k])
    && (forall k: nat :: k < |data'| && Dealt(k, n, |data|) ==> PieceOf(data'[k], data, origin[k], n, e))
    && (forall k: nat, l: nat ::
          k < l < |data'| && Dealt(k, n, |data|) && Dealt(l, n, |data|) && origin[k] == origin[l] ==>
            Split(data'[k], data'[l], e))
    && (forall i: nat, a: int :: i < n && data[i].Has(a) && !e.Has(a) ==> Kept(data', n, |data|, a))
  }

  /** p and q are what e leaves of r. */
  ghost predicate LeftOver(r: Range, p: Range, q: Range, e: Range, max: nat) {
    && p.Within(max) && q.Within(max) && Split(p, q, e)
    && (p.Valid() ==> r.start <= p.start && p.end <= r.end && (p.end < e.start || e.end < p.start))
    && (q.Valid() ==> r.start <= q.start && q.end <= r.end && (q.end < e.start || e.end < q.start))
    && (forall a: int :: r.Has(a) && !e.Has(a) ==> p.Has(a) || q.Has(a))
  }

  lemma NothingCut(r: Range, e: Range, max: nat)
    requires r.Within(max) && max > 0 && (r.Valid() ==> !r.Overlaps(e))
    ensures LeftOver(r, r, Invalid(max), e, max)
  {
  }

  lemma AllCut(r: Range, e: Range, max: nat)
    requires max > 0 && e.Has(r.start) && e.Has(r.end)
    ensures LeftOver(r, Invalid(max), Invalid(max), e, max)
  {
  }

  lemma HeadCut(r: Range, e: Range, max: nat)
    requires max > 0 && r.Valid() && r.Within(max) && e.Within(max) && e.Has(r.start) && !e.Has(r.end)
    ensures LeftOver(r, r.(start := e.NextAddress(max)), Invalid(max), e, max)
  {
    NextMeaning(e.end, max);
  }

  lemma TailCut(r: Range, e: Range, max: nat)
    requires max > 0 && r.Valid() && r.Within(max) && e.Within(max) && !e.Has(r.start) && e.Has(r.end)
    ensures LeftOver(r, r.(end := e.PrevAddress(max)), Invalid(max), e, max)
  {
    PrevMeaning(e.start, max);
  }

  lemma MiddleCut(r: Range, e: Range, max: nat)
    requires max > 0 && r.Valid() && e.Valid() && r.Within(max) && e.Within(max)
    requires r.Overlaps(e) && !e.Has(r.start) && !e.Has(r.end)
    ensures LeftOver(r, r.(end := e.PrevAddress(max)), Range(e.NextAddress(max), r.end), e, max)
  {
    PrevMeaning(e.start, max);
    NextMeaning(e.end, max);
  }

  /** Replacing range n by the one piece left of it. */
  lemma ExcludeOne(data: seq<Range>, data': seq<Range>, origin: seq<nat>, n: nat, e: Range, max: nat, p: Range)
    requires Excluding(data, data', origin, n, e, max) && n < |data| && max > 0
    requires LeftOver(data[n], p, Invalid(max), e, max)
    ensures Excluding(data, data'[n := p], origin[n := n], n + 1, e, max)
  {
    var new', from' := data'[n := p], origin[n := n];
    forall i: nat, a: int | i < n + 1 && data[i].Has(a) && !e.Has(a)
      ensures Kept(new', n + 1, |data|, a)
    {
      if i < n {
        assert Kept(data', n, |data|, a);
        var k: nat :| k < |data'| && Dealt(k, n, |data|) && data'[k].Has(a);
        assert new'[k].Has(a) && Dealt(k, n + 1, |data|);
      } else {
        assert new'[n].Has(a) && Dealt(n, n + 1, |data|);
      }
    }
  }

  /** Replacing range n by a head, with the tail in a free slot that was dealt with before. */
  /** A range the exclusion does not overlap is left as it is. */
  lemma ExcludeNone(data: seq<Range>, data': seq<Range>, origin: seq<nat>, n: nat, e: Range, max: nat)
    requires Excluding(data, data', origin, n, e, max) && n < |data| && AllWithin(data, max)
    requires e.Valid() && e.Within(max) && !(data'[n].Valid() && data'[n].Overlaps(e))
    ensures Excluding(data, data', origin[n := n], n + 1, e, max)
  {
    NothingCut(data'[n], e, max);
    ExcludeOne(data, data', origin, n, e, max, data'[n]);
    assert data'[n := data'[n]] == data';
  }

  lemma ExcludeTwo(data: seq<Range>, data': seq<Range>, origin: seq<nat>, n: nat, e: Range, max: nat,
                   m: nat, p: Range, q: Range)
    requires Excluding(data, data', origin, n, e, max) && n < |data| && m < n && !data'[m].Valid()
    requires LeftOver(data[n], p, q, e, max)
    ensures Excluding(data, data'[n := p][m := q], origin[n := n][m := n], n + 1, e, max)
  {
    var new', from' := data'[n := p][m := q], origin[n := n][m := n];
    forall i: nat, a: int | i < n + 1 && data[i].Has(a) && !e.Has(a)
      ensures Kept(new', n + 1, |data|, a)
    {
      if i < n {
        assert Kept(data', n, |data|, a);
        var k: nat :| k < |data'| && Dealt(k, n, |data|) && data'[k].Has(a);
        assert new'[k].Has(a) && Dealt(k, n + 1, |data|);
      } else if p.Has(a) {
        assert new'[n].Has(a) && Dealt(n, n + 1, |data|);
      } else {
        assert new'[m].Has(a) && Dealt(m, n + 1, |data|);
      }
    }
  }

  /** Replacing range n by a head and appending the tail. */
  lemma ExcludeAppend(data: seq<Range>, data': seq<Range>, origin: seq<nat>, n: nat, e: Range, max: nat,
                      p: Range, q: Range)
    requires Excluding(data, data', origin, n, e, max) && n < |data|
    requires LeftOver(data[n], p, q, e, max)
    ensures Excluding(data, data'[n := p] + [q], origin[n := n] + [n], n + 1, e, max)
  {
    var new', from' := data'[n := p] + [q], origin[n := n] + [n];
    forall i: nat, a: int | i < n + 1 && data[i].Has(a) && !e.Has(a)
      ensures Kept(new', n + 1, |data|, a)
    {
      if i < n {
        assert Kept(data', n, |data|, a);
        var k: nat :| k < |data'| && Dealt(k, n, |data|) && data'[k].Has(a);
        assert new'[k].Has(a) && Dealt(k, n + 1, |data|);
      } else if p.Has(a) {
        assert new'[n].Has(a) && Dealt(n, n + 1, |data|);
      } else {
        assert new'[|data'|].Has(a) && Dealt(|data'|, n + 1, |data|);
      }
    }
  }

  // ---------------------------------------------------------------- ranges that leave addresses out between them

  ghost predicate All(data: seq<Range>, max: nat) {
    forall a :: 0 <= a <= max ==> Covers(data, a)
  }

  /** An address is left out between any two ranges. */
  predicate Separate(data: seq<Range>) {
    forall i, j :: 0 <= i < j < |data| && data[i].Valid() && data[j].Valid() ==>
      data[i].end + 1 < data[j].start || data[j].end + 1 < data[i].start
  }

  lemma SeparatePair(data: seq<Range>, i: nat, j: nat)
    requires Separate(data) && i < |data| && j < |data| && i != j && data[i].Valid() && data[j].Valid()
    ensures data[i].end + 1 < data[j].start || data[j].end + 1 < data[i].start
  {
  }

  ghost predicate DifferenceOf(data: seq<Range>, other: seq<Range>, data': seq<Range>) {
    forall a {:trigger Covers(data', a)} :: Covers(data', a) <==> Covers(data, a) && !Covers(other, a)
  }

  /** Ranges are apart when they are separate and no two of them hold the two ends. */
  lemma ApartFromEnds(data: seq<Range>, max: nat)
    requires AllWithin(data, max) && max > 0 && Separate(data)
    requires !Covers(data, 0) || !Covers(data, max) || Range(0, max) in data
    ensures Consistent(data, max)
  {
    forall i, j | 0 <= i < j < |data| && data[i].Valid() && data[j].Valid()
      ensures !data[i].Touches(data[j], max)
    {
      TouchesMeaning(data[i], data[j], max);
      assert WrapAround(data[i], data[j], max) ==> Covers(data, 0) && Covers(data, max);
    }
  }

  lemma ConsistentSeparate(data: seq<Range>, max: nat)
    requires AllWithin(data, max) && max > 0 && Consistent(data, max)
    ensures Separate(data)
  {
    forall i, j | 0 <= i < j < |data| && data[i].Valid() && data[j].Valid()
      ensures data[i].end + 1 < data[j].start || data[j].end + 1 < data[i].start
    {
      TouchesMeaning(data[i], data[j], max);
    }
  }

  /** Ranges that are apart hold both ends only as one range. */
  lemma EndsAreOne(data: seq<Range>, max: nat)
    requires AllWithin(data, max) && max > 0 && Consistent(data, max) && Covers(data, 0) && Covers(data, max)
    ensures Range(0, max) in data
  {
    var i: nat :| i < |data| && data[i].Has(0);
    var j: nat :| j < |data| && data[j].Has(max);
    if i != j {
      ConsistentPair(data, max, i, j);
      TouchesMeaning(data[i], data[j], max);
    }
  }

  /** The exclusions leave both ends of the range of all addresses and cut something out between them. */
  ghost predicate CutsAll(data: seq<Range>, other: seq<Range>, max: nat) {
    Range(0, max) in data && !Covers(other, 0) && !Covers(other, max) && exists a :: 0 <= a <= max && Covers(other, a)
  }

  lemma FullCovers(data: seq<Range>, max: nat, a: int)
    requires Range(0, max) in data && 0 <= a <= max
    ensures Covers(data, a)
  {
    var i :| 0 <= i < |data| && data[i] == Range(0, max);
    assert data[i].Has(a);
  }

  lemma NeighboursFree(data: seq<Range>, i: nat)
    requires Separate(data) && i < |data| && data[i].Valid()
    ensures !Covers(data, data[i].start - 1) && !Covers(data, data[i].end + 1)
  {
    forall j: nat | j < |data|
      ensures !data[j].Has(data[i].start - 1) && !data[j].Has(data[i].end + 1)
    {
      if i != j && data[j].Valid() { SeparatePair(data, i, j); }
    }
  }

  lemma SeparateFull(data: seq<Range>, max: nat)
    requires AllWithin(data, max) && Separate(data) && All(data, max)
    ensures Range(0, max) in data
  {
    assert Covers(data, 0);
    var i: nat :| i < |data| && data[i].Has(0);
    NeighboursFree(data, i);
  }

  /** Ranges that are apart cover every address only as one range. */
  lemma FullIsOne(data: seq<Range>, max: nat)
    requires AllWithin(data, max) && max > 0 && Consistent(data, max) && All(data, max)
    ensures Range(0, max) in data
  {
    ConsistentSeparate(data, max);
    SeparateFull(data, max);
  }

  /** Ranges that were apart are apart after the exclusions if and only if those do not cut all addresses in two. */
  lemma DifferenceApart(before: seq<Range>, other: seq<Range>, data: seq<Range>, max: nat)
    requires AllWithin(before, max) && AllWithin(data, max) && max > 0
    requires Consistent(before, max) && Separate(data) && DifferenceOf(before, other, data)
    ensures Consistent(data, max) <==> !CutsAll(before, other, max)
  {
    if CutsAll(before, other, max) {
      var a :| 0 <= a <= max && Covers(other, a);
      FullCovers(before, max, 0);
      FullCovers(before, max, max);
      assert Covers(data, 0) && Covers(data, max) && !Covers(data, a);
      if Consistent(data, max) {
        EndsAreOne(data, max);
        FullCovers(data, max, a);
      }
    } else {
      if Covers(data, 0) && Covers(data, max) {
        EndsAreOne(before, max);
        forall a | 0 <= a <= max
          ensures Covers(data, a)
        {
          FullCovers(before, max, a);
          assert !Covers(other, a);
        }
        SeparateFull(data, max);
      }
      ApartFromEnds(data, max);
    }
  }

  // ---------------------------------------------------------------- what exclude promises

  ghost predicate ExcludedSet(data: seq<Range>, data': seq<Range>, e: Range) {
    forall a {:trigger Covers(data', a)} :: Covers(data', a) <==> Covers(data, a) && !e.Has(a)
  }

  /** The exclusion cuts the range of all addresses in two. */
  predicate SplitsAll(data: seq<Range>, e: Range, max: nat) {
    e.Valid() && 0 < e.start && e.end < max && Range(0, max) in data
  }

  ghost predicate ExcludedApart(data: seq<Range>, data': seq<Range>, e: Range, max: nat) {
    Consistent(data, max) ==> (Consistent(data', max) <==> !SplitsAll(data, e, max))
  }

  lemma ExcludedCovers(data: seq<Range>, data': seq<Range>, origin: seq<nat>, e: Range, max: nat)
    requires Excluding(data, data', origin, |data|, e, max)
    ensures ExcludedSet(data, data', e)
  {
  }

  lemma PiecesSeparate(data: seq<Range>, data': seq<Range>, origin: seq<nat>, e: Range, max: nat)
    requires Excluding(data, data', origin, |data|, e, max) && e.Valid() && Separate(data)
    ensures Separate(data')
  {
    forall k, l | 0 <= k < l < |data'| && data'[k].Valid() && data'[l].Valid()
      ensures data'[k].end + 1 < data'[l].start || data'[l].end + 1 < data'[k].start
    {
      assert Dealt(k, |data|, |data|) && Dealt(l, |data|, |data|);
      if origin[k] == origin[l] {
        assert Split(data'[k], data'[l], e);
      } else {
        SeparatePair(data, origin[k], origin[l]);
      }
    }
  }

  lemma ExcludedOutcome(data: seq<Range>, data': seq<Range>, origin: seq<nat>, e: Range, max: nat)
    requires Excluding(data, data', origin, |data|, e, max) && AllWithin(data, max) && max > 0
    requires e.Valid() && e.Within(max)
    ensures ExcludedSet(data, data', e) && ExcludedApart(data, data', e, max)
    ensures Separate(data) ==> Separate(data')
  {
    ExcludedCovers(data, data', origin, e, max);
    if Separate(data) { PiecesSeparate(data, data', origin, e, max); }
    if Consistent(data, max) {
      ConsistentSeparate(data, max);
      forall a
        ensures Covers([e], a) <==> e.Has(a)
      {
        assert [e][0].Has(a) <==> e.Has(a);
      }
      DifferenceApart(data, [e], data', max);
      assert Covers([e], e.start);
    }
  }

  // ---------------------------------------------------------------- the vector

  lemma HullGrows(h: Range, data: seq<Range>, n: nat, r: Range, max: nat)
    requires n < |data| && r.Valid() && IsHull(h, data, n, r, max) && Touched(data, n, r, max)
    ensures IsHull(MinMax(h, data[n], max), data, n + 1, r, max)
  {
  }

  lemma HullSkips(h: Range, data: seq<Range>, n: nat, r: Range, max: nat)
    requires n < |data| && IsHull(h, data, n, r, max) && !Touched(data, n, r, max)
    ensures IsHull(h, data, n + 1, r, max)
  {
  }

  lemma MergeFirst(data: seq<Range>, n: nat, r: Range, max: nat)
    requires n < |data| && r.Valid() && Touched(data, n, r, max)
    requires forall i: nat :: i < n ==> !Touched(data, i, r, max)
    ensures MergedAt(data, data[n := MinMax(data[n], r, max)], n + 1, n, r, max)
  {
  }

  lemma MergeMore(data: seq<Range>, data': seq<Range>, n: nat, found: nat, r: Range, max: nat)
    requires n < |data| && r.Valid() && MergedAt(data, data', n, found, r, max) && Touched(data, n, r, max)
    ensures MergedAt(data, data'[found := MinMax(data'[found], data[n], max)][n := Invalid(max)], n + 1, found, r, max)
  {
    assert MergedSlot(data, data', found, n, found, r, max);
    HullGrows(data'[found], data, n, r, max);
    var new', m := data'[found := MinMax(data'[found], data[n], max)][n := Invalid(max)], n + 1;
    forall i: nat | i < |data|
      ensures MergedSlot(data, new', i, m, found, r, max)
    {
      assert MergedSlot(data, data', i, n, found, r, max);
    }
  }

  lemma MergeSkip(data: seq<Range>, data': seq<Range>, n: nat, found: nat, r: Range, max: nat)
    requires n < |data| && MergedAt(data, data', n, found, r, max) && !Touched(data, n, r, max)
    ensures MergedAt(data, data', n + 1, found, r, max)
  {
    assert MergedSlot(data, data', found, n, found, r, max);
    HullSkips(data'[found], data, n, r, max);
    var m := n + 1;
    forall i: nat | i < |data|
      ensures MergedSlot(data, data', i, m, found, r, max)
    {
      assert MergedSlot(data, data', i, n, found, r, max);
    }
  }

  /** An end of the address space in the second set meets the other end in either set. */
  ghost predicate EndsMeet(data: seq<Range>, other: seq<Range>, max: nat) {
    || (Covers(other, 0) && (Covers(data, max) || Covers(other, max)))
    || (Covers(other, max) && (Covers(data, 0) || Covers(other, 0)))
  }

  ghost predicate UnionOf(data: seq<Range>, other: seq<Range>, data': seq<Range>) {
    forall a {:trigger Covers(data', a)} :: Covers(data', a) <==> Covers(data, a) || Covers(other, a)
  }

  /** What merging the first i ranges of `other` has made of the ranges. */
  ghost predicate MergedSoFar(before: seq<Range>, other: seq<Range>, data: seq<Range>, max: nat) {
    if EndsMeet(before, other, max) then All(data, max) else UnionOf(before, other, data)
  }

  lemma PrefixCovers(other: seq<Range>, i: nat, a: int)
    requires i < |other|
    ensures Covers(other[..i + 1], a) <==> Covers(other[..i], a) || other[i].Has(a)
  {
    assert other[..i + 1] == other[..i] + [other[i]];
    AppendedCovers(other[..i], other[i], a);
  }

  /** A wrap-around neighbour is there exactly when one end is in the range and the other end in the vector. */
  lemma WrapPairMeaning(data: seq<Range>, r: Range, max: nat)
    requires AllWithin(data, max) && r.Within(max) && r.Valid()
    ensures HasWrapPair(data, r, max) <==> (Covers(data, max) && r.Has(0)) || (Covers(data, 0) && r.Has(max))
  {
    if HasWrapPair(data, r, max) {
      var k :| 0 <= k < |data| && data[k].Valid() && WrapAround(data[k], r, max);
      assert data[k].Has(if data[k].end == max && r.start == 0 then max else 0);
    }
    forall k | 0 <= k < |data| && ((data[k].Has(max) && r.Has(0)) || (data[k].Has(0) && r.Has(max)))
      ensures HasWrapPair(data, r, max)
    {
      assert data[k].Valid() && WrapAround(data[k], r, max);
    }
  }

  /** Merging the next range: the ends meet from then on, or have met, exactly when everything is taken in. */
  lemma MergeNext(before: seq<Range>, other: seq<Range>, i: nat, data: seq<Range>, data': seq<Range>, max: nat)
    requires i < |other| && AllWithin(data, max) && other[i].Within(max)
    requires MergedSoFar(before, other[..i], data, max) && MergedSet(data, data', other[i], max)
    ensures MergedSoFar(before, other[..i + 1], data', max)
  {
    var r := other[i];
    forall a { PrefixCovers(other, i, a); }
    if r.Valid() { WrapPairMeaning(data, r, max); }
  }

  /** The result is the union if and only if no two ends meet, or the union is everything. */
  lemma UnionOfExactly(before: seq<Range>, other: seq<Range>, data: seq<Range>, max: nat)
    requires AllWithin(before, max) && AllWithin(other, max) && AllWithin(data, max)
    requires MergedSoFar(before, other, data, max)
    ensures UnionOf(before, other, data) <==>
              !EndsMeet(before, other, max) || forall a :: 0 <= a <= max ==> Covers(before, a) || Covers(other, a)
  {
    if EndsMeet(before, other, max) && UnionOf(before, other, data) {
      forall a | 0 <= a <= max
        ensures Covers(before, a) || Covers(other, a)
      {
        assert Covers(data, a);
      }
    }
  }

  /** Without a meeting of the ends no range wraps, so ranges stay apart. */
  lemma KeptApart(before: seq<Range>, other: seq<Range>, i: nat, data: seq<Range>, data': seq<Range>, max: nat)
    requires i < |other| && AllWithin(data, max) && other[i].Within(max)
    requires MergedSoFar(before, other[..i], data, max) && MergedApart(data, data', other[i], max)
    requires !EndsMeet(before, other[..i], max) && Consistent(before, max) ==> Consistent(data, max)
    ensures !EndsMeet(before, other[..i + 1], max) && Consistent(before, max) ==> Consistent(data', max)
  {
    PrefixCovers(other, i, 0);
    PrefixCovers(other, i, max);
    if other[i].Valid() { WrapPairMeaning(data, other[i], max); }
  }

  // ---------------------------------------------------------------- ranges left behind when the ends meet

  /** The ends meet with range m of `other`, and not before. */
  ghost predicate MeetAt(before: seq<Range>, other: seq<Range>, m: nat, max: nat) {
    m < |other| && !EndsMeet(before, other[..m], max) && EndsMeet(before, other[..m + 1], max)
  }

  lemma {:induction false} MeetingLasts(before: seq<Range>, other: seq<Range>, i: nat, j: nat, max: nat)
    requires i <= j <= |other| && EndsMeet(before, other[..i], max)
    ensures EndsMeet(before, other[..j], max)
    decreases j
  {
    if i < j {
      MeetingLasts(before, other, i, j - 1, max);
      PrefixCovers(other, j - 1, 0);
      PrefixCovers(other, j - 1, max);
    }
  }

  lemma MeetOnce(before: seq<Range>, other: seq<Range>, m: nat, n: nat, max: nat)
    requires MeetAt(before, other, m, max) && MeetAt(before, other, n, max)
    ensures m == n
  {
    if m < n { MeetingLasts(before, other, m + 1, n, max); }
    if n < m { MeetingLasts(before, other, n + 1, m, max); }
  }

  /** The range is not touched by the ranges of `other` from m on. */
  predicate Missed(d: Range, other: seq<Range>, m: nat, k: nat, max: nat)
    requires k <= |other|
  {
    d.Valid() && forall j: nat :: m <= j < k && other[j].Valid() ==> !d.Touches(other[j], max)
  }

  /** One range holds all addresses; beside it are the ranges no merge since m has touched. */
  ghost predicate Swallowed(start: seq<Range>, other: seq<Range>, m: nat, k: nat, data: seq<Range>, f: nat, max: nat)
    requires k <= |other|
  {
    && f < |data| && data[f] == Range(0, max)
    && (forall g: nat :: g < |data| && g != f && data[g].Valid() ==>
          data[g] in start && Missed(data[g], other, m, k, max))
    && (forall d :: d in start && Missed(d, other, m, k, max) ==> d in data)
  }

  lemma SwallowStart(before: seq<Range>, other: seq<Range>, m: nat, data: seq<Range>, data': seq<Range>, max: nat)
    returns (f: nat)
    requires MeetAt(before, other, m, max) && AllWithin(data, max) && AllWithin(data', max) && AllWithin(other, max)
    requires max > 0 && UnionOf(before, other[..m], data) && MergedRanges(data, data', other[m], max)
    ensures Swallowed(data, other, m, m + 1, data', f, max)
  {
    var r := other[m];
    PrefixCovers(other, m, 0);
    PrefixCovers(other, m, max);
    f :| Gathers(data, data', f, r, max);
    WrapPairMeaning(data, r, max);
    if HasWrapPair(data, r, max) {
      var i :| 0 <= i < |data| && data[i].Valid() && WrapAround(data[i], r, max);
      TouchesMeaning(data[i], r, max);
      assert data[i] in data;
    }
    assert data'[f] == Range(0, max);
  }

  lemma SwallowStep(start: seq<Range>, other: seq<Range>, m: nat, k: nat, data: seq<Range>, f: nat,
                    data': seq<Range>, max: nat) returns (f': nat)
    requires m < k < |other| && AllWithin(data, max) && AllWithin(data', max) && AllWithin(other, max) && max > 0
    requires Swallowed(start, other, m, k, data, f, max) && MergedRanges(data, data', other[k], max)
    ensures Swallowed(start, other, m, k + 1, data', f', max)
  {
    var r := other[k];
    f' := f;
    if r.Valid() {
      f' :| Gathers(data, data', f', r, max);
      TouchesMeaning(data[f], r, max);
      assert data[f] in data;
      assert data'[f'] == Range(0, max);
      forall g: nat | g < |data'| && g != f' && data'[g].Valid()
        ensures data'[g] in start && Missed(data'[g], other, m, k + 1, max)
      {
        var i: nat :| i < |data| && data[i] == data'[g];
      }
    }
  }

  /** With the ends met, ranges are apart exactly when none was left behind. */
  lemma SwallowedApart(start: seq<Range>, other: seq<Range>, m: nat, data: seq<Range>, f: nat, max: nat)
    requires m < |other| && other[m].Valid() && AllWithin(data, max) && AllWithin(other, max) && max > 0
    requires Swallowed(start, other, m, |other|, data, f, max)
    ensures Consistent(data, max) <==> forall d :: d in start ==> !Missed(d, other, m, |other|, max)
  {
    if d: Range :| d in start && Missed(d, other, m, |other|, max) {
      var i: nat :| i < |data| && data[i] == d;
      TouchesMeaning(Range(0, max), other[m], max);
      assert i != f && data[i].Overlaps(data[f]) && data[f].Overlaps(data[i]);
    }
  }

  /** The addresses of d are in one of the sets, and its two neighbours in neither. */
  ghost predicate IsRun(before: seq<Range>, other: seq<Range>, d: Range) {
    && d.Valid() && (forall a :: d.Has(a) ==> Covers(before, a) || Covers(other, a))
    && !Covers(before, d.start - 1) && !Covers(other, d.start - 1)
    && !Covers(before, d.end + 1) && !Covers(other, d.end + 1)
  }

  /** Separate ranges are the runs of the set they stand for. */
  lemma RangesAreRuns(before: seq<Range>, other: seq<Range>, data: seq<Range>, d: Range)
    requires Separate(data) && UnionOf(before, other, data)
    ensures d in data && d.Valid() <==> IsRun(before, other, d)
  {
    if d in data && d.Valid() {
      var i: nat :| i < |data| && data[i] == d;
      forall a | d.Has(a)
        ensures Covers(before, a) || Covers(other, a)
      {
        assert data[i].Has(a) && Covers(data, a);
      }
      NeighboursFree(data, i);
      assert !Covers(data, d.start - 1) && !Covers(data, d.end + 1);
    }
    if IsRun(before, other, d) {
      assert d.Has(d.start) && Covers(data, d.start);
      var i: nat :| i < |data| && data[i].Has(d.start);
      NeighboursFree(data, i);
      RunIsWhole(data, i, d);
    }
  }

  lemma RunIsWhole(data: seq<Range>, i: nat, d: Range)
    requires i < |data| && data[i].Has(d.start) && d.Valid()
    requires !Covers(data, data[i].start - 1) && !Covers(data, data[i].end + 1)
    requires forall a :: d.Has(a) ==> Covers(data, a)
    requires !Covers(data, d.start - 1) && !Covers(data, d.end + 1)
    ensures data[i] == d
  {
    if data[i].start < d.start { assert data[i].Has(d.start - 1); }
    if data[i].end < d.end { assert d.Has(data[i].end + 1); }
    if d.end < data[i].end { assert data[i].Has(d.end + 1); }
  }

  /** A run of what was merged before the ends met is touched by no range merged from then on. */
  ghost predicate LeftBehind(before: seq<Range>, other: seq<Range>, max: nat) {
    exists m: nat, d: Range ::
      MeetAt(before, other, m, max) && IsRun(before, other[..m], d) && Missed(d, other, m, |other|, max)
  }

  /** The ranges after i merges; once the ends have met, `start` are those just before and m is when. */
  ghost predicate MergedTo(before: seq<Range>, other: seq<Range>, i: nat, data: seq<Range>,
                           start: seq<Range>, m: nat, f: nat, max: nat)
    requires i <= |other|
  {
    if EndsMeet(before, other[..i], max)
    then && m < i && MeetAt(before, other, m, max) && AllWithin(start, max) && UnionOf(before, other[..m], start)
         && (Consistent(before, max) ==> Consistent(start, max)) && Swallowed(start, other, m, i, data, f, max)
    else Consistent(before, max) ==> Consistent(data, max)
  }

  lemma MergedToNext(before: seq<Range>, other: seq<Range>, i: nat, data: seq<Range>, data': seq<Range>,
                     start: seq<Range>, m: nat, f: nat, max: nat) returns (start': seq<Range>, m': nat, f': nat)
    requires i < |other| && AllWithin(data, max) && AllWithin(data', max) && AllWithin(other, max) && max > 0
    requires MergedSoFar(before, other[..i], data, max) && MergedTo(before, other, i, data, start, m, f, max)
    requires MergedApart(data, data', other[i], max) && MergedRanges(data, data', other[i], max)
    ensures MergedTo(before, other, i + 1, data', start', m', f', max)
  {
    start', m', f' := start, m, f;
    if EndsMeet(before, other[..i], max) {
      MeetingLasts(before, other, i, i + 1, max);
      f' := SwallowStep(start, other, m, i, data, f, data', max);
    } else if EndsMeet(before, other[..i + 1], max) {
      start', m' := data, i;
      f' := SwallowStart(before, other, i, data, data', max);
    } else {
      KeptApart(before, other, i, data, data', max);
    }
  }

  /** Ranges that were apart stay apart if and only if no run is left behind when the ends meet. */
  lemma MergedApartExactly(before: seq<Range>, other: seq<Range>, data: seq<Range>,
                           start: seq<Range>, m: nat, f: nat, max: nat)
    requires AllWithin(before, max) && AllWithin(other, max) && AllWithin(data, max) && max > 0
    requires Consistent(before, max) && MergedTo(before, other, |other|, data, start, m, f, max)
    ensures Consistent(data, max) <==> !LeftBehind(before, other, max)
  {
    assert other[..|other|] == other;
    if EndsMeet(before, other, max) {
      PrefixCovers(other, m, 0);
      PrefixCovers(other, m, max);
      SwallowedApart(start, other, m, data, f, max);
      ConsistentSeparate(start, max);
      forall d { RangesAreRuns(before, other[..m], start, d); }
      if LeftBehind(before, other, max) {
        var n: nat, d: Range :| MeetAt(before, other, n, max) && IsRun(before, other[..n], d)
                                && Missed(d, other, n, |other|, max);
        MeetOnce(before, other, m, n, max);
      }
    } else if LeftBehind(before, other, max) {
      var n: nat, d: Range :| MeetAt(before, other, n, max) && IsRun(before, other[..n], d)
                              && Missed(d, other, n, |other|, max);
      MeetingLasts(before, other, n + 1, |other|, max);
    }
  }

  lemma DifferenceStep(before: seq<Range>, other: seq<Range>, i: nat, data: seq<Range>, data': seq<Range>)
    requires i < |other| && DifferenceOf(before, other[..i], data) && ExcludedSet(data, data', other[i])
    ensures DifferenceOf(before, other[..i + 1], data')
  {
  }

  class RangeVector {
    const max: nat
    var data: seq<Range>

    ghost predicate Valid()
      reads this
    {
      max > 0 && AllWithin(data, max)
    }

    constructor (max: nat)
      requires max > 0
      ensures Valid() && this.max == max && data == []
    {
      this.max := max;
      data := [];
    }

    method Merge(r: Range)
      requires Valid() && r.Within(max)
      modifies this
      ensures Valid()
      ensures MergedSet(old(data), data, r, max)
      ensures MergedApart(old(data), data, r, max)
      ensures MergedRanges(old(data), data, r, max)
    {
      if !r.Valid() {
        return;
      }
      ghost var before := data;
      var found, invalid := -1, -1;
      var n := 0;
      while n < |data|
        invariant 0 <= n <= |data| == |before|
        invariant -1 <= found < n && -1 <= invalid < n
        invariant forall i :: n <= i < |data| ==> data[i] == before[i]
        invariant found == -1 ==> data == before && forall i: nat :: i < n ==> !Touched(before, i, r, max)
        invariant found >= 0 ==> MergedAt(before, data, n, found, r, max)
        invariant found == -1 && invalid >= 0 ==> !before[invalid].Valid()
      {
        var existing := data[n];
        if !existing.Valid() {
          if found >= 0 { MergeSkip(before, data, n, found, r, max); }
          invalid := n;
        } else if existing.Touches(r, max) {
          if found != -1 {
            MergeMore(before, data, n, found, r, max);
            data := data[found := MinMax(data[found], existing, max)];
            data := data[n := Invalid(max)];
          } else {
            MergeFirst(before, n, r, max);
            data := data[n := MinMax(existing, r, max)];
            found := n;
          }
        } else if found >= 0 {
          MergeSkip(before, data, n, found, r, max);
        }
        n := n + 1;
      }
      if found != -1 {
        FoundOutcome(before, data, found, r, max);
        return;
      }
      if invalid != -1 {
        AddedOutcome(before, before[invalid := r], invalid, r, max);
        data := data[invalid := r];
      } else {
        AddedOutcome(before, before + [r], |before|, r, max);
        data := data + [r];
      }
    }

    /** What a round of exclude does to a range that overlaps the exclusion; `invalid` is a free slot or -1. */
    method Cut(n: nat, e: Range, invalid: int, ghost before: seq<Range>, ghost origin: seq<nat>)
      returns (free: int, ghost from: seq<nat>)
      requires Valid() && e.Valid() && e.Within(max) && n < |before|
      requires Excluding(before, data, origin, n, e, max)
      requires -1 <= invalid < n && (invalid >= 0 ==> !data[invalid].Valid())
      requires data[n].Valid() && data[n].Overlaps(e)
      modifies this
      ensures Excluding(before, data, from, n + 1, e, max)
      ensures -1 <= free <= n && (free >= 0 ==> !data[free].Valid())
    {
      free, from := invalid, origin[n := n];
      var existing := data[n];
      var headExcluded, tailExcluded := e.Has(existing.start), e.Has(existing.end);
      if headExcluded && tailExcluded {
        AllCut(existing, e, max);
        ExcludeOne(before, data, origin, n, e, max, Invalid(max));
        data := data[n := Invalid(max)];
        free := n;
      } else if headExcluded {
        HeadCut(existing, e, max);
        ExcludeOne(before, data, origin, n, e, max, existing.(start := e.NextAddress(max)));
        data := data[n := existing.(start := e.NextAddress(max))];
      } else if tailExcluded {
        TailCut(existing, e, max);
        ExcludeOne(before, data, origin, n, e, max, existing.(end := e.PrevAddress(max)));
        data := data[n := existing.(end := e.PrevAddress(max))];
      } else {
        MiddleCut(existing, e, max);
        var head, tail := existing.(end := e.PrevAddress(max)), Range(e.NextAddress(max), existing.end);
        if invalid != -1 {
          ExcludeTwo(before, data, origin, n, e, max, invalid, head, tail);
          data, from := data[n := head][invalid := tail], from[invalid := n];
          free := -1;
        } else {
          ExcludeAppend(before, data, origin, n, e, max, head, tail);
          data, from := data[n := head] + [tail], from + [n];
        }
      }
    }

    /** One round of exclude. */
    method Round(n: nat, e: Range, invalid: int, ghost before: seq<Range>, ghost origin: seq<nat>)
      returns (free: int, ghost from: seq<nat>)
      requires Valid() && e.Valid() && e.Within(max) && n < |before| && AllWithin(before, max)
      requires Excluding(before, data, origin, n, e, max)
      requires -1 <= invalid < n && (invalid >= 0 ==> !data[invalid].Valid())
      modifies this
      ensures Excluding(before, data, from, n + 1, e, max)
      ensures -1 <= free <= n && (free >= 0 ==> !data[free].Valid())
    {
      if data[n].Valid() && data[n].Overlaps(e) {
        free, from := Cut(n, e, invalid, before, origin);
      } else {
        ExcludeNone(before, data, origin, n, e, max);
        free, from := if data[n].Valid() then invalid else n, origin[n := n];
      }
    }

    method Exclude(e: Range)
      requires Valid() && e.Within(max)
      modifies this
      ensures Valid()
      ensures ExcludedSet(old(data), data, e)
      ensures ExcludedApart(old(data), data, e, max)
      ensures Separate(old(data)) ==> Separate(data)
    {
      if !e.Valid() {
        return;
      }
      ghost var before, origin: seq<nat> := data, seq(|data|, i => 0);
      var invalid, size, n: nat := -1, |data|, 0;
      while n < size
        invariant n <= size == |before| && -1 <= invalid < n
        invariant Excluding(before, data, origin, n, e, max)
        invariant invalid >= 0 ==> !data[invalid].Valid()
      {
        invalid, origin := Round(n, e, invalid, before, origin);
        n := n + 1;
      }
      ExcludedOutcome(before, data, origin, e, max);
    }

    /**
     * merge, for a vector: set union, unless the two ends of the address space meet and an address is in neither
     * set; ranges stay apart unless a run of addresses is left behind at that meeting.
     */
    method MergeAll(other: RangeVector)
      requires Valid() && other.Valid() && other != this && other.max == max
      modifies this
      ensures Valid()
      ensures UnionOf(old(data), other.data, data) <==>
                (|| !EndsMeet(old(data), other.data, max)
                 || forall a :: 0 <= a <= max ==> Covers(old(data), a) || Covers(other.data, a))
      ensures EndsMeet(old(data), other.data, max) ==> All(data, max)
      ensures Consistent(old(data), max) ==> (Consistent(data, max) <==> !LeftBehind(old(data), other.data, max))
    {
      ghost var before := data;
      ghost var start: seq<Range>, m: nat, f: nat := [], 0, 0;
      for i := 0 to |other.data|
        invariant Valid()
        invariant MergedSoFar(before, other.data[..i], data, max)
        invariant MergedTo(before, other.data, i, data, start, m, f, max)
      {
        ghost var mid := data;
        Merge(other.data[i]);
        MergeNext(before, other.data, i, mid, data, max);
        start, m, f := MergedToNext(before, other.data, i, mid, data, start, m, f, max);
      }
      assert other.data[..|other.data|] == other.data;
      UnionOfExactly(before, other.data, data, max);
      if Consistent(before, max) { MergedApartExactly(before, other.data, data, start, m, f, max); }
    }

    /** exclude, for a vector: set difference; ranges stay apart unless all addresses are cut in two. */
    method ExcludeAll(other: RangeVector)
      requires Valid() && other.Valid() && other != this && other.max == max
      modifies this
      ensures Valid()
      ensures DifferenceOf(old(data), other.data, data)
      ensures Consistent(old(data), max) ==> (Consistent(data, max) <==> !CutsAll(old(data), other.data, max))
    {
      ghost var before := data;
      if Consistent(before, max) { ConsistentSeparate(before, max); }
      for i := 0 to |other.data|
        invariant Valid()
        invariant DifferenceOf(before, other.data[..i], data)
        invariant Separate(before) ==> Separate(data)
      {
        ghost var mid := data;
        Exclude(other.data[i]);
        DifferenceStep(before, other.data, i, mid, data);
      }
      assert other.data[..|other.data|] == other.data;
      if Consistent(before, max) { DifferenceApart(before, other.data, data, max); }
    }

    method CheckConsistency() returns (ok: bool)
      requires Valid()
      ensures ok <==> Consistent(data, max)
    {
      for i := 0 to |data|
        invariant forall k, l :: 0 <= k < i && k < l < |data| && data[k].Valid() && data[l].Valid() ==>
                    !data[k].Touches(data[l], max)
      {
        if data[i].Valid() {
          for j := i + 1 to |data|
            invariant forall l :: i < l < j && data[l].Valid() ==> !data[i].Touches(data[l], max)
          {
            if data[j].Valid() && data[i].Touches(data[j], max) {
              return false;
            }
          }
        }
      }
      return true;
    }

    /** overlaps, for a range: some address of the range is in the set. */
    method Overlaps(r: Range) returns (found: bool)
      requires Valid() && r.Valid()
      ensures found <==> exists a :: Covers(data, a) && r.Has(a)
    {
      for i := 0 to |data|
        invariant forall k :: 0 <= k < i && data[k].Valid() ==> !data[k].Overlaps(r)
      {
        if data[i].Valid() && data[i].Overlaps(r) {
          ghost var a := if r.start <= data[i].start then data[i].start else r.start;
          assert data[i].Has(a) && r.Has(a);
          assert Covers(data, a);
          return true;
        }
      }
      return false;
    }

    /** overlaps, for a vector: the two sets of addresses meet. */
    method OverlapsAny(other: RangeVector) returns (found: bool)
      requires Valid() && other.Valid()
      ensures found <==> exists a :: Covers(data, a) && Covers(other.data, a)
    {
      for i := 0 to |data|
        invariant forall k, l :: 0 <= k < i && data[k].Valid() && 0 <= l < |other.data| && other.data[l].Valid() ==>
                    !data[k].Overlaps(other.data[l])
      {
        if data[i].Valid() {
          for j := 0 to |other.data|
            invariant forall l :: 0 <= l < j && other.data[l].Valid() ==> !data[i].Overlaps(other.data[l])
          {
            var r := other.data[j];
            if r.Valid() && data[i].Overlaps(r) {
              ghost var a := if r.start <= data[i].start then data[i].start else r.start;
              assert data[i].Has(a) && r.Has(a);
              assert Covers(data, a) && Covers(other.data, a);
              return true;
            }
          }
        }
      }
      return false;
    }
  }
}
