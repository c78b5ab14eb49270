/**
 * The append-only list (lf_bunch in Utilities/lockless.h) filled by push_if: an item goes in only if a predicate
 * holds of it against every item already stored, and a retry checks only what arrived since the last attempt.
 */
module LfBunch {
  import Arith

  /** Node addresses; 0 is null. */
  type Addr = nat

  const NULL: Addr := 0

  type Item = int

  type Pred = (Item, Item) -> bool

  datatype Node = Node(link: Addr, data: Item)

  datatype Pc =
    | Idle
    | Loaded(data: Item, seen: Addr)                                          // before the node is allocated
    | Checking(item: Addr, data: Item, seen: Addr, ptr: Addr, checked: Addr)  // in the checking loop
    | Ready(item: Addr, data: Item, seen: Addr)                               // before the compare_exchange
    | Retrying(item: Addr, data: Item, seen: Addr, checked: Addr)             // before the link is written again

  datatype State = State(head: Addr, heap: map<Addr, Node>, pcs: seq<Pc>)

  datatype Event = Internal | Accepted(data: Item) | Rejected(data: Item)

  /** One step of thread t within push_if. */
  ghost predicate Step(s: State, s': State, t: nat, pred: Pred, e: Event) {
    && t < |s.pcs|
    && match s.pcs[t]
       case Idle => e == Internal && exists data: Item :: s' == s.(pcs := s.pcs[t := Loaded(data, s.head)])
       case Loaded(data, seen) =>
         && e == Internal
         && exists item: Addr :: item != NULL && item !in s.heap &&
              s' == s.(heap := s.heap[item := Node(seen, data)],
                       pcs := s.pcs[t := Checking(item, data, seen, seen, NULL)])
       case Checking(item, data, seen, ptr, checked) =>
         if ptr == checked then e == Internal && s' == s.(pcs := s.pcs[t := Ready(item, data, seen)])
         else && ptr in s.heap
              && if !pred(data, s.heap[ptr].data)
                 then e == Rejected(data) && s' == s.(heap := s.heap - {item}, pcs := s.pcs[t := Idle])
                 else && e == Internal
                      && s' == s.(pcs := s.pcs[t := Checking(item, data, seen, s.heap[ptr].link, checked)])
       case Ready(item, data, seen) =>
         if s.head == seen then e == Accepted(data) && s' == s.(head := item, pcs := s.pcs[t := Idle])
         else e == Internal && s' == s.(pcs := s.pcs[t := Retrying(item, data, s.head, seen)])
       case Retrying(item, data, seen, checked) =>
         && e == Internal && item in s.heap
         && s' == s.(heap := s.heap[item := s.heap[item].(link := seen)],
                     pcs := s.pcs[t := Checking(item, data, seen, seen, checked)])
  }

  ghost predicate Next(s: State, s': State, pred: Pred, e: Event) {
    exists t: nat :: Step(s, s', t, pred, e)
  }

  predicate Init(s: State) {
    s.head == NULL && forall t :: 0 <= t < |s.pcs| ==> s.pcs[t] == Idle
  }

  ghost predicate Run(run: seq<State>, events: seq<Event>, pred: Pred) {
    && |run| == |events| + 1 && Init(run[0])
    && forall i :: 0 <= i < |events| ==> Next(run[i], run[i + 1], pred, events[i])
  }

  // ---------------------------------------------------------------- the stored items

  /** The node at height h of a stack of nodes written oldest first; below it is null. */
  function Top(stack: seq<Addr>, h: nat): Addr
    requires h <= |stack|
  {
    if h == 0 then NULL else stack[h - 1]
  }

  /** Node i of the stack points at the node below it. */
  predicate LinkOk(heap: map<Addr, Node>, stack: seq<Addr>, i: nat) {
    i < |stack| && stack[i] in heap && heap[stack[i]].link == Top(stack, i)
  }

  /** The list at `head` runs down through exactly these nodes. */
  predicate Stored(heap: map<Addr, Node>, head: Addr, stack: seq<Addr>) {
    && head == Top(stack, |stack|)
    && (forall i :: 0 <= i < |stack| ==> stack[i] in heap && stack[i] != NULL)
    && (forall i: nat {:trigger LinkOk(heap, stack, i)} :: i < |stack| ==> LinkOk(heap, stack, i))
  }

  predicate Distinct(stack: seq<Addr>) {
    forall i, j :: 0 <= i < j < |stack| ==> stack[i] != stack[j]
  }

  function Items(heap: map<Addr, Node>, stack: seq<Addr>): (r: seq<Item>)
    requires forall x :: x in stack ==> x in heap
    ensures |r| == |stack|
  {
    seq(|stack|, i requires 0 <= i < |stack| => heap[stack[i]].data)
  }

  /** Every item satisfies the predicate against every item below it. */
  ghost predicate Compatible(items: seq<Item>, pred: Pred) {
    forall i, j :: 0 <= i < j < |items| ==> pred(items[j], items[i])
  }

  /** The list at `head` determines its nodes. */
  lemma {:induction false} StoredUnique(heap: map<Addr, Node>, head: Addr, a: seq<Addr>, b: seq<Addr>)
    requires Stored(heap, head, a) && Stored(heap, head, b)
    ensures a == b
    decreases |a|
  {
    if a != [] && b != [] {
      var a', b' := a[..|a| - 1], b[..|b| - 1];
      StoredBelow(heap, head, a);
      StoredBelow(heap, head, b);
      StoredUnique(heap, heap[head].link, a', b');
      assert a == a' + [head] && b == b' + [head];
    }
  }

  lemma StoredBelow(heap: map<Addr, Node>, head: Addr, stack: seq<Addr>)
    requires Stored(heap, head, stack) && stack != []
    ensures head in heap && Stored(heap, heap[head].link, stack[..|stack| - 1])
  {
    var n := |stack| - 1;
    assert LinkOk(heap, stack, n);
    forall i: nat | i < n
      ensures LinkOk(heap, stack[..n], i)
    {
      assert LinkOk(heap, stack, i);
    }
  }

  // ---------------------------------------------------------------- the invariant

  /** Where a thread's pointers stand, counted from the bottom of the stack. */
  datatype Heights = Heights(seen: nat, ptr: nat, checked: nat)

  predicate HasItem(pc: Pc) {
    pc.Checking? || pc.Ready? || pc.Retrying?
  }

  /** The item has passed against the stored items from height lo up to hi. */
  ghost predicate Passed(data: Item, items: seq<Item>, lo: nat, hi: nat, pred: Pred)
    requires hi <= |items|
  {
    forall i :: lo <= i < hi ==> pred(data, items[i])
  }

  ghost predicate PcOk(pc: Pc, h: Heights, stack: seq<Addr>, items: seq<Item>, pred: Pred)
    requires |stack| == |items|
  {
    match pc
    case Idle => true
    case Loaded(_, seen) => h.seen <= |stack| && seen == Top(stack, h.seen)
    case Checking(_, data, seen, ptr, checked) =>
      && h.checked <= h.ptr <= h.seen <= |stack|
      && seen == Top(stack, h.seen) && ptr == Top(stack, h.ptr) && checked == Top(stack, h.checked)
      && Passed(data, items, 0, h.checked, pred) && Passed(data, items, h.ptr, h.seen, pred)
    case Ready(_, data, seen) =>
      h.seen <= |stack| && seen == Top(stack, h.seen) && Passed(data, items, 0, h.seen, pred)
    case Retrying(_, data, seen, checked) =>
      && h.checked <= h.seen <= |stack| && seen == Top(stack, h.seen) && checked == Top(stack, h.checked)
      && Passed(data, items, 0, h.checked, pred)
  }

  /** A thread's item is a private node that holds its data and, when about to go in, points at the node seen. */
  predicate ItemOk(s: State, stack: seq<Addr>, pc: Pc) {
    HasItem(pc) ==>
      && pc.item != NULL && pc.item in s.heap && pc.item !in stack && s.heap[pc.item].data == pc.data
      && (!pc.Retrying? ==> s.heap[pc.item].link == pc.seen)
  }

  predicate ItemsApart(pcs: seq<Pc>) {
    forall t, u :: 0 <= t < u < |pcs| && HasItem(pcs[t]) && HasItem(pcs[u]) ==> pcs[t].item != pcs[u].item
  }

  datatype Aux = Aux(stack: seq<Addr>, heights: seq<Heights>)

  ghost predicate SharedOk(s: State, stack: seq<Addr>, pred: Pred) {
    Stored(s.heap, s.head, stack) && Distinct(stack) && Compatible(Items(s.heap, stack), pred)
  }

  ghost predicate ThreadsOk(s: State, x: Aux, pred: Pred)
    requires SharedOk(s, x.stack, pred)
  {
    && |x.heights| == |s.pcs|
    && forall t :: 0 <= t < |s.pcs| ==>
         && ItemOk(s, x.stack, s.pcs[t])
         && PcOk(s.pcs[t], x.heights[t], x.stack, Items(s.heap, x.stack), pred)
  }

  ghost predicate Inv(s: State, x: Aux, pred: Pred) {
    SharedOk(s, x.stack, pred) && ThreadsOk(s, x, pred) && ItemsApart(s.pcs)
  }

  // ---------------------------------------------------------------- frames

  /** Facts about the stack stay true when it grows. */
  lemma PcFrame(pc: Pc, h: Heights, stack: seq<Addr>, items: seq<Item>,
                stack': seq<Addr>, items': seq<Item>, pred: Pred)
    requires |stack| == |items| && |stack'| == |items'| && stack <= stack' && items <= items'
    requires PcOk(pc, h, stack, items, pred)
    ensures PcOk(pc, h, stack', items', pred)
  {
  }

  /** Another thread's private node is left alone. */
  predicate Respected(s: State, s': State, stack': seq<Addr>, pc: Pc) {
    HasItem(pc) && pc.item in s.heap ==>
      pc.item in s'.heap && s'.heap[pc.item] == s.heap[pc.item] && pc.item !in stack'
  }

  lemma Assemble(s: State, x: Aux, s': State, x': Aux, t: nat, pc: Pc, h: Heights, pred: Pred)
    requires Inv(s, x, pred) && t < |s.pcs| && s'.pcs == s.pcs[t := pc] && x'.heights == x.heights[t := h]
    requires SharedOk(s', x'.stack, pred) && x.stack <= x'.stack && Items(s.heap, x.stack) <= Items(s'.heap, x'.stack)
    requires forall u :: 0 <= u < |s.pcs| && u != t ==> Respected(s, s', x'.stack, s.pcs[u])
    requires ItemOk(s', x'.stack, pc) && PcOk(pc, h, x'.stack, Items(s'.heap, x'.stack), pred)
    requires HasItem(pc) ==>
               forall u :: 0 <= u < |s.pcs| && u != t && HasItem(s.pcs[u]) ==> s.pcs[u].item != pc.item
    ensures Inv(s', x', pred)
  {
    forall u | 0 <= u < |s'.pcs|
      ensures ItemOk(s', x'.stack, s'.pcs[u])
      ensures PcOk(s'.pcs[u], x'.heights[u], x'.stack, Items(s'.heap, x'.stack), pred)
    {
      if u != t {
        assert Respected(s, s', x'.stack, s.pcs[u]);
        PcFrame(s.pcs[u], x.heights[u], x.stack, Items(s.heap, x.stack), x'.stack, Items(s'.heap, x'.stack), pred);
      }
    }
  }

  lemma StoredFrame(heap: map<Addr, Node>, heap': map<Addr, Node>, head: Addr, stack: seq<Addr>)
    requires Stored(heap, head, stack)
    requires forall a :: a in stack ==> a in heap' && heap'[a] == heap[a]
    ensures Stored(heap', head, stack) && Items(heap', stack) == Items(heap, stack)
  {
    assert forall i :: 0 <= i < |stack| ==> stack[i] in stack;
    forall i: nat | i < |stack|
      ensures LinkOk(heap', stack, i)
    {
      assert LinkOk(heap, stack, i);
    }
  }

  /** Changing a node outside the stack does not change the stored items. */
  lemma StackFrame(s: State, s': State, stack: seq<Addr>, item: Addr, pred: Pred)
    requires SharedOk(s, stack, pred) && s'.head == s.head && item !in stack
    requires forall a :: a in s.heap && a != item ==> a in s'.heap && s'.heap[a] == s.heap[a]
    ensures SharedOk(s', stack, pred) && Items(s'.heap, stack) == Items(s.heap, stack)
  {
    StoredFrame(s.heap, s'.heap, s.head, stack);
  }

  // ---------------------------------------------------------------- the steps

  /** A step that only moves the thread's program counter; its item, if any, stays the same. */
  lemma QuietGood(s: State, x: Aux, t: nat, pc: Pc, h: Heights, pred: Pred)
    requires Inv(s, x, pred) && t < |s.pcs| && ItemOk(s, x.stack, pc)
    requires PcOk(pc, h, x.stack, Items(s.heap, x.stack), pred)
    requires HasItem(pc) ==> HasItem(s.pcs[t]) && pc.item == s.pcs[t].item
    ensures Inv(s.(pcs := s.pcs[t := pc]), x.(heights := x.heights[t := h]), pred)
  {
  }

  lemma AllocateGood(s: State, x: Aux, t: nat, item: Addr, pred: Pred) returns (x': Aux)
    requires Inv(s, x, pred) && t < |s.pcs| && s.pcs[t].Loaded? && item != NULL && item !in s.heap
    ensures var pc := s.pcs[t];
            Inv(s.(heap := s.heap[item := Node(pc.seen, pc.data)],
                   pcs := s.pcs[t := Checking(item, pc.data, pc.seen, pc.seen, NULL)]), x', pred)
    ensures x'.stack == x.stack
    ensures Items(s.heap[item := Node(s.pcs[t].seen, s.pcs[t].data)], x.stack) == Items(s.heap, x.stack)
  {
    var was := s.pcs[t];
    var pc := Checking(item, was.data, was.seen, was.seen, NULL);
    var h := Heights(x.heights[t].seen, x.heights[t].seen, 0);
    var s' := s.(heap := s.heap[item := Node(was.seen, was.data)], pcs := s.pcs[t := pc]);
    x' := x.(heights := x.heights[t := h]);
    StackFrame(s, s', x.stack, item, pred);
    Assemble(s, x, s', x', t, pc, h, pred);
  }

  /** An item is refused only because it conflicts with a stored one. */
  lemma RejectGood(s: State, x: Aux, t: nat, pred: Pred) returns (i: nat)
    requires Inv(s, x, pred) && t < |s.pcs| && s.pcs[t].Checking? && s.pcs[t].ptr != s.pcs[t].checked
    requires s.pcs[t].ptr in s.heap && !pred(s.pcs[t].data, s.heap[s.pcs[t].ptr].data)
    ensures Inv(s.(heap := s.heap - {s.pcs[t].item}, pcs := s.pcs[t := Idle]), x, pred)
    ensures i < |x.stack| && !pred(s.pcs[t].data, Items(s.heap, x.stack)[i])
  {
    var item := s.pcs[t].item;
    var s' := s.(heap := s.heap - {item}, pcs := s.pcs[t := Idle]);
    StackFrame(s, s', x.stack, item, pred);
    assert x.heights == x.heights[t := x.heights[t]];
    forall u | 0 <= u < |s.pcs| && u != t
      ensures Respected(s, s', x.stack, s.pcs[u])
    {
      assert HasItem(s.pcs[u]) ==> s.pcs[u].item != item;
    }
    Assemble(s, x, s', x, t, Idle, x.heights[t], pred);
    i := x.heights[t].ptr - 1;
  }

  /** Passing one item moves the pointer one node down. */
  lemma PassGood(s: State, x: Aux, t: nat, pred: Pred) returns (x': Aux)
    requires Inv(s, x, pred) && t < |s.pcs| && s.pcs[t].Checking? && s.pcs[t].ptr != s.pcs[t].checked
    requires s.pcs[t].ptr in s.heap && pred(s.pcs[t].data, s.heap[s.pcs[t].ptr].data)
    ensures Inv(s.(pcs := s.pcs[t := s.pcs[t].(ptr := s.heap[s.pcs[t].ptr].link)]), x', pred) && x'.stack == x.stack
  {
    var pc, h := s.pcs[t], x.heights[t];
    assert h.ptr > 0 && x.stack[h.ptr - 1] == pc.ptr;
    assert LinkOk(s.heap, x.stack, h.ptr - 1);
    var h' := h.(ptr := h.ptr - 1);
    x' := x.(heights := x.heights[t := h']);
    assert Items(s.heap, x.stack)[h.ptr - 1] == s.heap[pc.ptr].data;
    QuietGood(s, x, t, pc.(ptr := s.heap[pc.ptr].link), h', pred);
  }

  lemma SameHeight(stack: seq<Addr>, g: nat, h: nat)
    requires Distinct(stack) && NULL !in stack && g <= |stack| && h <= |stack| && Top(stack, g) == Top(stack, h)
    ensures g == h
  {
  }

  lemma CheckedGood(s: State, x: Aux, t: nat, pred: Pred)
    requires Inv(s, x, pred) && t < |s.pcs| && s.pcs[t].Checking? && s.pcs[t].ptr == s.pcs[t].checked
    ensures var pc := s.pcs[t]; Inv(s.(pcs := s.pcs[t := Ready(pc.item, pc.data, pc.seen)]), x, pred)
  {
  }

  lemma MissGood(s: State, x: Aux, t: nat, pred: Pred) returns (x': Aux)
    requires Inv(s, x, pred) && t < |s.pcs| && s.pcs[t].Ready?
    ensures var pc := s.pcs[t]; Inv(s.(pcs := s.pcs[t := Retrying(pc.item, pc.data, s.head, pc.seen)]), x', pred)
    ensures x'.stack == x.stack
  {
    var pc := s.pcs[t];
    var h := Heights(|x.stack|, 0, x.heights[t].seen);
    x' := x.(heights := x.heights[t := h]);
    QuietGood(s, x, t, Retrying(pc.item, pc.data, s.head, pc.seen), h, pred);
  }

  lemma RetryGood(s: State, x: Aux, t: nat, pred: Pred) returns (x': Aux)
    requires Inv(s, x, pred) && t < |s.pcs| && s.pcs[t].Retrying?
    ensures var pc := s.pcs[t];
            && pc.item in s.heap
            && Inv(s.(heap := s.heap[pc.item := s.heap[pc.item].(link := pc.seen)],
                      pcs := s.pcs[t := Checking(pc.item, pc.data, pc.seen, pc.seen, pc.checked)]), x', pred)
            && Items(s.heap[pc.item := s.heap[pc.item].(link := pc.seen)], x.stack) == Items(s.heap, x.stack)
    ensures x'.stack == x.stack
  {
    var c := s.pcs[t];
    var pc := Checking(c.item, c.data, c.seen, c.seen, c.checked);
    var h := Heights(x.heights[t].seen, x.heights[t].seen, x.heights[t].checked);
    var s' := s.(heap := s.heap[c.item := s.heap[c.item].(link := c.seen)], pcs := s.pcs[t := pc]);
    x' := x.(heights := x.heights[t := h]);
    StackFrame(s, s', x.stack, c.item, pred);
    Assemble(s, x, s', x', t, pc, h, pred);
  }

  /** An exchange succeeds only if nothing has arrived since the item was checked. */
  lemma AcceptGood(s: State, x: Aux, t: nat, pred: Pred) returns (x': Aux)
    requires Inv(s, x, pred) && t < |s.pcs| && s.pcs[t].Ready? && s.head == s.pcs[t].seen
    ensures Inv(s.(head := s.pcs[t].item, pcs := s.pcs[t := Idle]), x', pred)
    ensures x'.stack == x.stack + [s.pcs[t].item]
    ensures Items(s.heap, x'.stack) == Items(s.heap, x.stack) + [s.pcs[t].data]
  {
    var pc, h := s.pcs[t], x.heights[t];
    var s' := s.(head := pc.item, pcs := s.pcs[t := Idle]);
    x' := x.(stack := x.stack + [pc.item]);
    SameHeight(x.stack, h.seen, |x.stack|);
    StoredGrows(s.heap, s.head, x.stack, pc.item);
    CompatibleGrows(Items(s.heap, x.stack), pc.data, pred);
    assert x.heights == x.heights[t := h];
    Assemble(s, x, s', x', t, Idle, h, pred);
  }

  lemma StoredGrows(heap: map<Addr, Node>, head: Addr, stack: seq<Addr>, item: Addr)
    requires Stored(heap, head, stack) && Distinct(stack)
    requires item in heap && item != NULL && item !in stack && heap[item].link == head
    ensures Stored(heap, item, stack + [item]) && Distinct(stack + [item])
    ensures Items(heap, stack + [item]) == Items(heap, stack) + [heap[item].data]
  {
    forall i: nat | i < |stack| + 1
      ensures LinkOk(heap, stack + [item], i)
    {
      if i < |stack| {
        assert LinkOk(heap, stack, i);
      }
    }
  }

  lemma CompatibleGrows(items: seq<Item>, data: Item, pred: Pred)
    requires Compatible(items, pred) && Passed(data, items, 0, |items|, pred)
    ensures Compatible(items + [data], pred)
  {
  }

  // ---------------------------------------------------------------- every run

  /** A step keeps the invariant; the stored items only grow, at the top, by accepted items. */
  ghost predicate Good(s: State, x: Aux, s': State, x': Aux, pred: Pred, e: Event) {
    && Inv(s, x, pred) && Inv(s', x', pred)
    && var items, items' := Items(s.heap, x.stack), Items(s'.heap, x'.stack);
       match e
       case Internal => items' == items
       case Accepted(data) => items' == items + [data]
       case Rejected(data) => items' == items && exists i :: 0 <= i < |items| && !pred(data, items[i])
  }

  lemma CheckingGood(s: State, x: Aux, s': State, t: nat, pred: Pred, e: Event) returns (x': Aux)
    requires Inv(s, x, pred) && Step(s, s', t, pred, e) && s.pcs[t].Checking?
    ensures Good(s, x, s', x', pred, e)
  {
    var pc := s.pcs[t];
    if pc.ptr == pc.checked {
      x' := x;
      CheckedGood(s, x, t, pred);
    } else if pred(pc.data, s.heap[pc.ptr].data) {
      x' := PassGood(s, x, t, pred);
    } else {
      x' := x;
      var i := RejectGood(s, x, t, pred);
      StackFrame(s, s', x.stack, pc.item, pred);
    }
  }

  lemma StepGood(s: State, x: Aux, s': State, t: nat, pred: Pred, e: Event) returns (x': Aux)
    requires Inv(s, x, pred) && Step(s, s', t, pred, e)
    ensures Good(s, x, s', x', pred, e)
  {
    match s.pcs[t]
    case Idle =>
      var h := Heights(|x.stack|, 0, 0);
      x' := x.(heights := x.heights[t := h]);
      QuietGood(s, x, t, s'.pcs[t], h, pred);
    case Loaded(data, seen) =>
      var item: Addr :| item != NULL && item !in s.heap &&
        s' == s.(heap := s.heap[item := Node(seen, data)],
                 pcs := s.pcs[t := Checking(item, data, seen, seen, NULL)]);
      x' := AllocateGood(s, x, t, item, pred);
    case Checking(_, _, _, _, _) => x' := CheckingGood(s, x, s', t, pred, e);
    case Ready(_, _, seen) =>
      if s.head == seen {
        x' := AcceptGood(s, x, t, pred);
      } else {
        x' := MissGood(s, x, t, pred);
      }
    case Retrying(_, _, _, _) => x' := RetryGood(s, x, t, pred);
  }

  lemma NextGood(s: State, x: Aux, s': State, pred: Pred, e: Event) returns (x': Aux)
    requires Inv(s, x, pred) && Next(s, s', pred, e)
    ensures Good(s, x, s', x', pred, e)
  {
    var t: nat :| Step(s, s', t, pred, e);
    x' := StepGood(s, x, s', t, pred, e);
  }

  function InitAux(s: State): Aux {
    Aux([], seq(|s.pcs|, i => Heights(0, 0, 0)))
  }

  lemma InitInv(s: State, pred: Pred)
    requires Init(s)
    ensures Inv(s, InitAux(s), pred)
  {
  }

  lemma {:induction false} RunInv(run: seq<State>, events: seq<Event>, pred: Pred, i: nat) returns (x: Aux)
    requires Run(run, events, pred) && i < |run|
    ensures Inv(run[i], x, pred)
  {
    if i == 0 {
      InitInv(run[0], pred);
      x := InitAux(run[0]);
    } else {
      var before := RunInv(run, events, pred, i - 1);
      x := NextGood(run[i - 1], before, run[i], pred, events[i - 1]);
    }
  }

  /** In every reachable state each stored item satisfies the predicate against every item below it. */
  lemma StoredCompatible(run: seq<State>, events: seq<Event>, pred: Pred, i: nat, stack: seq<Addr>)
    requires Run(run, events, pred) && i < |run| && Stored(run[i].heap, run[i].head, stack)
    ensures Compatible(Items(run[i].heap, stack), pred)
  {
    var x := RunInv(run, events, pred, i);
    StoredUnique(run[i].heap, run[i].head, stack, x.stack);
  }

  /** The list is always well formed, so the statements about its nodes are about something. */
  lemma ListExists(run: seq<State>, events: seq<Event>, pred: Pred, i: nat) returns (stack: seq<Addr>)
    requires Run(run, events, pred) && i < |run|
    ensures Stored(run[i].heap, run[i].head, stack)
  {
    var x := RunInv(run, events, pred, i);
    stack := x.stack;
  }

  /** No thread ever follows a null or freed pointer. */
  lemma AccessesLive(run: seq<State>, events: seq<Event>, pred: Pred, i: nat, t: nat)
    requires Run(run, events, pred) && i < |run| && t < |run[i].pcs| && HasItem(run[i].pcs[t])
    ensures run[i].pcs[t].item != NULL && run[i].pcs[t].item in run[i].heap
    ensures var pc := run[i].pcs[t]; pc.Checking? && pc.ptr != pc.checked ==> pc.ptr != NULL && pc.ptr in run[i].heap
  {
    var x := RunInv(run, events, pred, i);
  }

  /** push_if stores an item on top, or refuses it because it conflicts with an item that is stored. */
  lemma PushIfOutcome(run: seq<State>, events: seq<Event>, pred: Pred, i: nat, stack: seq<Addr>, stack': seq<Addr>)
    requires Run(run, events, pred) && i < |events|
    requires Stored(run[i].heap, run[i].head, stack) && Stored(run[i + 1].heap, run[i + 1].head, stack')
    ensures var items, items' := Items(run[i].heap, stack), Items(run[i + 1].heap, stack');
            match events[i]
            case Internal => items' == items
            case Accepted(data) => items' == items + [data]
            case Rejected(data) => items' == items && exists j :: 0 <= j < |items| && !pred(data, items[j])
  {
    var x := RunInv(run, events, pred, i);
    var x' := NextGood(run[i], x, run[i + 1], pred, events[i]);
    StoredUnique(run[i].heap, run[i].head, stack, x.stack);
    StoredUnique(run[i + 1].heap, run[i + 1].head, stack', x'.stack);
  }

  // ---------------------------------------------------------------- the calls

  /** A thread between calls may begin one; a call goes on with its item or ends with the answer for it. */
  lemma CallAnswered(run: seq<State>, events: seq<Event>, pred: Pred, i: nat, t: nat)
    requires Run(run, events, pred) && i < |events| && t < |run[i].pcs|
    ensures |run[i + 1].pcs| == |run[i].pcs|
    ensures var before, after := run[i].pcs[t], run[i + 1].pcs[t];
            if before == Idle then after == Idle || after.Loaded?
            else if after == Idle then events[i] == Accepted(before.data) || events[i] == Rejected(before.data)
            else after.data == before.data && (after == before || events[i] == Internal)
  {
    assert Next(run[i], run[i + 1], pred, events[i]);
  }

  /** How many steps a call needs at most while no other thread steps in. */
  function Rank(pc: Pc, h: Heights, head: Addr, height: nat): int {
    match pc
    case Idle => 0
    case Loaded(_, seen) => h.seen + 3 + Late(seen, h, head, height)
    case Checking(_, _, seen, _, _) => h.ptr - h.checked + 2 + Late(seen, h, head, height)
    case Ready(_, _, seen) => 1 + Late(seen, h, head, height)
    case Retrying(_, _, seen, _) => h.seen - h.checked + 3 + Late(seen, h, head, height)
  }

  /** A call that has not seen the newest item must go back once for those that came in. */
  function Late(seen: Addr, h: Heights, head: Addr, height: nat): int {
    if seen == head then 0 else height - h.seen + 4
  }

  /** A call can always step, and each step of its own brings it closer to its answer. */
  lemma PushIfGetsThrough(s: State, x: Aux, t: nat, pred: Pred) returns (s': State, e: Event, h: Heights)
    requires Inv(s, x, pred) && t < |s.pcs| && s.pcs[t] != Idle
    ensures Step(s, s', t, pred, e) && |s'.pcs| == |s.pcs|
    ensures if e != Internal then s'.pcs[t] == Idle
            else && s'.head == s.head && PcOk(s'.pcs[t], h, x.stack, Items(s.heap, x.stack), pred)
                 && 0 < Rank(s'.pcs[t], h, s.head, |x.stack|) < Rank(s.pcs[t], x.heights[t], s.head, |x.stack|)
  {
    e, h := Internal, x.heights[t];
    match s.pcs[t]
    case Loaded(data, seen) =>
      var item := Arith.Unused(s.heap.Keys);
      h := Heights(h.seen, h.seen, 0);
      s' := s.(heap := s.heap[item := Node(seen, data)], pcs := s.pcs[t := Checking(item, data, seen, seen, NULL)]);
    case Checking(item, data, seen, ptr, checked) =>
      if ptr == checked {
        s' := s.(pcs := s.pcs[t := Ready(item, data, seen)]);
      } else {
        assert h.ptr > 0 && LinkOk(s.heap, x.stack, h.ptr - 1);
        assert Items(s.heap, x.stack)[h.ptr - 1] == s.heap[ptr].data;
        if pred(data, s.heap[ptr].data) {
          h := h.(ptr := h.ptr - 1);
          s' := s.(pcs := s.pcs[t := Checking(item, data, seen, s.heap[ptr].link, checked)]);
        } else {
          e := Rejected(data);
          s' := s.(heap := s.heap - {item}, pcs := s.pcs[t := Idle]);
        }
      }
    case Ready(item, data, seen) =>
      if s.head == seen {
        e := Accepted(data);
        s' := s.(head := item, pcs := s.pcs[t := Idle]);
      } else {
        h := Heights(|x.stack|, 0, h.seen);
        s' := s.(pcs := s.pcs[t := Retrying(item, data, s.head, seen)]);
      }
    case Retrying(item, data, seen, checked) =>
      h := Heights(h.seen, h.seen, h.checked);
      s' := s.(heap := s.heap[item := s.heap[item].(link := seen)],
               pcs := s.pcs[t := Checking(item, data, seen, seen, checked)]);
  }
}
