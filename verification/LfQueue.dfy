/**
 * The linked-list multi-producer queue (lf_queue in Utilities/lockless.h): any number of threads push by
 * compare-and-exchange on the head, drain by exchanging it with null, and reverse what they took. Nodes live in a
 * heap whose freed addresses may be handed out again.
 */
module LfQueue {

  /** Node addresses; 0 is null. */
  type Addr = nat

  const NULL: Addr := 0

  /** A queued element; the queue never looks inside. */
  type Item = int

  datatype Node = Node(link: Addr, data: Item)

  datatype Pc =
    | Idle
    | Loaded(data: Item, seen: Addr)                                  // push, before the node is allocated
    | Linked(item: Addr, data: Item, seen: Addr)                      // push, before the compare_exchange
    | Relinking(item: Addr, data: Item, seen: Addr)                   // push, before the link is written again
    | Exchanging                                                      // reverse, before the exchange
    | Taken(head: Addr, from: nat, to: nat)                           // reverse, before the loop
    | Reversing(head: Addr, prev: Addr, from: nat, to: nat)           // reverse, in the loop
    | Serving(head: Addr, got: seq<Item>, from: nat, to: nat, reversed: bool)  // the slice in the caller's hands

  /**
   * The shared head, the heap, the threads, and two history variables: the items in the order of their successful
   * exchanges, and how many of them had been pushed at the last drain. A drainer remembers in `from` and `to`
   * which of the pushed items it has drained.
   */
  datatype State = State(head: Addr, heap: map<Addr, Node>, pcs: seq<Pc>, pushed: seq<Item>, taken: nat)

  /** What a thread between calls may call. */
  datatype Op = Push(data: Item) | PopAll | PopAllReversed

  datatype Event =
    | Internal
    | Pushed(data: Item, result: bool)
    | FoundEmpty                                                      // pop_all returns without an exchange
    | Drained(from: nat, to: nat)
    | Returned(from: nat, to: nat, items: seq<Item>, reversed: bool)

  // ---------------------------------------------------------------- the steps

  ghost predicate PushStep(s: State, s': State, t: nat, e: Event)
    requires t < |s.pcs|
  {
    match s.pcs[t]
    case Loaded(data, seen) =>
      && e == Internal
      && exists item: Addr :: item != NULL && item !in s.heap &&
           s' == s.(heap := s.heap[item := Node(seen, data)], pcs := s.pcs[t := Linked(item, data, seen)])
    case Linked(item, data, seen) =>
      if s.head == seen
      then && e == Pushed(data, seen == NULL)
           && s' == s.(head := item, pcs := s.pcs[t := Idle], pushed := s.pushed + [data])
      else && e == Internal
           && s' == s.(pcs := s.pcs[t := Relinking(item, data, s.head)])
    case Relinking(item, data, seen) =>
      && e == Internal && item in s.heap
      && s' == s.(heap := s.heap[item := s.heap[item].(link := seen)], pcs := s.pcs[t := Linked(item, data, seen)])
    case _ => false
  }

  predicate DrainStep(s: State, s': State, t: nat, e: Event)
    requires t < |s.pcs|
  {
    match s.pcs[t]
    case Exchanging =>
      && e == Drained(s.taken, |s.pushed|)
      && s' == s.(head := NULL, taken := |s.pushed|,
                  pcs := s.pcs[t := if s.head == NULL then Serving(NULL, [], s.taken, |s.pushed|, false)
                                    else Taken(s.head, s.taken, |s.pushed|)])
    case Taken(head, from, to) =>
      && e == Internal && head in s.heap
      && var prev := s.heap[head].link;
         if prev == NULL then s' == s.(pcs := s.pcs[t := Serving(head, [], from, to, false)])
         else s' == s.(heap := s.heap[head := s.heap[head].(link := NULL)],
                       pcs := s.pcs[t := Reversing(head, prev, from, to)])
    case Reversing(head, prev, from, to) =>
      && e == Internal && prev in s.heap
      && var pprev := s.heap[prev].link;
         s' == s.(heap := s.heap[prev := s.heap[prev].(link := head)],
                  pcs := s.pcs[t := if pprev == NULL then Serving(prev, [], from, to, false)
                                    else Reversing(prev, pprev, from, to)])
    case Serving(head, got, from, to, reversed) =>
      if head == NULL
      then e == Returned(from, to, got, reversed) && s' == s.(pcs := s.pcs[t := Idle])
      else && e == Internal && head in s.heap
           && s' == s.(heap := s.heap - {head},
                       pcs := s.pcs[t := Serving(s.heap[head].link, got + [s.heap[head].data], from, to, reversed)])
    case _ => false
  }

  /** A call begins with the atomic access it starts with. */
  predicate StartStep(s: State, s': State, t: nat, op: Op, e: Event)
    requires t < |s.pcs|
  {
    && s.pcs[t] == Idle
    && match op
       case Push(data) => e == Internal && s' == s.(pcs := s.pcs[t := Loaded(data, s.head)])
       case PopAll =>
         if s.head == NULL then e == FoundEmpty && s' == s
         else e == Internal && s' == s.(pcs := s.pcs[t := Exchanging])
       case PopAllReversed =>
         && e == Drained(s.taken, |s.pushed|)
         && s' == s.(head := NULL, taken := |s.pushed|,
                     pcs := s.pcs[t := Serving(s.head, [], s.taken, |s.pushed|, true)])
  }

  /** A step of thread t; `op` is what it calls if it is between calls. */
  ghost predicate StepBy(s: State, s': State, t: nat, op: Op, e: Event) {
    t < |s.pcs| && (StartStep(s, s', t, op, e) || PushStep(s, s', t, e) || DrainStep(s, s', t, e))
  }

  ghost predicate Next(s: State, s': State, e: Event) {
    exists t: nat, op: Op :: StepBy(s, s', t, op, e)
  }

  predicate Init(s: State) {
    && s.head == NULL && s.pushed == [] && s.taken == 0
    && forall t :: 0 <= t < |s.pcs| ==> s.pcs[t] == Idle
  }

  ghost predicate Run(run: seq<State>, events: seq<Event>) {
    && |run| == |events| + 1 && Init(run[0])
    && forall i :: 0 <= i < |events| ==> Next(run[i], run[i + 1], events[i])
  }

  // ---------------------------------------------------------------- chains

  function At(nodes: seq<Addr>, i: nat): Addr {
    if i < |nodes| then nodes[i] else NULL
  }

  /** The list hanging at `head` runs through exactly these distinct nodes. */
  predicate Chain(heap: map<Addr, Node>, head: Addr, nodes: seq<Addr>) {
    && head == At(nodes, 0)
    && (forall i :: 0 <= i < |nodes| ==> nodes[i] != NULL && nodes[i] in heap)
    && (forall i :: 0 <= i < |nodes| ==> heap[nodes[i]].link == At(nodes, i + 1))
  }

  predicate Distinct(nodes: seq<Addr>) {
    forall i, j :: 0 <= i < j < |nodes| ==> nodes[i] != nodes[j]
  }

  function Data(heap: map<Addr, Node>, nodes: seq<Addr>): (d: seq<Item>)
    requires forall x :: x in nodes ==> x in heap
    ensures |d| == |nodes|
  {
    seq(|nodes|, i requires 0 <= i < |nodes| => heap[nodes[i]].data)
  }

  function Reverse(s: seq<Item>): (r: seq<Item>)
    ensures |r| == |s|
  {
    seq(|s|, i requires 0 <= i < |s| => s[|s| - 1 - i])
  }

  // ---------------------------------------------------------------- who owns which node

  datatype Owner = Shared | Thread(t: nat)

  /** A thread's private nodes: one list, or while reversing the done list and the rest. */
  datatype Parts = Parts(done: seq<Addr>, rest: seq<Addr>)

  datatype Aux = Aux(owner: map<Addr, Owner>, list: seq<Addr>, mine: seq<Parts>)

  predicate Owns(owner: map<Addr, Owner>, who: Owner, nodes: seq<Addr>) {
    Distinct(nodes) && forall x :: x in nodes ==> x in owner && owner[x] == who
  }

  /** What a thread's private lists hold, as a part of the pushed items. */
  predicate ThreadOk(heap: map<Addr, Node>, pushed: seq<Item>, pc: Pc, p: Parts) {
    match pc
    case Idle | Loaded(_, _) | Exchanging => p == Parts([], [])
    case Linked(item, data, seen) =>
      p == Parts([item], []) && item != NULL && item in heap && heap[item] == Node(seen, data)
    case Relinking(item, data, seen) =>
      p == Parts([item], []) && item != NULL && item in heap && heap[item].data == data
    case Taken(head, from, to) =>
      && p.rest == [] && p.done != [] && Chain(heap, head, p.done)
      && from <= to <= |pushed| && Reverse(Data(heap, p.done)) == pushed[from..to]
    case Reversing(head, prev, from, to) =>
      && p.done != [] && p.rest != [] && Chain(heap, head, p.done) && Chain(heap, prev, p.rest)
      && from <= to <= |pushed| && Reverse(Data(heap, p.rest)) + Data(heap, p.done) == pushed[from..to]
    case Serving(head, got, from, to, reversed) =>
      && p.rest == [] && Chain(heap, head, p.done) && from <= to <= |pushed|
      && got + Data(heap, p.done) == if reversed then Reverse(pushed[from..to]) else pushed[from..to]
  }

  predicate SharedOk(s: State, list: seq<Addr>) {
    && Chain(s.heap, s.head, list) && s.taken <= |s.pushed|
    && Reverse(Data(s.heap, list)) == s.pushed[s.taken..]
  }

  predicate Inv(s: State, x: Aux) {
    && |x.mine| == |s.pcs| && x.owner.Keys <= s.heap.Keys
    && Owns(x.owner, Shared, x.list) && SharedOk(s, x.list)
    && forall t :: 0 <= t < |s.pcs| ==>
         && Owns(x.owner, Thread(t), x.mine[t].done + x.mine[t].rest)
         && ThreadOk(s.heap, s.pushed, s.pcs[t], x.mine[t])
  }

  // ---------------------------------------------------------------- frames

  predicate Agree(heap: map<Addr, Node>, heap': map<Addr, Node>, nodes: seq<Addr>) {
    forall x :: x in nodes && x in heap ==> x in heap' && heap'[x] == heap[x]
  }

  lemma ChainFrame(heap: map<Addr, Node>, heap': map<Addr, Node>, head: Addr, nodes: seq<Addr>)
    requires Chain(heap, head, nodes) && Agree(heap, heap', nodes)
    ensures Chain(heap', head, nodes) && Data(heap', nodes) == Data(heap, nodes)
  {
  }

  lemma ThreadFrame(heap: map<Addr, Node>, heap': map<Addr, Node>,
                    pushed: seq<Item>, pushed': seq<Item>, pc: Pc, p: Parts)
    requires ThreadOk(heap, pushed, pc, p) && pushed <= pushed' && Agree(heap, heap', p.done + p.rest)
    ensures ThreadOk(heap', pushed', pc, p)
  {
    assert Agree(heap, heap', p.done) && Agree(heap, heap', p.rest);
    match pc
    case Idle | Loaded(_, _) | Exchanging =>
    case Linked(item, _, _) => assert item in p.done;
    case Relinking(item, _, _) => assert item in p.done;
    case Taken(head, from, to) =>
      ChainFrame(heap, heap', head, p.done);
      assert pushed'[from..to] == pushed[from..to];
    case Reversing(head, prev, from, to) =>
      ChainFrame(heap, heap', head, p.done);
      ChainFrame(heap, heap', prev, p.rest);
      assert pushed'[from..to] == pushed[from..to];
    case Serving(head, _, from, to, _) =>
      ChainFrame(heap, heap', head, p.done);
      assert pushed'[from..to] == pushed[from..to];
  }

  /** Nothing another thread owns is touched. */
  predicate Untouched(s: State, x: Aux, s': State, x': Aux, t: nat) {
    forall a :: a in x.owner && x.owner[a].Thread? && x.owner[a] != Thread(t) ==>
      && a in x'.owner && x'.owner[a] == x.owner[a]
      && a in s.heap && a in s'.heap && s'.heap[a] == s.heap[a]
  }

  /** A step of thread t is judged by its own lists and the shared one. */
  lemma Assemble(s: State, x: Aux, s': State, x': Aux, t: nat, pc: Pc, p: Parts)
    requires Inv(s, x) && t < |s.pcs| && s'.pcs == s.pcs[t := pc] && x'.mine == x.mine[t := p]
    requires s.pushed <= s'.pushed && Untouched(s, x, s', x', t)
    requires x'.owner.Keys <= s'.heap.Keys && Owns(x'.owner, Shared, x'.list) && SharedOk(s', x'.list)
    requires Owns(x'.owner, Thread(t), p.done + p.rest) && ThreadOk(s'.heap, s'.pushed, pc, p)
    ensures Inv(s', x')
  {
    forall u | 0 <= u < |s'.pcs|
      ensures Owns(x'.owner, Thread(u), x'.mine[u].done + x'.mine[u].rest)
      ensures ThreadOk(s'.heap, s'.pushed, s'.pcs[u], x'.mine[u])
    {
      if u != t {
        ThreadFrame(s.heap, s'.heap, s.pushed, s'.pushed, s.pcs[u], x.mine[u]);
      }
    }
  }

  // ---------------------------------------------------------------- reversal

  lemma ReverseCons(a: Item, s: seq<Item>)
    ensures Reverse([a] + s) == Reverse(s) + [a]
  {
  }

  lemma ReverseShift(a: Item, s: seq<Item>, t: seq<Item>)
    ensures Reverse([a] + s) + t == Reverse(s) + ([a] + t)
  {
  }

  lemma ReverseTwice(s: seq<Item>)
    ensures Reverse(Reverse(s)) == s
  {
  }

  /** The first node of a chain and the chain after it. */
  lemma ChainTail(heap: map<Addr, Node>, head: Addr, nodes: seq<Addr>)
    requires Chain(heap, head, nodes) && nodes != []
    ensures head == nodes[0] && head in heap && Chain(heap, heap[head].link, nodes[1..])
    ensures Data(heap, nodes) == [heap[head].data] + Data(heap, nodes[1..])
  {
  }

  lemma ChainCons(heap: map<Addr, Node>, a: Addr, nodes: seq<Addr>)
    requires a != NULL && a in heap && Chain(heap, heap[a].link, nodes)
    ensures Chain(heap, a, [a] + nodes)
    ensures Data(heap, [a] + nodes) == [heap[a].data] + Data(heap, nodes)
  {
  }

  lemma DistinctCons(a: Addr, nodes: seq<Addr>)
    requires Distinct(nodes) && a !in nodes
    ensures Distinct([a] + nodes)
  {
  }

  function SetLink(heap: map<Addr, Node>, a: Addr, link: Addr): map<Addr, Node>
    requires a in heap
  {
    heap[a := heap[a].(link := link)]
  }

  /** Cutting the first node off leaves two lists whose contents still add up. */
  lemma CutChain(heap: map<Addr, Node>, head: Addr, nodes: seq<Addr>)
    requires Chain(heap, head, nodes) && Distinct(nodes) && nodes != []
    ensures head == nodes[0] && head in heap
    ensures var h := SetLink(heap, head, NULL);
            && Chain(h, head, [head]) && Chain(h, heap[head].link, nodes[1..])
            && Reverse(Data(h, nodes[1..])) + Data(h, [head]) == Reverse(Data(heap, nodes))
  {
  }

  /** Moving the first node of the rest to the front of the done list. */
  lemma MoveNode(heap: map<Addr, Node>, head: Addr, prev: Addr, done: seq<Addr>, rest: seq<Addr>)
    requires Chain(heap, head, done) && Chain(heap, prev, rest) && Distinct(done + rest) && rest != []
    ensures prev == rest[0] && prev in heap
    ensures var h := SetLink(heap, prev, head);
            && Chain(h, prev, [prev] + done) && Chain(h, heap[prev].link, rest[1..])
            && Reverse(Data(h, rest[1..])) + Data(h, [prev] + done) == Reverse(Data(heap, rest)) + Data(heap, done)
  {
    ChainTail(heap, prev, rest);
    MovedDistinct(done, rest);
    var h := SetLink(heap, prev, head);
    ChainFrame(heap, h, head, done);
    ChainFrame(heap, h, heap[prev].link, rest[1..]);
    ChainCons(h, prev, done);
    ReverseShift(heap[prev].data, Data(heap, rest[1..]), Data(heap, done));
  }

  /** Deleting the first node. */
  lemma DropNode(heap: map<Addr, Node>, head: Addr, nodes: seq<Addr>)
    requires Chain(heap, head, nodes) && Distinct(nodes) && nodes != []
    ensures head == nodes[0] && head in heap && head !in nodes[1..]
    ensures Chain(heap - {head}, heap[head].link, nodes[1..])
    ensures Data(heap, nodes) == [heap[head].data] + Data(heap - {head}, nodes[1..])
  {
  }

  // ---------------------------------------------------------------- the pusher's steps

  lemma SharedFrame(s: State, s': State, x: Aux)
    requires Inv(s, x) && s'.head == s.head && s'.pushed == s.pushed && s'.taken == s.taken
    requires Agree(s.heap, s'.heap, x.list)
    ensures SharedOk(s', x.list)
  {
  }

  /** A step that only moves the thread's program counter. */
  lemma QuietGood(s: State, x: Aux, t: nat, pc: Pc)
    requires Inv(s, x) && t < |s.pcs| && ThreadOk(s.heap, s.pushed, pc, x.mine[t])
    ensures Inv(s.(pcs := s.pcs[t := pc]), x)
  {
  }

  lemma AllocateGood(s: State, x: Aux, t: nat, item: Addr) returns (x': Aux)
    requires Inv(s, x) && t < |s.pcs| && s.pcs[t].Loaded? && item != NULL && item !in s.heap
    ensures var pc := s.pcs[t];
            Inv(s.(heap := s.heap[item := Node(pc.seen, pc.data)],
                   pcs := s.pcs[t := Linked(item, pc.data, pc.seen)]), x')
  {
    var pc, p := Linked(item, s.pcs[t].data, s.pcs[t].seen), Parts([item], []);
    var s' := s.(heap := s.heap[item := Node(pc.seen, pc.data)], pcs := s.pcs[t := pc]);
    x' := x.(owner := x.owner[item := Thread(t)], mine := x.mine[t := p]);
    SharedFrame(s, s', x);
    Assemble(s, x, s', x', t, pc, p);
  }

  lemma RelinkGood(s: State, x: Aux, t: nat)
    requires Inv(s, x) && t < |s.pcs| && s.pcs[t].Relinking?
    ensures var pc := s.pcs[t];
            && pc.item in s.heap
            && Inv(s.(heap := s.heap[pc.item := s.heap[pc.item].(link := pc.seen)],
                      pcs := s.pcs[t := Linked(pc.item, pc.data, pc.seen)]), x)
  {
    var item, pc := s.pcs[t].item, Linked(s.pcs[t].item, s.pcs[t].data, s.pcs[t].seen);
    var s' := s.(heap := s.heap[item := s.heap[item].(link := pc.seen)], pcs := s.pcs[t := pc]);
    assert item in x.mine[t].done + x.mine[t].rest;
    assert x.mine == x.mine[t := x.mine[t]];
    SharedFrame(s, s', x);
    Assemble(s, x, s', x, t, pc, x.mine[t]);
  }

  /** A successful exchange links the item in front of what is the head at that moment, reused address or not. */
  lemma PushGood(s: State, x: Aux, t: nat) returns (x': Aux)
    requires Inv(s, x) && t < |s.pcs| && s.pcs[t].Linked? && s.head == s.pcs[t].seen
    ensures var pc := s.pcs[t];
            Inv(s.(head := pc.item, pcs := s.pcs[t := Idle], pushed := s.pushed + [pc.data]), x')
    ensures s.head == NULL <==> s.taken == |s.pushed|
  {
    var item, data, p := s.pcs[t].item, s.pcs[t].data, Parts([], []);
    var s' := s.(head := item, pcs := s.pcs[t := Idle], pushed := s.pushed + [data]);
    assert item in x.mine[t].done + x.mine[t].rest;
    x' := x.(owner := x.owner[item := Shared], list := [item] + x.list, mine := x.mine[t := p]);
    DistinctCons(item, x.list);
    ChainCons(s.heap, item, x.list);
    ReverseCons(data, Data(s.heap, x.list));
    assert s'.pushed[s.taken..] == s.pushed[s.taken..] + [data];
    Assemble(s, x, s', x', t, Idle, p);
  }

  // ---------------------------------------------------------------- the drainer's steps

  function HandedTo(owner: map<Addr, Owner>, t: nat): map<Addr, Owner> {
    map a | a in owner :: if owner[a] == Shared then Thread(t) else owner[a]
  }

  lemma HandedOver(owner: map<Addr, Owner>, t: nat, list: seq<Addr>)
    requires Owns(owner, Shared, list)
    ensures HandedTo(owner, t).Keys == owner.Keys && Owns(HandedTo(owner, t), Thread(t), list)
  {
  }

  /** Exchanging the head with null hands the whole list over. */
  lemma TakeAll(s: State, x: Aux, t: nat, pc: Pc) returns (x': Aux)
    requires Inv(s, x) && t < |s.pcs| && x.mine[t] == Parts([], [])
    requires ThreadOk(s.heap, s.pushed, pc, Parts(x.list, []))
    ensures Inv(s.(head := NULL, taken := |s.pushed|, pcs := s.pcs[t := pc]), x')
  {
    var p := Parts(x.list, []);
    var s' := s.(head := NULL, taken := |s.pushed|, pcs := s.pcs[t := pc]);
    x' := Aux(HandedTo(x.owner, t), [], x.mine[t := p]);
    HandedOver(x.owner, t, x.list);
    assert p.done + p.rest == x.list;
    Assemble(s, x, s', x', t, pc, p);
  }

  lemma ExchangeGood(s: State, x: Aux, t: nat, pc: Pc) returns (x': Aux)
    requires Inv(s, x) && t < |s.pcs| && x.mine[t] == Parts([], [])
    requires pc == if s.head == NULL then Serving(NULL, [], s.taken, |s.pushed|, false)
                   else Taken(s.head, s.taken, |s.pushed|)
    ensures Inv(s.(head := NULL, taken := |s.pushed|, pcs := s.pcs[t := pc]), x')
  {
    assert s.pushed[s.taken..|s.pushed|] == s.pushed[s.taken..];
    x' := TakeAll(s, x, t, pc);
  }

  lemma ExchangeReversedGood(s: State, x: Aux, t: nat) returns (x': Aux)
    requires Inv(s, x) && t < |s.pcs| && x.mine[t] == Parts([], [])
    ensures Inv(s.(head := NULL, taken := |s.pushed|,
                   pcs := s.pcs[t := Serving(s.head, [], s.taken, |s.pushed|, true)]), x')
  {
    assert s.pushed[s.taken..|s.pushed|] == s.pushed[s.taken..];
    ReverseTwice(Data(s.heap, x.list));
    x' := TakeAll(s, x, t, Serving(s.head, [], s.taken, |s.pushed|, true));
  }

  /** A list of one node needs no reversal. */
  lemma SingleGood(s: State, x: Aux, t: nat)
    requires Inv(s, x) && t < |s.pcs| && s.pcs[t].Taken?
    ensures var pc := s.pcs[t];
            && pc.head in s.heap
            && (s.heap[pc.head].link == NULL ==>
                  Inv(s.(pcs := s.pcs[t := Serving(pc.head, [], pc.from, pc.to, false)]), x))
  {
  }

  lemma CutGood(s: State, x: Aux, t: nat) returns (x': Aux)
    requires Inv(s, x) && t < |s.pcs| && s.pcs[t].Taken?
    requires s.pcs[t].head in s.heap && s.heap[s.pcs[t].head].link != NULL
    ensures var pc := s.pcs[t];
            Inv(s.(heap := s.heap[pc.head := s.heap[pc.head].(link := NULL)],
                   pcs := s.pcs[t := Reversing(pc.head, s.heap[pc.head].link, pc.from, pc.to)]), x')
  {
    var head, prev, nodes := s.pcs[t].head, s.heap[s.pcs[t].head].link, x.mine[t].done;
    var pc, p := Reversing(head, prev, s.pcs[t].from, s.pcs[t].to), Parts([head], nodes[1..]);
    var s' := s.(heap := s.heap[head := s.heap[head].(link := NULL)], pcs := s.pcs[t := pc]);
    x' := x.(mine := x.mine[t := p]);
    assert nodes + x.mine[t].rest == nodes;
    CutChain(s.heap, head, nodes);
    assert p.done + p.rest == nodes;
    SharedFrame(s, s', x);
    Assemble(s, x, s', x', t, pc, p);
  }

  /** One round of the reversal loop moves a node from the rest to the front of the done list. */
  lemma ReverseGood(s: State, x: Aux, t: nat) returns (x': Aux)
    requires Inv(s, x) && t < |s.pcs| && s.pcs[t].Reversing?
    ensures var pc := s.pcs[t];
            && pc.prev in s.heap
            && var pprev := s.heap[pc.prev].link;
               Inv(s.(heap := s.heap[pc.prev := s.heap[pc.prev].(link := pc.head)],
                      pcs := s.pcs[t := if pprev == NULL then Serving(pc.prev, [], pc.from, pc.to, false)
                                        else Reversing(pc.prev, pprev, pc.from, pc.to)]), x')
  {
    var head, prev, from, to := s.pcs[t].head, s.pcs[t].prev, s.pcs[t].from, s.pcs[t].to;
    var done, rest := x.mine[t].done, x.mine[t].rest;
    MoveNode(s.heap, head, prev, done, rest);
    var pprev := s.heap[prev].link;
    var pc := if pprev == NULL then Serving(prev, [], from, to, false) else Reversing(prev, pprev, from, to);
    var p := Parts([prev] + done, rest[1..]);
    var s' := s.(heap := s.heap[prev := s.heap[prev].(link := head)], pcs := s.pcs[t := pc]);
    x' := x.(mine := x.mine[t := p]);
    MovedDistinct(done, rest);
    assert prev in done + rest;
    SharedFrame(s, s', x);
    Assemble(s, x, s', x', t, pc, p);
  }

  lemma MovedDistinct(done: seq<Addr>, rest: seq<Addr>)
    requires rest != [] && Distinct(done + rest)
    ensures Distinct([rest[0]] + done + rest[1..]) && rest[0] !in done && rest[0] !in rest[1..]
    ensures forall x :: x in [rest[0]] + done + rest[1..] ==> x in done + rest
  {
    var all := done + rest;
    assert all[|done|] == rest[0];
    assert forall i :: 0 <= i < |done| ==> all[i] == done[i];
    assert forall i :: 0 <= i < |rest| ==> all[|done| + i] == rest[i];
  }

  lemma DropOwned(owner: map<Addr, Owner>, t: nat, nodes: seq<Addr>)
    requires Owns(owner, Thread(t), nodes) && nodes != []
    ensures Owns(owner - {nodes[0]}, Thread(t), nodes[1..])
  {
  }

  function Served(heap: map<Addr, Node>, c: Pc): Pc
    requires c.Serving? && c.head in heap
  {
    Serving(heap[c.head].link, c.got + [heap[c.head].data], c.from, c.to, c.reversed)
  }

  lemma ServeNode(heap: map<Addr, Node>, pushed: seq<Item>, c: Pc, p: Parts)
    requires c.Serving? && c.head != NULL && ThreadOk(heap, pushed, c, p) && Distinct(p.done)
    ensures p.done != [] && c.head == p.done[0] && c.head in heap
    ensures ThreadOk(heap - {c.head}, pushed, Served(heap, c), Parts(p.done[1..], []))
  {
    DropNode(heap, c.head, p.done);
    assert Served(heap, c).got + Data(heap - {c.head}, p.done[1..]) == c.got + Data(heap, p.done);
  }

  lemma ServeGood(s: State, x: Aux, t: nat) returns (x': Aux)
    requires Inv(s, x) && t < |s.pcs| && s.pcs[t].Serving? && s.pcs[t].head != NULL
    ensures s.pcs[t].head in s.heap
    ensures Inv(s.(heap := s.heap - {s.pcs[t].head}, pcs := s.pcs[t := Served(s.heap, s.pcs[t])]), x')
  {
    var c, nodes := s.pcs[t], x.mine[t].done;
    assert nodes + x.mine[t].rest == nodes;
    ServeNode(s.heap, s.pushed, c, x.mine[t]);
    var pc, p := Served(s.heap, c), Parts(nodes[1..], []);
    var s' := s.(heap := s.heap - {c.head}, pcs := s.pcs[t := pc]);
    x' := x.(owner := x.owner - {c.head}, mine := x.mine[t := p]);
    DropOwned(x.owner, t, nodes);
    assert p.done + p.rest == nodes[1..];
    SharedFrame(s, s', x);
    Assemble(s, x, s', x', t, pc, p);
  }

  // ---------------------------------------------------------------- every step

  /** What the callers see agrees with the order of the pushes. */
  predicate EventOk(s: State, s': State, e: Event) {
    && s.pushed <= s'.pushed
    && match e
       case Internal => s'.pushed == s.pushed && s'.taken == s.taken
       case FoundEmpty => s'.pushed == s.pushed && s'.taken == s.taken == |s.pushed|
       case Pushed(data, result) =>
         && s'.pushed == s.pushed + [data] && s'.taken == s.taken && (result <==> s.taken == |s.pushed|)
       case Drained(from, to) => from == s.taken <= to == |s.pushed| == s'.taken && s'.pushed == s.pushed
       case Returned(from, to, items, reversed) =>
         && from <= to <= |s.pushed| && s'.pushed == s.pushed && s'.taken == s.taken
         && items == if reversed then Reverse(s.pushed[from..to]) else s.pushed[from..to]
  }

  lemma StartGood(s: State, x: Aux, s': State, t: nat, op: Op, e: Event) returns (x': Aux)
    requires Inv(s, x) && t < |s.pcs| && StartStep(s, s', t, op, e)
    ensures Inv(s', x') && EventOk(s, s', e)
  {
    if e.Drained? {
      x' := ExchangeReversedGood(s, x, t);
    } else {
      x' := x;
      QuietGood(s, x, t, s'.pcs[t]);
    }
  }

  lemma PushStepGood(s: State, x: Aux, s': State, t: nat, e: Event) returns (x': Aux)
    requires Inv(s, x) && t < |s.pcs| && PushStep(s, s', t, e)
    ensures Inv(s', x') && EventOk(s, s', e)
  {
    match s.pcs[t]
    case Loaded(data, seen) =>
      var item: Addr :| item != NULL && item !in s.heap &&
        s' == s.(heap := s.heap[item := Node(seen, data)], pcs := s.pcs[t := Linked(item, data, seen)]);
      x' := AllocateGood(s, x, t, item);
    case Linked(item, data, seen) =>
      if s.head == seen {
        x' := PushGood(s, x, t);
      } else {
        x' := x;
        QuietGood(s, x, t, Relinking(item, data, s.head));
      }
    case Relinking(_, _, _) =>
      x' := x;
      RelinkGood(s, x, t);
  }

  lemma DrainStepGood(s: State, x: Aux, s': State, t: nat, e: Event) returns (x': Aux)
    requires Inv(s, x) && t < |s.pcs| && DrainStep(s, s', t, e)
    ensures Inv(s', x') && EventOk(s, s', e)
  {
    match s.pcs[t]
    case Exchanging => x' := ExchangeGood(s, x, t, s'.pcs[t]);
    case Taken(head, _, _) =>
      if s.heap[head].link == NULL {
        x' := x;
        SingleGood(s, x, t);
      } else {
        x' := CutGood(s, x, t);
      }
    case Reversing(_, _, _, _) => x' := ReverseGood(s, x, t);
    case Serving(head, _, _, _, _) =>
      if head == NULL {
        x' := x;
        assert x.mine[t] == Parts([], []);
        QuietGood(s, x, t, Idle);
      } else {
        x' := ServeGood(s, x, t);
      }
  }

  lemma NextGood(s: State, x: Aux, s': State, e: Event) returns (x': Aux)
    requires Inv(s, x) && Next(s, s', e)
    ensures Inv(s', x') && EventOk(s, s', e)
  {
    var t: nat, op: Op :| StepBy(s, s', t, op, e);
    if StartStep(s, s', t, op, e) {
      x' := StartGood(s, x, s', t, op, e);
    } else if PushStep(s, s', t, e) {
      x' := PushStepGood(s, x, s', t, e);
    } else {
      x' := DrainStepGood(s, x, s', t, e);
    }
  }

  lemma InitInv(s: State)
    requires Init(s)
    ensures Inv(s, Aux(map[], [], seq(|s.pcs|, i => Parts([], []))))
  {
  }

  lemma {:induction false} RunInv(run: seq<State>, events: seq<Event>, i: nat) returns (x: Aux)
    requires Run(run, events) && i < |run|
    ensures Inv(run[i], x)
  {
    if i == 0 {
      InitInv(run[0]);
      x := Aux(map[], [], seq(|run[0].pcs|, i => Parts([], [])));
    } else {
      var before := RunInv(run, events, i - 1);
      x := NextGood(run[i - 1], before, run[i], events[i - 1]);
    }
  }

  // ---------------------------------------------------------------- every run

  lemma StepEvent(run: seq<State>, events: seq<Event>, i: nat)
    requires Run(run, events) && i < |events|
    ensures EventOk(run[i], run[i + 1], events[i])
  {
    var x := RunInv(run, events, i);
    var x' := NextGood(run[i], x, run[i + 1], events[i]);
  }

  /** No thread ever follows a null or freed pointer. */
  lemma AccessesLive(run: seq<State>, events: seq<Event>, i: nat, t: nat)
    requires Run(run, events) && i < |run| && t < |run[i].pcs|
    ensures match run[i].pcs[t]
            case Relinking(item, _, _) => item != NULL && item in run[i].heap
            case Taken(head, _, _) => head != NULL && head in run[i].heap
            case Reversing(_, prev, _, _) => prev != NULL && prev in run[i].heap
            case Serving(head, _, _, _, _) => head != NULL ==> head in run[i].heap
            case _ => true
  {
    var x := RunInv(run, events, i);
  }

  /** push returns true exactly when every item pushed before it has been drained, that is, on an empty queue. */
  lemma PushResult(run: seq<State>, events: seq<Event>, i: nat)
    requires Run(run, events) && i < |events| && events[i].Pushed?
    ensures events[i].result <==> run[i].taken == |run[i].pushed|
    ensures run[i].head == NULL <==> run[i].taken == |run[i].pushed|
  {
    StepEvent(run, events, i);
    var x := RunInv(run, events, i);
  }

  /** What pop_all hands out is what it drained, oldest first; pop_all_reversed, newest first. */
  lemma Delivered(run: seq<State>, events: seq<Event>, i: nat)
    requires Run(run, events) && i < |events| && events[i].Returned?
    ensures var e := events[i];
            && e.from <= e.to <= |run[i].pushed|
            && e.items == if e.reversed then Reverse(run[i].pushed[e.from..e.to]) else run[i].pushed[e.from..e.to]
  {
    StepEvent(run, events, i);
  }

  /** The parts of the pushed items taken by the drains, put together in drain order. */
  function DrainedItems(events: seq<Event>, pushed: seq<Item>): seq<Item> {
    if events == [] then [] else
      var e := events[|events| - 1];
      DrainedItems(events[..|events| - 1], pushed)
      + if e.Drained? && e.from <= e.to <= |pushed| then pushed[e.from..e.to] else []
  }

  predicate DrainsWithin(events: seq<Event>, n: nat) {
    forall e :: e in events && e.Drained? ==> e.from <= e.to <= n
  }

  lemma {:induction false} DrainedItemsGrow(events: seq<Event>, pushed: seq<Item>, pushed': seq<Item>)
    requires pushed <= pushed' && DrainsWithin(events, |pushed|)
    ensures DrainedItems(events, pushed') == DrainedItems(events, pushed)
  {
    if events != [] {
      var e := events[|events| - 1];
      assert e in events;
      DrainedItemsGrow(events[..|events| - 1], pushed, pushed');
      if e.Drained? {
        assert pushed'[e.from..e.to] == pushed[e.from..e.to];
      }
    }
  }

  lemma TileStep(events: seq<Event>, s: State, s': State, e: Event)
    requires EventOk(s, s', e) && s.taken <= |s.pushed| && DrainsWithin(events, |s.pushed|)
    requires DrainedItems(events, s.pushed) == s.pushed[..s.taken]
    ensures s'.taken <= |s'.pushed| && DrainsWithin(events + [e], |s'.pushed|)
    ensures DrainedItems(events + [e], s'.pushed) == s'.pushed[..s'.taken]
  {
    DrainedItemsGrow(events, s.pushed, s'.pushed);
    assert (events + [e])[..|events|] == events;
    assert s'.pushed[..s.taken] == s.pushed[..s.taken];
  }

  /** The parts drained so far make up the first items pushed, each following the one before. */
  lemma {:induction false} DrainsTile(run: seq<State>, events: seq<Event>, i: nat)
    requires Run(run, events) && i <= |events|
    ensures run[i].taken <= |run[i].pushed| && DrainsWithin(events[..i], |run[i].pushed|)
    ensures DrainedItems(events[..i], run[i].pushed) == run[i].pushed[..run[i].taken]
  {
    if i > 0 {
      DrainsTile(run, events, i - 1);
      StepEvent(run, events, i - 1);
      TileStep(events[..i - 1], run[i - 1], run[i], events[i - 1]);
      assert events[..i] == events[..i - 1] + [events[i - 1]];
    }
  }

  // ---------------------------------------------------------------- every drain is served once

  datatype Job = None | Part(from: nat, to: nat)

  function PendingJob(pc: Pc): Job {
    if pc.Taken? || pc.Reversing? || pc.Serving? then Part(pc.from, pc.to) else None
  }

  function Pending(pcs: seq<Pc>): seq<Job> {
    seq(|pcs|, t requires 0 <= t < |pcs| => PendingJob(pcs[t]))
  }

  function DrainJob(e: Event): Job {
    if e.Drained? then Part(e.from, e.to) else None
  }

  function ReturnJob(e: Event): Job {
    if e.Returned? then Part(e.from, e.to) else None
  }

  function Once(a: Job, b: Job): nat {
    if a == b then 1 else 0
  }

  /** How often a job was taken up, and how often it was given up. */
  function Drains(events: seq<Event>, j: Job): nat {
    if events == [] then 0
    else Drains(events[..|events| - 1], j) + Once(DrainJob(events[|events| - 1]), j)
  }

  function Returns(events: seq<Event>, j: Job): nat {
    if events == [] then 0
    else Returns(events[..|events| - 1], j) + Once(ReturnJob(events[|events| - 1]), j)
  }

  lemma PendingUpdate(pcs: seq<Pc>, t: nat, pc: Pc, j: Job)
    requires t < |pcs|
    ensures multiset(Pending(pcs[t := pc]))[j] + Once(PendingJob(pcs[t]), j)
         == multiset(Pending(pcs))[j] + Once(PendingJob(pc), j)
  {
    assert Pending(pcs[t := pc]) == Pending(pcs)[t := PendingJob(pc)];
    assert Pending(pcs)[t] in Pending(pcs);
  }

  /** A thread takes up a job exactly when it drains and gives it up exactly when it returns. */
  predicate JobMoves(s: State, s': State, t: nat, e: Event)
    requires t < |s.pcs|
  {
    && |s'.pcs| == |s.pcs| && s'.pcs == s.pcs[t := s'.pcs[t]]
    && var before, after := PendingJob(s.pcs[t]), PendingJob(s'.pcs[t]);
       match e
       case Drained(from, to) =>
         before == None && after == Part(from, to) && from == s.taken && to == |s.pushed| == s'.taken
       case Returned(from, to, _, _) => before == Part(from, to) && after == None && s'.taken == s.taken
       case _ => before == after && s'.taken == s.taken
  }

  lemma StartJobs(s: State, s': State, t: nat, op: Op, e: Event)
    requires t < |s.pcs| && StartStep(s, s', t, op, e)
    ensures JobMoves(s, s', t, e)
  {
  }

  lemma PushJobs(s: State, s': State, t: nat, e: Event)
    requires t < |s.pcs| && PushStep(s, s', t, e)
    ensures JobMoves(s, s', t, e)
  {
  }

  lemma DrainJobs(s: State, s': State, t: nat, e: Event)
    requires t < |s.pcs| && DrainStep(s, s', t, e)
    ensures JobMoves(s, s', t, e)
  {
  }

  lemma JobOfStep(s: State, s': State, e: Event) returns (t: nat)
    requires Next(s, s', e)
    ensures t < |s.pcs| && JobMoves(s, s', t, e)
  {
    var u: nat, op: Op :| StepBy(s, s', u, op, e);
    t := u;
    if StartStep(s, s', t, op, e) {
      StartJobs(s, s', t, op, e);
    } else if PushStep(s, s', t, e) {
      PushJobs(s, s', t, e);
    } else {
      DrainJobs(s, s', t, e);
    }
  }

  lemma NextJobs(s: State, s': State, e: Event, j: Job)
    requires Next(s, s', e) && j != None
    ensures multiset(Pending(s.pcs))[j] + Once(DrainJob(e), j) == multiset(Pending(s'.pcs))[j] + Once(ReturnJob(e), j)
  {
    var t := JobOfStep(s, s', e);
    PendingUpdate(s.pcs, t, s'.pcs[t], j);
  }

  predicate Balanced(events: seq<Event>, pcs: seq<Pc>, j: Job) {
    Drains(events, j) == Returns(events, j) + multiset(Pending(pcs))[j]
  }

  lemma BalancedStep(events: seq<Event>, s: State, s': State, e: Event, j: Job)
    requires Balanced(events, s.pcs, j) && Next(s, s', e) && j != None
    ensures Balanced(events + [e], s'.pcs, j)
  {
    NextJobs(s, s', e, j);
    assert (events + [e])[..|events|] == events;
  }

  lemma BalancedInit(s: State, j: Job)
    requires Init(s) && j != None
    ensures Balanced([], s.pcs, j)
  {
    assert j !in Pending(s.pcs);
  }

  lemma RunPrefix(run: seq<State>, events: seq<Event>)
    requires Run(run, events) && events != []
    ensures Run(run[..|events|], events[..|events| - 1])
  {
  }

  /** A part that is not empty is drained at most once: the next drain starts after it. */
  lemma {:induction false} DrainedOnce(run: seq<State>, events: seq<Event>, j: Job, i: nat)
    requires Run(run, events) && j.Part? && j.from < j.to && i <= |events|
    ensures Drains(events[..i], j) <= if j.to <= run[i].taken then 1 else 0
  {
    if i > 0 {
      DrainedOnce(run, events, j, i - 1);
      DrainsTile(run, events, i - 1);
      var t := JobOfStep(run[i - 1], run[i], events[i - 1]);
      assert events[..i][..i - 1] == events[..i - 1];
    }
  }

  /**
   * Every drain is returned to exactly one caller or is still in the hands of exactly one thread, and a part that
   * is not empty is drained at most once.
   */
  lemma {:induction false} DrainsServedOnce(run: seq<State>, events: seq<Event>, j: Job)
    requires Run(run, events) && j != None
    ensures Balanced(events, run[|events|].pcs, j)
    ensures j.from < j.to ==> Drains(events, j) <= 1
    decreases |events|
  {
    if events == [] {
      BalancedInit(run[0], j);
    } else {
      var n := |events| - 1;
      RunPrefix(run, events);
      DrainsServedOnce(run[..n + 1], events[..n], j);
      BalancedStep(events[..n], run[n], run[n + 1], events[n], j);
      assert events == events[..n] + [events[n]];
    }
    if j.from < j.to {
      DrainedOnce(run, events, j, |events|);
      assert events[..|events|] == events;
    }
  }

  // ---------------------------------------------------------------- every item is delivered once

  /** Where a drained item is: in what an event returned, or in the hands of a thread. */
  datatype Place = Result(i: nat) | Hand(t: nat)

  predicate InJob(j: Job, n: nat) {
    j.Part? && j.from <= n < j.to
  }

  /** The place is responsible for item n. */
  predicate Covers(events: seq<Event>, pcs: seq<Pc>, w: Place, n: nat) {
    match w
    case Result(i) => i < |events| && InJob(ReturnJob(events[i]), n)
    case Hand(t) => t < |pcs| && InJob(PendingJob(pcs[t]), n)
  }

  ghost predicate Only(events: seq<Event>, pcs: seq<Pc>, w: Place, n: nat) {
    Covers(events, pcs, w, n) && forall v: Place :: Covers(events, pcs, v, n) ==> v == w
  }

  /** One place for a drained item, none for one still queued or not pushed yet. */
  ghost predicate Placed(events: seq<Event>, s: State, n: nat) {
    if n < s.taken then exists w: Place :: Only(events, s.pcs, w, n)
    else forall w: Place :: !Covers(events, s.pcs, w, n)
  }

  /** The place in which an item is after a step. */
  lemma PlaceMoves(events: seq<Event>, s: State, s': State, t: nat, e: Event, w: Place, n: nat)
    requires t < |s.pcs| && JobMoves(s, s', t, e) && s.taken <= |s.pushed|
    requires n < s.taken || n >= s'.taken
    ensures var w' := if e.Returned? && w == Hand(t) then Result(|events|) else w;
            Covers(events, s.pcs, w, n) ==> Covers(events + [e], s'.pcs, w', n)
    ensures Covers(events + [e], s'.pcs, w, n) ==>
              Covers(events, s.pcs, if e.Returned? && w == Result(|events|) then Hand(t) else w, n)
  {
    assert w.Result? && w.i < |events| ==> (events + [e])[w.i] == events[w.i];
  }

  lemma PlacedStep(events: seq<Event>, s: State, s': State, e: Event, n: nat)
    requires Placed(events, s, n) && Next(s, s', e) && s.taken <= |s.pushed|
    ensures Placed(events + [e], s', n)
  {
    var t := JobOfStep(s, s', e);
    if n < s.taken || n >= s'.taken {
      forall w: Place { PlaceMoves(events, s, s', t, e, w, n); }
      if n < s.taken {
        var w: Place :| Only(events, s.pcs, w, n);
        var w' := if e.Returned? && w == Hand(t) then Result(|events|) else w;
        assert Only(events + [e], s'.pcs, w', n);
      }
    } else {
      forall w: Place | Covers(events + [e], s'.pcs, w, n)
        ensures w == Hand(t)
      {
        assert !Covers(events, s.pcs, w, n);
      }
      assert Only(events + [e], s'.pcs, Hand(t), n);
    }
  }

  lemma {:induction false} AllPlaced(run: seq<State>, events: seq<Event>, n: nat)
    requires Run(run, events)
    ensures Placed(events, run[|events|], n)
    decreases |events|
  {
    if events != [] {
      var k := |events| - 1;
      RunPrefix(run, events);
      AllPlaced(run[..k + 1], events[..k], n);
      DrainsTile(run, events, k);
      PlacedStep(events[..k], run[k], run[k + 1], events[k], n);
      assert events == events[..k] + [events[k]];
    }
  }

  /** The lists a draining thread has in its hands. */
  predicate Lists(heap: map<Addr, Node>, pc: Pc, p: Parts) {
    && Distinct(p.done + p.rest)
    && match pc
       case Taken(head, _, _) => p.rest == [] && Chain(heap, head, p.done)
       case Reversing(head, prev, _, _) => Chain(heap, head, p.done) && Chain(heap, prev, p.rest)
       case Serving(head, _, _, _, _) => p.rest == [] && Chain(heap, head, p.done)
       case _ => false
  }

  function Upright(items: seq<Item>, reversed: bool): (r: seq<Item>)
    ensures |r| == |items|
  {
    if reversed then Reverse(items) else items
  }

  /** The items in those lists, and those already given to the caller, oldest first. */
  function InHand(heap: map<Addr, Node>, pc: Pc, p: Parts): seq<Item>
    requires Lists(heap, pc, p)
  {
    match pc
    case Taken(_, _, _) => Reverse(Data(heap, p.done))
    case Reversing(_, _, _, _) => Reverse(Data(heap, p.rest)) + Data(heap, p.done)
    case Serving(_, got, _, _, reversed) => Upright(got + Data(heap, p.done), reversed)
  }

  /** A place holds item n: it is in the list of the thread, or in the items returned, at its own position. */
  ghost predicate Holds(events: seq<Event>, s: State, w: Place, n: nat)
    requires Covers(events, s.pcs, w, n) && n < |s.pushed|
  {
    match w
    case Result(i) =>
      var items := Upright(events[i].items, events[i].reversed);
      |items| == events[i].to - events[i].from && items[n - events[i].from] == s.pushed[n]
    case Hand(t) =>
      var pc := s.pcs[t];
      exists p: Parts :: Lists(s.heap, pc, p) && |InHand(s.heap, pc, p)| == pc.to - pc.from
                         && InHand(s.heap, pc, p)[n - pc.from] == s.pushed[n]
  }

  lemma ThreadHolds(heap: map<Addr, Node>, pushed: seq<Item>, pc: Pc, p: Parts)
    requires ThreadOk(heap, pushed, pc, p) && PendingJob(pc).Part? && Distinct(p.done + p.rest)
    ensures Lists(heap, pc, p) && pc.from <= pc.to <= |pushed| && InHand(heap, pc, p) == pushed[pc.from..pc.to]
  {
    if pc.Serving? {
      ReverseTwice(pushed[pc.from..pc.to]);
    }
  }

  lemma {:induction false} PushedGrows(run: seq<State>, events: seq<Event>, i: nat, k: nat)
    requires Run(run, events) && i <= k <= |events|
    ensures run[i].pushed <= run[k].pushed
    decreases k
  {
    if i < k {
      PushedGrows(run, events, i, k - 1);
      StepEvent(run, events, k - 1);
    }
  }

  /** What a call returned, put right, is its part of all the items pushed. */
  lemma ReturnedPart(run: seq<State>, events: seq<Event>, i: nat, k: nat)
    requires Run(run, events) && i < k <= |events| && events[i].Returned?
    ensures var e := events[i];
            e.from <= e.to <= |run[k].pushed| && Upright(e.items, e.reversed) == run[k].pushed[e.from..e.to]
  {
    var e := events[i];
    Delivered(run, events, i);
    PushedGrows(run, events, i, k);
    assert run[k].pushed[e.from..e.to] == run[i].pushed[e.from..e.to];
    ReverseTwice(run[i].pushed[e.from..e.to]);
  }

  lemma CoveredIsHeld(run: seq<State>, events: seq<Event>, w: Place, n: nat)
    requires Run(run, events) && Covers(events, run[|events|].pcs, w, n)
    ensures n < |run[|events|].pushed| && Holds(events, run[|events|], w, n)
  {
    var k := |events|;
    match w
    case Result(i) => ReturnedPart(run, events, i, k);
    case Hand(t) =>
      var x := RunInv(run, events, k);
      ThreadHolds(run[k].heap, run[k].pushed, run[k].pcs[t], x.mine[t]);
  }

  /**
   * Exactly once: every drained item is in the items of one returned event, at its own position, or in the lists
   * of one thread, and nowhere else; an item that is not drained is in none.
   */
  lemma ExactlyOnce(run: seq<State>, events: seq<Event>, n: nat)
    requires Run(run, events)
    ensures var s := run[|events|];
            && (n < s.taken ==>
                  exists w: Place :: Only(events, s.pcs, w, n) && n < |s.pushed| && Holds(events, s, w, n))
            && (n >= s.taken ==> forall w: Place :: !Covers(events, s.pcs, w, n))
  {
    AllPlaced(run, events, n);
    var s := run[|events|];
    if n < s.taken {
      var w: Place :| Only(events, s.pcs, w, n);
      CoveredIsHeld(run, events, w, n);
    }
  }

  /** The items the caller of a drained part was given, oldest first. */
  function Given(events: seq<Event>, from: nat, to: nat): seq<Item> {
    if events == [] then [] else
      var e := events[|events| - 1];
      if ReturnJob(e) == Part(from, to) then Upright(e.items, e.reversed) else Given(events[..|events| - 1], from, to)
  }

  /** What was given for each of the drains, put together in drain order. */
  function GivenInOrder(drains: seq<Event>, events: seq<Event>): seq<Item> {
    if drains == [] then [] else
      var e := drains[|drains| - 1];
      GivenInOrder(drains[..|drains| - 1], events) + if e.Drained? then Given(events, e.from, e.to) else []
  }

  lemma {:induction false} GivenFound(run: seq<State>, events: seq<Event>, from: nat, to: nat, i: nat)
    requires Run(run, events) && i <= |events| && from <= to <= |run[|events|].pushed|
    requires from < to ==> Returns(events[..i], Part(from, to)) > 0
    ensures Given(events[..i], from, to) == run[|events|].pushed[from..to]
  {
    if i > 0 {
      assert events[..i][..i - 1] == events[..i - 1];
      if ReturnJob(events[i - 1]) == Part(from, to) {
        ReturnedPart(run, events, i - 1, |events|);
      } else {
        GivenFound(run, events, from, to, i - 1);
      }
    }
  }

  lemma {:induction false} DrainCounted(events: seq<Event>, i: nat)
    requires i < |events| && events[i].Drained?
    ensures Drains(events, Part(events[i].from, events[i].to)) > 0
  {
    if i < |events| - 1 {
      DrainCounted(events[..|events| - 1], i);
    }
  }

  /** With nothing in hand, the caller of every drain was given the part it drained. */
  lemma DrainGiven(run: seq<State>, events: seq<Event>, i: nat)
    requires Run(run, events) && i < |events| && events[i].Drained?
    requires forall t :: 0 <= t < |run[|events|].pcs| ==> PendingJob(run[|events|].pcs[t]) == None
    ensures var e, pushed := events[i], run[|events|].pushed;
            e.from <= e.to <= |pushed| && Given(events, e.from, e.to) == pushed[e.from..e.to]
  {
    var e, k := events[i], |events|;
    DrainsTile(run, events, k);
    assert events[..k] == events;
    DrainsServedOnce(run, events, Part(e.from, e.to));
    DrainCounted(events, i);
    GivenFound(run, events, e.from, e.to, k);
  }

  lemma {:induction false} GivenIsDrained(run: seq<State>, events: seq<Event>, i: nat)
    requires Run(run, events) && i <= |events|
    requires forall t :: 0 <= t < |run[|events|].pcs| ==> PendingJob(run[|events|].pcs[t]) == None
    ensures GivenInOrder(events[..i], events) == DrainedItems(events[..i], run[|events|].pushed)
  {
    if i > 0 {
      assert events[..i][..i - 1] == events[..i - 1];
      GivenIsDrained(run, events, i - 1);
      if events[i - 1].Drained? {
        DrainGiven(run, events, i - 1);
      }
    }
  }

  /** In order: with nothing in hand, what the callers were given, in drain order, is what was pushed and drained. */
  lemma DeliveredInOrder(run: seq<State>, events: seq<Event>)
    requires Run(run, events)
    requires forall t :: 0 <= t < |run[|events|].pcs| ==> PendingJob(run[|events|].pcs[t]) == None
    ensures var s := run[|events|];
            s.taken <= |s.pushed| && GivenInOrder(events, events) == s.pushed[..s.taken]
  {
    GivenIsDrained(run, events, |events|);
    DrainsTile(run, events, |events|);
    assert events[..|events|] == events;
  }
}
