/**
 * What the calls of the multi-producer queue do (lf_queue in Utilities/lockless.h): the runs of LfQueue with the calls
 * their steps carry out, and that a call gets through when no other thread steps in.
 */
module QueueCalls {
  import Arith
  import opened LfQueue

  // ---------------------------------------------------------------- traces

  /** Whose step it is, and what it calls if it is between calls. */
  datatype Label = Label(t: nat, op: Op)

  ghost predicate StepAt(run: seq<State>, labels: seq<Label>, events: seq<Event>, i: nat) {
    && i < |labels| && i < |events| && i + 1 < |run|
    && StepBy(run[i], run[i + 1], labels[i].t, labels[i].op, events[i])
  }

  ghost predicate Trace(run: seq<State>, labels: seq<Label>, events: seq<Event>) {
    && |run| == |labels| + 1 == |events| + 1 && Init(run[0])
    && forall i: nat :: i < |labels| ==> StepAt(run, labels, events, i)
  }

  /** Every run is a trace without its labels. */
  lemma {:induction false} RunIsTrace(run: seq<State>, events: seq<Event>) returns (labels: seq<Label>)
    requires Run(run, events)
    ensures Trace(run, labels, events)
    decreases |events|
  {
    labels := [];
    if events != [] {
      var n := |events| - 1;
      RunPrefix(run, events);
      labels := RunIsTrace(run[..n + 1], events[..n]);
      assert Next(run[n], run[n + 1], events[n]);
      var t: nat, op: Op :| StepBy(run[n], run[n + 1], t, op, events[n]);
      var labels' := labels + [Label(t, op)];
      forall i: nat | i < |labels'|
        ensures StepAt(run, labels', events, i)
      {
        assert i < n ==> StepAt(run[..n + 1], labels, events[..n], i);
      }
      labels := labels';
    }
  }

  lemma TraceIsRun(run: seq<State>, labels: seq<Label>, events: seq<Event>)
    requires Trace(run, labels, events)
    ensures Run(run, events)
  {
    forall i | 0 <= i < |events|
      ensures Next(run[i], run[i + 1], events[i])
    {
      assert StepAt(run, labels, events, i);
    }
  }

  // ---------------------------------------------------------------- calls

  datatype Call = NoCall | Doing(op: Op)

  function PcOf(s: State, t: nat): Pc {
    if t < |s.pcs| then s.pcs[t] else Idle
  }

  /** The call thread t has made and not returned from after i steps. */
  function CallOf(run: seq<State>, labels: seq<Label>, t: nat, i: nat): Call
    requires i <= |labels| < |run|
  {
    if i == 0 || PcOf(run[i], t) == Idle then NoCall
    else if PcOf(run[i - 1], t) == Idle && labels[i - 1].t == t then Doing(labels[i - 1].op)
    else CallOf(run, labels, t, i - 1)
  }

  /** The call that step i carries out. */
  function CallAt(run: seq<State>, labels: seq<Label>, i: nat): Call
    requires i < |labels| < |run|
  {
    var l := labels[i];
    if PcOf(run[i], l.t) == Idle then Doing(l.op) else CallOf(run, labels, l.t, i)
  }

  predicate Serves(pc: Pc, c: Call) {
    match pc
    case Idle => c == NoCall
    case Loaded(data, _) => c == Doing(Push(data))
    case Linked(_, data, _) => c == Doing(Push(data))
    case Relinking(_, data, _) => c == Doing(Push(data))
    case Exchanging | Taken(_, _, _) | Reversing(_, _, _, _) => c == Doing(PopAll)
    case Serving(_, _, _, _, reversed) => c == Doing(if reversed then PopAllReversed else PopAll)
  }

  lemma {:induction false} CallServed(run: seq<State>, labels: seq<Label>, events: seq<Event>, t: nat, i: nat)
    requires Trace(run, labels, events) && i <= |labels|
    ensures Serves(PcOf(run[i], t), CallOf(run, labels, t, i))
  {
    if i > 0 {
      CallServed(run, labels, events, t, i - 1);
      assert StepAt(run, labels, events, i - 1);
    }
  }

  /** What a step shows of the call it carries out; `done` if the call returns in it. */
  predicate Answers(c: Call, s: State, s': State, e: Event, done: bool) {
    && c.Doing?
    && match c.op
       case Push(data) =>
         && (done <==> e.Pushed?) && (done || e == Internal)
         && (done ==> e.data == data && s'.pushed == s.pushed + [data])
       case PopAll =>
         && (done <==> e.FoundEmpty? || e.Returned?) && (done || e == Internal || e.Drained?)
         && (e.FoundEmpty? ==> s.taken == |s.pushed|) && (e.Returned? ==> !e.reversed)
       case PopAllReversed =>
         && (done <==> e.Returned?) && (done || e == Internal || e.Drained?) && (e.Returned? ==> e.reversed)
  }

  /**
   * A push returns when its item has become the last one pushed; pop_all returns what it drained, or without draining
   * only when nothing was queued; pop_all_reversed always returns what it drained, in the other order.
   */
  lemma CallsAnswered(run: seq<State>, labels: seq<Label>, events: seq<Event>, i: nat)
    requires Trace(run, labels, events) && i < |labels|
    ensures Answers(CallAt(run, labels, i), run[i], run[i + 1], events[i], PcOf(run[i + 1], labels[i].t) == Idle)
  {
    CallServed(run, labels, events, labels[i].t, i);
    TraceIsRun(run, labels, events);
    StepEvent(run, events, i);
    assert StepAt(run, labels, events, i);
  }

  // ---------------------------------------------------------------- calls get through

  function PushRank(s: State, t: nat): nat
    requires t < |s.pcs|
  {
    match s.pcs[t]
    case Loaded(_, seen) => if seen == s.head then 2 else 4
    case Linked(_, _, seen) => if seen == s.head then 1 else 3
    case Relinking(_, _, seen) => if seen == s.head then 2 else 4
    case _ => 0
  }

  /** A pusher can always step, and with nobody else stepping returns in at most four steps. */
  lemma PushGetsThrough(s: State, x: Aux, t: nat) returns (s': State, e: Event)
    requires Inv(s, x) && t < |s.pcs| && (s.pcs[t].Loaded? || s.pcs[t].Linked? || s.pcs[t].Relinking?)
    ensures PushStep(s, s', t, e)
    ensures if e.Pushed? then s'.pcs[t] == Idle else |s'.pcs| == |s.pcs| && 0 < PushRank(s', t) < PushRank(s, t) <= 4
  {
    e := Internal;
    match s.pcs[t]
    case Loaded(data, seen) =>
      var item := Arith.Unused(s.heap.Keys);
      s' := s.(heap := s.heap[item := Node(seen, data)], pcs := s.pcs[t := Linked(item, data, seen)]);
    case Linked(item, data, seen) =>
      if s.head == seen {
        e := Pushed(data, seen == NULL);
        s' := s.(head := item, pcs := s.pcs[t := Idle], pushed := s.pushed + [data]);
      } else {
        s' := s.(pcs := s.pcs[t := Relinking(item, data, s.head)]);
      }
    case Relinking(item, data, seen) =>
      s' := s.(heap := s.heap[item := s.heap[item].(link := seen)], pcs := s.pcs[t := Linked(item, data, seen)]);
  }

  /** The steps a drainer still needs: nodes to turn around, nodes to hand out, and the return. */
  function DrainRank(pc: Pc, p: Parts): nat {
    match pc
    case Taken(_, _, _) => 2 * |p.done| + 1
    case Reversing(_, _, _, _) => 2 * |p.rest| + |p.done| + 1
    case Serving(_, _, _, _, _) => |p.done| + 1
    case _ => 0
  }

  lemma TakenCloser(s: State, x: Aux, t: nat) returns (s': State, p: Parts)
    requires Inv(s, x) && t < |s.pcs| && s.pcs[t].Taken?
    ensures DrainStep(s, s', t, Internal) && |s'.pcs| == |s.pcs| && ThreadOk(s'.heap, s'.pushed, s'.pcs[t], p)
    ensures 0 < DrainRank(s'.pcs[t], p) < DrainRank(s.pcs[t], x.mine[t])
  {
    var c, nodes := s.pcs[t], x.mine[t].done;
    assert nodes + x.mine[t].rest == nodes;
    ChainTail(s.heap, c.head, nodes);
    var prev := s.heap[c.head].link;
    if prev == NULL {
      s', p := s.(pcs := s.pcs[t := Serving(c.head, [], c.from, c.to, false)]), x.mine[t];
      assert nodes == [c.head];
      assert Data(s.heap, nodes) == Reverse(Data(s.heap, nodes));
    } else {
      CutChain(s.heap, c.head, nodes);
      p := Parts([c.head], nodes[1..]);
      s' := s.(heap := SetLink(s.heap, c.head, NULL), pcs := s.pcs[t := Reversing(c.head, prev, c.from, c.to)]);
    }
  }

  lemma ReversingCloser(s: State, x: Aux, t: nat) returns (s': State, p: Parts)
    requires Inv(s, x) && t < |s.pcs| && s.pcs[t].Reversing?
    ensures DrainStep(s, s', t, Internal) && |s'.pcs| == |s.pcs| && ThreadOk(s'.heap, s'.pushed, s'.pcs[t], p)
    ensures 0 < DrainRank(s'.pcs[t], p) < DrainRank(s.pcs[t], x.mine[t])
  {
    var c, q := s.pcs[t], x.mine[t];
    MoveNode(s.heap, c.head, c.prev, q.done, q.rest);
    var pprev, h := s.heap[c.prev].link, SetLink(s.heap, c.prev, c.head);
    p := Parts([c.prev] + q.done, q.rest[1..]);
    if pprev == NULL {
      s' := s.(heap := h, pcs := s.pcs[t := Serving(c.prev, [], c.from, c.to, false)]);
      assert p.rest == [];
      assert [] + Data(h, p.done) == Reverse(Data(h, p.rest)) + Data(h, p.done);
    } else {
      s' := s.(heap := h, pcs := s.pcs[t := Reversing(c.prev, pprev, c.from, c.to)]);
    }
  }

  /** A drainer can always step, and each of its steps brings it closer to its return. */
  lemma DrainGetsThrough(s: State, x: Aux, t: nat) returns (s': State, e: Event, p: Parts)
    requires Inv(s, x) && t < |s.pcs| && PendingJob(s.pcs[t]) != None
    ensures DrainStep(s, s', t, e) && |s'.pcs| == |s.pcs|
    ensures if e.Returned? then s'.pcs[t] == Idle
            else && ThreadOk(s'.heap, s'.pushed, s'.pcs[t], p)
                 && 0 < DrainRank(s'.pcs[t], p) < DrainRank(s.pcs[t], x.mine[t])
  {
    e, p := Internal, Parts([], []);
    match s.pcs[t]
    case Taken(_, _, _) => s', p := TakenCloser(s, x, t);
    case Reversing(_, _, _, _) => s', p := ReversingCloser(s, x, t);
    case Serving(head, got, from, to, reversed) =>
      if head == NULL {
        s', e := s.(pcs := s.pcs[t := Idle]), Returned(from, to, got, reversed);
      } else {
        var q := x.mine[t];
        assert q.done + q.rest == q.done;
        ServeNode(s.heap, s.pushed, s.pcs[t], q);
        s', p := s.(heap := s.heap - {head}, pcs := s.pcs[t := Served(s.heap, s.pcs[t])]), Parts(q.done[1..], []);
      }
  }
}
