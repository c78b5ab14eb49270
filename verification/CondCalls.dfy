/**
 * What the calls of the condition variable do (Utilities/cond.h, Utilities/cond.cpp): the runs of CondVar with the
 * calls their steps carry out, from the call to its return.
 */
module CondCalls {
  import opened CondVar

  // ---------------------------------------------------------------- traces

  /** Whose step it is. */
  datatype Label = Acts(t: nat, op: Op) | Delivers(t: nat)

  ghost predicate StepBy(s: State, s': State, l: Label) {
    match l
    case Acts(t, op) => Access(s, s', t, op)
    case Delivers(t) => Deliver(s, s', t)
  }

  ghost predicate StepAt(run: seq<State>, labels: seq<Label>, i: nat) {
    i < |labels| && i + 1 < |run| && StepBy(run[i], run[i + 1], labels[i])
  }

  /** A run with the thread and the operation of every step. */
  ghost predicate Trace(run: seq<State>, labels: seq<Label>) {
    && |run| == |labels| + 1 && Init(run[0])
    && forall i: nat :: i < |labels| ==> StepAt(run, labels, i)
  }

  lemma StepHasLabel(s: State, s': State) returns (l: Label)
    requires Next(s, s')
    ensures StepBy(s, s', l)
  {
    if t: nat, op :| Access(s, s', t, op) {
      l := Acts(t, op);
    } else {
      var t: nat :| Deliver(s, s', t);
      l := Delivers(t);
    }
  }

  /** Every run is a trace without its labels. */
  lemma {:induction false} RunIsTrace(run: seq<State>) returns (labels: seq<Label>)
    requires Run(run)
    ensures Trace(run, labels)
    decreases |run|
  {
    labels := [];
    if |run| > 1 {
      var n := |run| - 2;
      labels := RunIsTrace(run[..n + 1]);
      var l := StepHasLabel(run[n], run[n + 1]);
      forall i: nat | i < |labels + [l]|
        ensures StepAt(run, labels + [l], i)
      {
        assert i < n ==> StepAt(run[..n + 1], labels, i);
      }
      labels := labels + [l];
    }
  }

  lemma TraceIsRun(run: seq<State>, labels: seq<Label>)
    requires Trace(run, labels)
    ensures Run(run)
  {
    forall i | 0 <= i < |run| - 1
      ensures Next(run[i], run[i + 1])
    {
      assert StepAt(run, labels, i);
    }
  }

  function PcOf(s: State, t: nat): Pc {
    if t < |s.pcs| then s.pcs[t] else Idle
  }

  /** Thread t makes the call in step j and is in it until after step k. */
  predicate InCall(run: seq<State>, labels: seq<Label>, t: nat, op: Op, j: nat, k: nat) {
    && j <= k < |labels| < |run| && labels[j] == Acts(t, op) && PcOf(run[j], t) == Idle
    && forall i :: j < i <= k ==> PcOf(run[i], t) != Idle
  }

  // ---------------------------------------------------------------- wait

  /** wait registers the caller, expecting the word it leaves, exactly if neither field is full; else it returns. */
  lemma WaitRegisters(run: seq<State>, labels: seq<Label>, t: nat, j: nat)
    requires Trace(run, labels) && InCall(run, labels, t, Wait, j, j)
    ensures if Signals(run[j].word) == MAX_SIGNALS || Waiters(run[j].word) == C_WAITER_MASK
            then run[j + 1] == run[j]
            else Expects(run[j + 1], t, run[j + 1].word) && run[j + 1].word == run[j].word + 1
  {
    assert StepAt(run, labels, j);
    TraceIsRun(run, labels);
    RunInv(run, j);
  }

  /** A caller inside wait is registered, so it returns only by giving its registration up. */
  lemma {:induction false} WaiterRegistered(run: seq<State>, labels: seq<Label>, t: nat, j: nat, k: nat)
    requires Trace(run, labels) && InCall(run, labels, t, Wait, j, k) && j < k
    ensures Expects(run[k], t, run[j + 1].word)
    decreases k
  {
    assert PcOf(run[k], t) != Idle;
    assert StepAt(run, labels, k - 1);
    if j + 1 < k {
      WaiterRegistered(run, labels, t, j, k - 1);
    }
  }

  /** Awake, it returns in at most two steps of its own, whatever the word and the other threads. */
  lemma WaitGetsThrough(pc: Pc, word: nat, word': nat)
    requires pc.Waiting? || pc.Leaving?
    ensures var o := After(pc, word, Go); o.pc == Idle || After(o.pc, word', Go).pc == Idle
  {
  }

  // ---------------------------------------------------------------- notify_one and notify_all

  function SleepFlags(pcs: seq<Pc>): seq<bool> {
    seq(|pcs|, t requires 0 <= t < |pcs| => pcs[t].Asleep?)
  }

  /** How many threads are asleep. */
  function Sleepers(s: State): nat {
    Count(SleepFlags(s.pcs))
  }

  lemma OneWoken(pcs: seq<Pc>, t: nat, u: nat)
    requires t < |pcs| && pcs[t].Delivering? && u < |pcs| && pcs[u].Asleep?
    ensures Count(SleepFlags(pcs[t := Idle][u := Awoken(pcs[u])])) + 1 == Count(SleepFlags(pcs))
  {
    var flags := SleepFlags(pcs);
    assert SleepFlags(pcs[t := Idle][u := Awoken(pcs[u])]) == flags[u := false];
    CountSplit(flags, u, false);
  }

  lemma NoneAsleep(pcs: seq<Pc>)
    ensures Count(SleepFlags(pcs)) == 0 <==> !SomeAsleep(pcs)
  {
    var flags := SleepFlags(pcs);
    assert true in flags <==> SomeAsleep(pcs) by {
      forall t | 0 <= t < |pcs|
        ensures flags[t] == pcs[t].Asleep?
      {
      }
    }
  }

  /** A delivery to all leaves nobody asleep; a delivery to one wakes one sleeper if there is one. */
  lemma DeliveryWakes(s: State, s': State, n: nat)
    requires Deliver(s, s', n)
    ensures Sleepers(s') == if s.pcs[n].all || Sleepers(s) == 0 then 0 else Sleepers(s) - 1
  {
    NoneAsleep(s.pcs);
    NoneAsleep(s'.pcs);
    if s.pcs[n].all {
      assert !SomeAsleep(s'.pcs);
    } else if SomeAsleep(s.pcs) {
      var u: nat :| u < |s.pcs| && s.pcs[u].Asleep? && s' == s.(pcs := s.pcs[n := Idle][u := Awoken(s.pcs[u])]);
      OneWoken(s.pcs, n, u);
    } else {
      assert SleepFlags(s'.pcs) == SleepFlags(s.pcs);
    }
  }

  /** In step a thread n adds a signal. */
  ghost predicate SignalAdded(run: seq<State>, labels: seq<Label>, n: nat, a: nat) {
    && a < |labels| && a + 1 < |run| && labels[a] == Acts(n, Go) && WakeStep(run[a], run[a + 1])
    && Signals(run[a + 1].word) == Signals(run[a].word) + 1
  }

  /** Where a notifier is: about to add its signal, or about to deliver to all or to one. */
  ghost predicate OnTheWay(run: seq<State>, labels: seq<Label>, n: nat, op: Op, j: nat, i: nat)
    requires i < |run|
  {
    match PcOf(run[i], n)
    case Waking(count) => count > 0 && (count > 1 <==> op == NotifyAll)
    case Delivering(all) =>
      exists a :: j < a < i && SignalAdded(run, labels, n, a)
                  && (all <==> op == NotifyAll || Signals(run[a + 1].word) == MAX_SIGNALS)
    case _ => false
  }

  lemma NotifyBegins(run: seq<State>, labels: seq<Label>, n: nat, op: Op, j: nat)
    requires Trace(run, labels) && InCall(run, labels, n, op, j, j) && (op == NotifyOne || op == NotifyAll)
    ensures run[j + 1].word == run[j].word
    ensures if run[j].word == 0 then run[j + 1] == run[j] else OnTheWay(run, labels, n, op, j, j + 1)
  {
    assert StepAt(run, labels, j);
  }

  /** The access of imp_wake: no signal if nobody is registered or the field is full, else one more. */
  lemma WakeAccess(run: seq<State>, labels: seq<Label>, n: nat, a: nat)
    requires Trace(run, labels) && a < |labels| && labels[a].t == n && PcOf(run[a], n).Waking?
    requires PcOf(run[a], n).count > 0
    ensures labels[a] == Acts(n, Go)
    ensures if run[a].word == 0 || Signals(run[a].word) == MAX_SIGNALS
            then PcOf(run[a + 1], n) == Idle && run[a + 1].word == run[a].word
            else && SignalAdded(run, labels, n, a)
                 && PcOf(run[a + 1], n)
                    == Delivering(PcOf(run[a], n).count > 1 || Signals(run[a + 1].word) == MAX_SIGNALS)
  {
    assert StepAt(run, labels, a);
    TraceIsRun(run, labels);
    RunInv(run, a);
  }

  lemma NotifyStep(run: seq<State>, labels: seq<Label>, n: nat, op: Op, j: nat, i: nat)
    requires Trace(run, labels) && j < i < |labels| && OnTheWay(run, labels, n, op, j, i)
    ensures PcOf(run[i + 1], n) == Idle || OnTheWay(run, labels, n, op, j, i + 1)
  {
    assert StepAt(run, labels, i);
    if labels[i].t == n && PcOf(run[i], n).Waking? {
      WakeAccess(run, labels, n, i);
    }
  }

  lemma {:induction false} NotifyProgress(run: seq<State>, labels: seq<Label>, n: nat, op: Op, j: nat, k: nat)
    requires Trace(run, labels) && InCall(run, labels, n, op, j, k) && (op == NotifyOne || op == NotifyAll) && j < k
    ensures OnTheWay(run, labels, n, op, j, k)
    decreases k
  {
    assert PcOf(run[k], n) != Idle;
    if j + 1 < k {
      NotifyProgress(run, labels, n, op, j, k - 1);
      NotifyStep(run, labels, n, op, j, k - 1);
    } else {
      assert InCall(run, labels, n, op, j, j);
      NotifyBegins(run, labels, n, op, j);
    }
  }

  /**
   * How a notify call returns in step k: having added a signal and woken every sleeper, or one if there was one when
   * the call is notify_one and its signal did not fill the field; or with nothing to do, because nobody is registered
   * or the field is full.
   */
  ghost predicate NotifyDone(run: seq<State>, labels: seq<Label>, n: nat, op: Op, j: nat, k: nat)
    requires k + 1 < |run|
  {
    if PcOf(run[k], n).Delivering?
    then exists a :: && j < a < k && SignalAdded(run, labels, n, a)
                     && Sleepers(run[k + 1])
                        == if op == NotifyAll || Signals(run[a + 1].word) == MAX_SIGNALS || Sleepers(run[k]) == 0 then 0
                           else Sleepers(run[k]) - 1
    else && (run[k].word == 0 || Signals(run[k].word) == MAX_SIGNALS)
         && run[k + 1].word == run[k].word && Sleepers(run[k + 1]) == Sleepers(run[k])
  }

  /** An access changes no other thread. */
  lemma AccessWakesNobody(run: seq<State>, labels: seq<Label>, i: nat)
    requires Trace(run, labels) && i < |labels| && labels[i].Acts? && !PcOf(run[i], labels[i].t).Asleep?
    requires !PcOf(run[i + 1], labels[i].t).Asleep?
    ensures Sleepers(run[i + 1]) == Sleepers(run[i])
  {
    assert StepAt(run, labels, i);
    assert SleepFlags(run[i + 1].pcs) == SleepFlags(run[i].pcs);
  }

  lemma ReturnIsOwn(run: seq<State>, labels: seq<Label>, n: nat, k: nat)
    requires Trace(run, labels) && k < |labels| && PcOf(run[k], n) != Idle && PcOf(run[k + 1], n) == Idle
    ensures labels[k].t == n && (PcOf(run[k], n).Delivering? <==> labels[k] == Delivers(n))
  {
    assert StepAt(run, labels, k);
  }

  /** What a notify call has done when it returns. */
  lemma NotifyReturns(run: seq<State>, labels: seq<Label>, n: nat, op: Op, j: nat, k: nat)
    requires Trace(run, labels) && InCall(run, labels, n, op, j, k) && (op == NotifyOne || op == NotifyAll)
    requires PcOf(run[k + 1], n) == Idle
    ensures NotifyDone(run, labels, n, op, j, k)
  {
    if j == k {
      NotifyBegins(run, labels, n, op, j);
    } else {
      NotifyProgress(run, labels, n, op, j, k);
      assert PcOf(run[k], n) != Idle;
      ReturnIsOwn(run, labels, n, k);
      if PcOf(run[k], n).Delivering? {
        assert StepAt(run, labels, k);
        DeliveryWakes(run[k], run[k + 1], n);
      } else {
        WakeAccess(run, labels, n, k);
        AccessWakesNobody(run, labels, k);
      }
    }
  }

  /** The sleepers woken by the steps of thread n from j on and before k. */
  function WokenBy(run: seq<State>, labels: seq<Label>, n: nat, j: nat, k: nat): int
    requires j <= k <= |labels| < |run|
    decreases k
  {
    if j == k then 0 else
      WokenBy(run, labels, n, j, k - 1) + if labels[k - 1].t == n then Sleepers(run[k - 1]) - Sleepers(run[k]) else 0
  }

  lemma StaysQuiet(run: seq<State>, labels: seq<Label>, n: nat, op: Op, j: nat, i: nat)
    requires Trace(run, labels) && InCall(run, labels, n, op, j, i) && (op == NotifyOne || op == NotifyAll)
    requires labels[i].t == n && PcOf(run[i + 1], n) != Idle
    ensures Sleepers(run[i + 1]) == Sleepers(run[i])
  {
    if j == i {
      NotifyBegins(run, labels, n, op, j);
    } else {
      NotifyProgress(run, labels, n, op, j, i);
      NotifyStep(run, labels, n, op, j, i);
    }
    assert StepAt(run, labels, i);
    AccessWakesNobody(run, labels, i);
  }

  lemma {:induction false} NoneWokenYet(run: seq<State>, labels: seq<Label>, n: nat, op: Op, j: nat, k: nat)
    requires Trace(run, labels) && InCall(run, labels, n, op, j, k) && (op == NotifyOne || op == NotifyAll)
    ensures WokenBy(run, labels, n, j, k) == 0
    decreases k
  {
    if j < k {
      NoneWokenYet(run, labels, n, op, j, k - 1);
      assert PcOf(run[k], n) != Idle;
      if labels[k - 1].t == n {
        StaysQuiet(run, labels, n, op, j, k - 1);
      }
    }
  }

  /**
   * notify_one wakes one sleeper if there is one when it delivers, and no more than one, unless its signal fills the
   * field; without a signal of its own it wakes nobody.
   */
  lemma NotifyOneWakes(run: seq<State>, labels: seq<Label>, n: nat, j: nat, k: nat)
    requires Trace(run, labels) && InCall(run, labels, n, NotifyOne, j, k) && PcOf(run[k + 1], n) == Idle
    ensures var woken := WokenBy(run, labels, n, j, k + 1);
            if PcOf(run[k], n).Delivering?
            then || woken == (if Sleepers(run[k]) == 0 then 0 else 1)
                 || exists a :: j < a < k && SignalAdded(run, labels, n, a) && Signals(run[a + 1].word) == MAX_SIGNALS
            else woken == 0 && (run[k].word == 0 || Signals(run[k].word) == MAX_SIGNALS)
  {
    NoneWokenYet(run, labels, n, NotifyOne, j, k);
    NotifyReturns(run, labels, n, NotifyOne, j, k);
    if j < k {
      assert PcOf(run[k], n) != Idle;
      ReturnIsOwn(run, labels, n, k);
    }
  }

  lemma FullFieldDelivers(run: seq<State>, t: nat, expected: nat, k: nat, m: nat)
    requires Run(run) && StaysRegistered(run, t, expected, k, m) && Signals(run[k].word) == MAX_SIGNALS
    ensures Expects(run[m], t, expected)
    ensures run[m].pcs[t].Asleep? ==> exists d :: 0 <= d < |run[m].pcs| && run[m].pcs[d] == Delivering(true)
  {
    FieldStaysFull(run, t, expected, k, m);
    assert Expects(run[m], t, expected);
    if run[m].pcs[t].Asleep? {
      var d := FullFieldWakesAll(run, m, t);
    }
  }

  lemma AwakeAfterDelivery(run: seq<State>, n: nat, t: nat, expected: nat, a: nat, k: nat, m: nat)
    requires Run(run) && a < k < m && StaysRegistered(run, t, expected, a, m) && WakeStep(run[a], run[a + 1])
    requires n < |run[k].pcs| && run[k].pcs[n] == Delivering(true) && PcOf(run[k + 1], n) == Idle
    ensures t < |run[m].pcs| && !run[m].pcs[t].Asleep?
  {
    AlertedAfterWake(run, t, expected, a, m);
    AwakeWhenDelivered(run, n, t, expected, k, k + 1);
    StaysAwake(run, t, expected, k + 1, m);
  }

  /**
   * Once a call of notify_all has returned, a thread registered since before it is awake under this registration, for
   * good; only if the call found the signal field full can it be asleep, and then another notify_all is on its way.
   */
  lemma NotifyAllWakes(run: seq<State>, labels: seq<Label>, n: nat, t: nat, expected: nat, j: nat, k: nat, m: nat)
    requires Trace(run, labels) && InCall(run, labels, n, NotifyAll, j, k) && PcOf(run[k + 1], n) == Idle && k < m
    requires StaysRegistered(run, t, expected, j, m)
    ensures Expects(run[m], t, expected)
    ensures run[m].pcs[t].Asleep? ==>
              && Signals(run[k].word) == MAX_SIGNALS
              && exists d :: 0 <= d < |run[m].pcs| && run[m].pcs[d] == Delivering(true)
  {
    TraceIsRun(run, labels);
    assert Expects(run[j], t, expected) && Expects(run[k], t, expected) && Expects(run[m], t, expected);
    RegisteredSeen(run, j, t);
    RegisteredSeen(run, k, t);
    if j == k {
      NotifyBegins(run, labels, n, NotifyAll, j);
    } else {
      NotifyProgress(run, labels, n, NotifyAll, j, k);
      assert PcOf(run[k], n) != Idle;
      ReturnIsOwn(run, labels, n, k);
      if PcOf(run[k], n).Delivering? {
        var a: nat :| j < a < k && SignalAdded(run, labels, n, a);
        AwakeAfterDelivery(run, n, t, expected, a, k, m);
      } else {
        WakeAccess(run, labels, n, k);
        FullFieldDelivers(run, t, expected, k, m);
      }
    }
  }
}
