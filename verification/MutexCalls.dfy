/**
 * What callers of the reader/writer lock get (Utilities/mutex.h, Utilities/mutex.cpp): the runs of SharedMutex with
 * the calls their steps carry out, and what a caller holds by the calls that have returned to it.
 */
module MutexCalls {
  import opened SharedMutex

  // ---------------------------------------------------------------- traces

  /** Whose step it is. */
  datatype Label = Acts(t: nat, op: Op) | Notifies(t: nat)

  ghost predicate StepBy(s: State, s': State, l: Label) {
    match l
    case Acts(t, op) => Access(s, s', t, op)
    case Notifies(t) => Notify(s, s', t)
  }

  ghost predicate StepAt(run: seq<State>, labels: seq<Label>, i: nat) {
    i < |labels| && i + 1 < |run| && StepBy(run[i], run[i + 1], labels[i])
  }

  /** A run with the thread and the operation of every step. */
  ghost predicate Trace(run: seq<State>, labels: seq<Label>) {
    && |run| == |labels| + 1 && Init(run[0])
    && forall i: nat :: i < |labels| ==> StepAt(run, labels, i)
  }

  lemma StepHasLabel(s: State, s': State) returns (l: Label)
    requires Next(s, s')
    ensures StepBy(s, s', l)
  {
    if t: nat, op :| Access(s, s', t, op) {
      l := Acts(t, op);
    } else {
      var t: nat :| Notify(s, s', t);
      l := Notifies(t);
    }
  }

  /** Every run is a trace without its labels. */
  lemma {:induction false} RunIsTrace(run: seq<State>) returns (labels: seq<Label>)
    requires Run(run)
    ensures Trace(run, labels)
    decreases |run|
  {
    labels := [];
    if |run| > 1 {
      var n := |run| - 2;
      labels := RunIsTrace(run[..n + 1]);
      var l := StepHasLabel(run[n], run[n + 1]);
      forall i: nat | i < |labels + [l]|
        ensures StepAt(run, labels + [l], i)
      {
        assert i < n ==> StepAt(run[..n + 1], labels, i);
      }
      labels := labels + [l];
    }
  }

  lemma TraceIsRun(run: seq<State>, labels: seq<Label>)
    requires Trace(run, labels)
    ensures Run(run)
  {
    forall i | 0 <= i < |run| - 1
      ensures Next(run[i], run[i + 1])
    {
      assert StepAt(run, labels, i);
    }
  }

  // ---------------------------------------------------------------- calls in progress

  datatype Call = NoCall | Doing(op: Op)

  function PcOf(s: State, t: nat): Pc {
    if t < |s.pcs| then s.pcs[t] else Idle
  }

  /** Between two calls. */
  predicate Resting(pc: Pc) {
    pc == Idle || pc == HasShared || pc == HasExclusive
  }

  /** The call thread t has made and not returned from after i steps. */
  function CallOf(run: seq<State>, labels: seq<Label>, t: nat, i: nat): Call
    requires i <= |labels| < |run|
  {
    if i == 0 || Resting(PcOf(run[i], t)) then NoCall
    else if Resting(PcOf(run[i - 1], t)) && labels[i - 1].Acts? && labels[i - 1].t == t then Doing(labels[i - 1].op)
    else CallOf(run, labels, t, i - 1)
  }

  /** The call that step i carries out. */
  function CallAt(run: seq<State>, labels: seq<Label>, i: nat): Call
    requires i < |labels| < |run|
  {
    var l := labels[i];
    if l.Acts? && Resting(PcOf(run[i], l.t)) then Doing(l.op) else CallOf(run, labels, l.t, i)
  }

  predicate Serves(pc: Pc, c: Call) {
    match pc
    case InShared(s) => c == Doing(if s.TryCas? then TryLockShared else LockShared)
    case InLock(_) => c == Doing(Lock)
    case InUpgrade(u) => c == Doing(if u.TryUpgradeCas? then TryUpgrade else Upgrade)
    case InWait(_, why) =>
      if why == ForShared then c == Doing(LockShared)
      else if why == ForPassage then c == Doing(LockUnlock)
      else c == Doing(Lock) || c == Doing(Upgrade)
    case Downgrading => c == Doing(LockShared)
    case PassLoad(_, _) | PassQueue | Passing => c == Doing(LockUnlock)
    case Signaling | Notifying => c == Doing(Unlock) || c == Doing(UnlockShared) || c == Doing(LockUnlock)
    case Failed => true
    case _ => c == NoCall
  }

  /** A thread keeps serving the call it is in, or begins with the one it makes. */
  lemma AccessServes(pc: Pc, word: nat, op: Op, c: Call)
    requires Enabled(pc, word, op) && Serves(pc, c)
    ensures var pc' := After(pc, word, op).pc;
            !Resting(pc') ==> Serves(pc', if Resting(pc) then Doing(op) else c)
  {
  }

  lemma StepServes(run: seq<State>, labels: seq<Label>, i: nat, t: nat, c: Call)
    requires Trace(run, labels) && i < |labels| && Serves(PcOf(run[i], t), c) && !Resting(PcOf(run[i + 1], t))
    ensures var l := labels[i];
            Serves(PcOf(run[i + 1], t), if Resting(PcOf(run[i], t)) && l.Acts? && l.t == t then Doing(l.op) else c)
  {
    var l := labels[i];
    assert StepAt(run, labels, i);
    if l.Acts? && l.t == t {
      AccessServes(PcOf(run[i], t), run[i].word, l.op, c);
    }
  }

  lemma {:induction false} CallServed(run: seq<State>, labels: seq<Label>, t: nat, i: nat)
    requires Trace(run, labels) && i <= |labels|
    ensures Serves(PcOf(run[i], t), CallOf(run, labels, t, i))
  {
    if i > 0 {
      CallServed(run, labels, t, i - 1);
      if !Resting(PcOf(run[i], t)) {
        StepServes(run, labels, i - 1, t, CallOf(run, labels, t, i - 1));
      }
    }
  }

  // ---------------------------------------------------------------- what a call that returns leaves its caller with

  datatype Hold = Nothing | Shared | Exclusive

  /** What a try form reports: whether its compare-and-swap was made and succeeded. */
  predicate Succeeds(pc: Pc, word: nat, op: Op) {
    match pc
    case Idle => op == TryLock && word == 0
    case InShared(p) => p.TryCas? && word == p.value
    case InUpgrade(u) => u.TryUpgradeCas? && word == u.value
    case _ => false
  }

  predicate Reports(s: State, l: Label) {
    l.Acts? && Succeeds(PcOf(s, l.t), s.word, l.op)
  }

  /** What the caller may rely on after the call, given what a try form reported. */
  function Promised(op: Op, ok: bool): Hold {
    match op
    case LockShared => Shared
    case TryLockShared => if ok then Shared else Nothing
    case Lock => Exclusive
    case TryLock => if ok then Exclusive else Nothing
    case TryUpgrade => if ok then Exclusive else Shared
    case Upgrade => Exclusive
    case Downgrade => Shared
    case _ => Nothing
  }

  function Standing(h: Hold): Pc {
    match h
    case Nothing => Idle
    case Shared => HasShared
    case Exclusive => HasExclusive
  }

  lemma AccessKeepsPromise(pc: Pc, word: nat, op: Op, c: Call)
    requires Enabled(pc, word, op) && Serves(pc, c) && Resting(After(pc, word, op).pc)
    ensures var d := if Resting(pc) then Doing(op) else c;
            d.Doing? && After(pc, word, op).pc == Standing(Promised(d.op, Succeeds(pc, word, op)))
  {
  }

  /** A call returns with what it promises: a lock call holding the lock, a try form exactly if it reports success. */
  lemma CallsKeepPromise(run: seq<State>, labels: seq<Label>, i: nat)
    requires Trace(run, labels) && i < |labels| && Resting(PcOf(run[i + 1], labels[i].t))
    ensures var c := CallAt(run, labels, i);
            c.Doing? && PcOf(run[i + 1], labels[i].t) == Standing(Promised(c.op, Reports(run[i], labels[i])))
  {
    var l := labels[i];
    CallServed(run, labels, l.t, i);
    assert StepAt(run, labels, i);
    if l.Acts? {
      AccessKeepsPromise(PcOf(run[i], l.t), run[i].word, l.op, CallOf(run, labels, l.t, i));
    }
  }

  /** What the calls that have returned to thread t leave it with after i steps; nothing while it is in a call. */
  function Holds(run: seq<State>, labels: seq<Label>, t: nat, i: nat): Hold
    requires i <= |labels| < |run|
  {
    if i == 0 || !Resting(PcOf(run[i], t)) then Nothing
    else if labels[i - 1].t == t then
      var c := CallAt(run, labels, i - 1);
      if c.Doing? then Promised(c.op, Reports(run[i - 1], labels[i - 1])) else Nothing
    else Holds(run, labels, t, i - 1)
  }

  lemma RestUndisturbed(s: State, s': State, l: Label, t: nat)
    requires StepBy(s, s', l) && l.t != t
    ensures PcOf(s', t) == PcOf(s, t) || (PcOf(s, t).InWait? && PcOf(s', t).InWait?)
  {
  }

  /** A thread that is in no call stands where the calls that have returned to it left it. */
  lemma {:induction false} HoldsAreReal(run: seq<State>, labels: seq<Label>, t: nat, i: nat)
    requires Trace(run, labels) && i <= |labels|
    ensures Resting(PcOf(run[i], t)) ==> PcOf(run[i], t) == Standing(Holds(run, labels, t, i))
  {
    if i > 0 && Resting(PcOf(run[i], t)) {
      assert StepAt(run, labels, i - 1);
      if labels[i - 1].t == t {
        CallsKeepPromise(run, labels, i - 1);
      } else {
        RestUndisturbed(run[i - 1], run[i], labels[i - 1], t);
        HoldsAreReal(run, labels, t, i - 1);
      }
    }
  }

  /** While one caller holds the lock exclusively, by calls returned and not undone, no other holds it in any way. */
  lemma CallersExcluded(run: seq<State>, labels: seq<Label>, i: nat, t: nat, u: nat)
    requires Trace(run, labels) && |run[0].pcs| < CAPACITY && i <= |labels| && t != u
    requires Holds(run, labels, t, i) == Exclusive
    ensures Holds(run, labels, u, i) == Nothing
  {
    TraceIsRun(run, labels);
    HoldsAreReal(run, labels, t, i);
    HoldsAreReal(run, labels, u, i);
    if u < |run[i].pcs| {
      MutualExclusion(run, i, t, u);
    }
  }

  // ---------------------------------------------------------------- when the try forms succeed

  /** Thread t makes the call in step j and is in it until after step k. */
  predicate InCall(run: seq<State>, labels: seq<Label>, t: nat, op: Op, j: nat, k: nat) {
    && j <= k < |labels| < |run| && labels[j] == Acts(t, op) && Resting(PcOf(run[j], t))
    && forall i :: j < i <= k ==> !Resting(PcOf(run[i], t))
  }

  /** try_lock succeeds exactly on a free lock. */
  lemma TryLockExactly(run: seq<State>, labels: seq<Label>, t: nat, j: nat)
    requires Trace(run, labels) && j < |labels| && labels[j] == Acts(t, TryLock)
    ensures Holds(run, labels, t, j + 1) == if run[j].word == 0 then Exclusive else Nothing
  {
    assert StepAt(run, labels, j);
  }

  lemma {:induction false} TrySharedPc(run: seq<State>, labels: seq<Label>, t: nat, j: nat, k: nat)
    requires Trace(run, labels) && InCall(run, labels, t, TryLockShared, j, k) && j < k
    ensures run[j].word < C_ONE - 1 && PcOf(run[k], t) == InShared(TryCas(run[j].word))
    decreases k
  {
    assert StepAt(run, labels, k - 1) && !Resting(PcOf(run[k], t));
    if j + 1 < k {
      TrySharedPc(run, labels, t, j, k - 1);
    }
  }

  /** try_lock_shared succeeds exactly if readers had room and the word did not change until its exchange. */
  lemma TrySharedExactly(run: seq<State>, labels: seq<Label>, t: nat, j: nat, k: nat)
    requires Trace(run, labels) && InCall(run, labels, t, TryLockShared, j, k) && Resting(PcOf(run[k + 1], t))
    ensures PcOf(run[k + 1], t) ==
              if run[j].word < C_ONE - 1 && run[k].word == run[j].word then HasShared else Idle
  {
    assert StepAt(run, labels, k);
    if j < k {
      TrySharedPc(run, labels, t, j, k);
    }
  }

  lemma {:induction false} TryUpgradePc(run: seq<State>, labels: seq<Label>, t: nat, j: nat, k: nat)
    requires Trace(run, labels) && InCall(run, labels, t, TryUpgrade, j, k) && j < k
    ensures SingleReader(run[j].word) && PcOf(run[k], t) == InUpgrade(TryUpgradeCas(run[j].word))
    decreases k
  {
    assert StepAt(run, labels, k - 1) && !Resting(PcOf(run[k], t));
    if j + 1 < k {
      TryUpgradePc(run, labels, t, j, k - 1);
    }
  }

  /** try_lock_upgrade succeeds exactly if the caller was the only reader until its exchange. */
  lemma TryUpgradeExactly(run: seq<State>, labels: seq<Label>, t: nat, j: nat, k: nat)
    requires Trace(run, labels) && InCall(run, labels, t, TryUpgrade, j, k) && Resting(PcOf(run[k + 1], t))
    ensures PcOf(run[k + 1], t) ==
              if SingleReader(run[j].word) && run[k].word == run[j].word then HasExclusive else HasShared
  {
    assert StepAt(run, labels, k);
    if j < k {
      TryUpgradePc(run, labels, t, j, k);
    }
  }

  // ---------------------------------------------------------------- lock_unlock

  /** At i nobody reads, and nobody holds the lock at all, or it is handed on, or it has been since j. */
  ghost predicate Calm(run: seq<State>, j: nat, i: nat) {
    && i < |run| && run[i].word % C_ONE == 0
    && (|| run[i].word == 0 || run[i].word >= C_SIG
        || exists h :: j <= h < i && run[h].word / C_ONE > run[i].word / C_ONE)
  }

  /** Between j and k there was such a moment, or thread t itself held the lock exclusively. */
  ghost predicate Passed(run: seq<State>, t: nat, j: nat, k: nat) {
    exists i :: j <= i <= k < |run| && (Calm(run, j, i) || PcOf(run[i], t) == Passing)
  }

  ghost predicate OnTheWay(run: seq<State>, t: nat, j: nat, k: nat)
    requires k < |run|
  {
    match PcOf(run[k], t)
    case PassLoad(_, max) => max == 1 || exists h :: j <= h < k && run[h].word / C_ONE == max
    case Signaling | Notifying => Passed(run, t, j, k)
    case _ => true
  }

  lemma PassStep(run: seq<State>, labels: seq<Label>, t: nat, j: nat, k: nat)
    requires Trace(run, labels) && InCall(run, labels, t, LockUnlock, j, k) && j < k && OnTheWay(run, t, j, k)
    requires Serves(PcOf(run[k], t), Doing(LockUnlock))
    ensures if Resting(PcOf(run[k + 1], t)) then Passed(run, t, j, k) else OnTheWay(run, t, j, k + 1)
  {
    assert StepAt(run, labels, k) && !Resting(PcOf(run[k], t));
    match PcOf(run[k], t)
    case PassLoad(_, max) =>
      assert Resting(PcOf(run[k + 1], t)) ==> Calm(run, j, k);
    case Passing => assert Passed(run, t, j, k) && Passed(run, t, j, k + 1);
    case Signaling => assert Passed(run, t, j, k + 1);
    case Notifying => assert Passed(run, t, j, k + 1);
    case _ =>
  }

  lemma {:induction false} StaysInCall(run: seq<State>, labels: seq<Label>, t: nat, op: Op, j: nat, k: nat)
    requires InCall(run, labels, t, op, j, k) && j < k
    ensures CallOf(run, labels, t, k) == Doing(op)
    decreases k
  {
    assert !Resting(PcOf(run[k], t));
    if j + 1 < k {
      StaysInCall(run, labels, t, op, j, k - 1);
      assert !Resting(PcOf(run[k - 1], t));
    }
  }

  lemma PassBegins(run: seq<State>, labels: seq<Label>, t: nat, j: nat)
    requires Trace(run, labels) && InCall(run, labels, t, LockUnlock, j, j)
    ensures if Resting(PcOf(run[j + 1], t)) then Passed(run, t, j, j) else OnTheWay(run, t, j, j + 1)
  {
    assert StepAt(run, labels, j);
    assert Resting(PcOf(run[j + 1], t)) ==> Calm(run, j, j);
  }

  lemma {:induction false} PassProgress(run: seq<State>, labels: seq<Label>, t: nat, j: nat, k: nat)
    requires Trace(run, labels) && InCall(run, labels, t, LockUnlock, j, k) && j < k
    ensures OnTheWay(run, t, j, k) && Serves(PcOf(run[k], t), Doing(LockUnlock))
    decreases k
  {
    StaysInCall(run, labels, t, LockUnlock, j, k);
    CallServed(run, labels, t, k);
    if j + 1 < k {
      PassProgress(run, labels, t, j, k - 1);
      assert !Resting(PcOf(run[k], t));
      PassStep(run, labels, t, j, k - 1);
    } else {
      PassBegins(run, labels, t, j);
    }
  }

  /** lock_unlock returns only after a moment without readers and without the holder it met, or its own turn. */
  lemma LockUnlockPasses(run: seq<State>, labels: seq<Label>, t: nat, j: nat, k: nat)
    requires Trace(run, labels) && InCall(run, labels, t, LockUnlock, j, k) && Resting(PcOf(run[k + 1], t))
    ensures Passed(run, t, j, k)
  {
    if j < k {
      PassProgress(run, labels, t, j, k);
      PassStep(run, labels, t, j, k);
    } else {
      PassBegins(run, labels, t, j);
    }
  }

  // ---------------------------------------------------------------- calls get through

  /** Only its own steps keep a thread in its call: the lock is free, or only its own, or handed to it. */
  predicate Clear(pc: Pc, word: nat) {
    match pc
    case InShared(_) | InLock(_) | PassLoad(_, _) | PassQueue => word == 0
    case InUpgrade(_) => word == 1
    case InWait(w, _) => !w.Asleep? && C_SIG + C_ONE <= word < C_ERR
    case Downgrading | Passing => C_ONE <= word < C_ERR
    case Signaling => true
    case _ => false
  }

  /** How many steps it then needs at most. */
  function Distance(pc: Pc): nat {
    match pc
    case InShared(s) =>
      (match s
       case Cas(v) => if v == 0 then 1 else 6
       case TryCas(_) => 1
       case Steal(_) => 5
       case LoopTry(_) => 4
       case LoopCas(_, v) => if v == 0 then 1 else 6
       case LoopLoad(_) => 5
       case LoopSteal(_, _) => 5
       case Queue => 3)
    case InLock(l) =>
      (match l
       case LkSteal(_) => 3
       case LkLoad(_) => 2
       case LkTry(_) => 1
       case LkLoopSteal(_, _) => 3
       case LkQueue => 1)
    case InUpgrade(u) =>
      (match u
       case UpLoad(_) => 2
       case UpCas(_, v) => if v == 1 then 1 else 3
       case _ => 1)
    case PassLoad(i, _) => if i < 30 then 35 - i else 5
    case PassQueue => 4
    case InWait(w, _) => if w.Dozing? then 5 else 4
    case Passing => 3
    case Signaling => 2
    case _ => 1
  }

  /**
   * With the way clear each step of a call returns with what the call promises or leaves the way clear and brings it
   * closer to that, up to the notification that ends an unlock.
   */
  lemma CallGetsThrough(pc: Pc, word: nat, c: Call)
    requires PcOk(pc) && Serves(pc, c) && Clear(pc, word)
    ensures var o := After(pc, word, Go);
            && c.Doing?
            && if Resting(o.pc) then o.pc == Standing(Promised(c.op, Succeeds(pc, word, Go)))
               else Serves(o.pc, c) && Distance(o.pc) < Distance(pc) && (Clear(o.pc, o.word) || o.pc == Notifying)
  {
  }
}
