/**
 * The condition variable packed into one 32-bit word (Utilities/cond.h, Utilities/cond.cpp): registered waiters
 * in the low 13 bits, signals above them. One atomic access per step, any number of threads.
 */
module CondVar {

  const C_WAITER_MASK := 0x1fff
  const SIGNAL := 0x2000
  const MAX_SIGNALS := 0x7_ffff
  const U32 := 0x1_0000_0000

  datatype Pc =
    | Idle
    | Waiting(expected: nat)    // registered, before the wait on `expected`
    | Asleep(expected: nat)     // registered
    | Leaving(expected: nat)    // registered, before the cleanup
    | Waking(count: nat)        // imp_wake, before its fetch_op
    | Delivering(all: bool)     // imp_wake, before notify_one or notify_all

  datatype Op = Wait | NotifyOne | NotifyAll | Go | Sleep

  datatype State = State(word: nat, pcs: seq<Pc>)

  datatype Out = Out(pc: Pc, word: nat)

  function Waiters(word: nat): nat {
    word % SIGNAL
  }

  function Signals(word: nat): nat {
    word / SIGNAL
  }

  predicate Enabled(pc: Pc, word: nat, op: Op) {
    match pc
    case Idle => op == Wait || op == NotifyOne || op == NotifyAll
    case Waiting(expected) => op == Go || (op == Sleep && word == expected)
    case Delivering(_) => false
    case _ => op == Go
  }

  /** add_waiter; a refused waiter returns at once. */
  function AddWaiter(word: nat): Out {
    if Signals(word) == MAX_SIGNALS || Waiters(word) == C_WAITER_MASK then Out(Idle, word)
    else Out(Waiting((word + 1) % U32), (word + 1) % U32)
  }

  /** The cleanup at the end of imp_wait. */
  function RemoveWaiter(word: nat): Out {
    var v := (word - 1) % U32;
    Out(Idle, if Waiters(v) == 0 then 0 else v)
  }

  /** imp_wake's fetch_op and its choice between notify_one and notify_all. */
  function AddSignal(word: nat, count: nat): Out {
    if word == 0 || Signals(word) == MAX_SIGNALS then Out(Idle, word)
    else
      var v := (word + SIGNAL) % U32;
      Out(if count == 0 then Idle else Delivering(count > 1 || Signals(v) == MAX_SIGNALS), v)
  }

  /** One atomic access. */
  function After(pc: Pc, word: nat, op: Op): Out {
    match pc
    case Idle =>
      if op == Wait then AddWaiter(word)
      else if word == 0 then Out(Idle, word)
      else Out(Waking(if op == NotifyOne then 1 else U32 - 1), word)
    case Waiting(e) => Out(if op == Sleep then Asleep(e) else Leaving(e), word)
    case Asleep(e) => Out(Waiting(e), word)
    case Leaving(_) => RemoveWaiter(word)
    case Waking(count) => AddSignal(word, count)
    case Delivering(_) => Out(pc, word)
  }

  predicate Access(s: State, s': State, t: nat, op: Op) {
    && t < |s.pcs| && Enabled(s.pcs[t], s.word, op)
    && var o := After(s.pcs[t], s.word, op);
       s' == State(o.word, s.pcs[t := o.pc])
  }

  function Awoken(pc: Pc): Pc {
    if pc.Asleep? then Waiting(pc.expected) else pc
  }

  function AllAwoken(pcs: seq<Pc>): seq<Pc> {
    seq(|pcs|, t requires 0 <= t < |pcs| => Awoken(pcs[t]))
  }

  predicate SomeAsleep(pcs: seq<Pc>) {
    exists t :: 0 <= t < |pcs| && pcs[t].Asleep?
  }

  /** notify_all wakes every sleeping thread, notify_one some sleeping thread if there is one. */
  ghost predicate Deliver(s: State, s': State, t: nat) {
    && t < |s.pcs| && s.pcs[t].Delivering?
    && if s.pcs[t].all then s' == s.(pcs := AllAwoken(s.pcs[t := Idle]))
       else if SomeAsleep(s.pcs)
       then exists u :: 0 <= u < |s.pcs| && s.pcs[u].Asleep? &&
                        s' == s.(pcs := s.pcs[t := Idle][u := Awoken(s.pcs[u])])
       else s' == s.(pcs := s.pcs[t := Idle])
  }

  ghost predicate Next(s: State, s': State) {
    (exists t, op :: Access(s, s', t, op)) || (exists t :: Deliver(s, s', t))
  }

  predicate Init(s: State) {
    s.word == 0 && forall t :: 0 <= t < |s.pcs| ==> s.pcs[t] == Idle
  }

  ghost predicate Run(run: seq<State>) {
    && |run| > 0 && Init(run[0])
    && forall i :: 0 <= i < |run| - 1 ==> Next(run[i], run[i + 1])
  }

  // ---------------------------------------------------------------- the invariant

  predicate Registered(pc: Pc) {
    pc.Waiting? || pc.Asleep? || pc.Leaving?
  }

  function Flags(pcs: seq<Pc>): seq<bool> {
    seq(|pcs|, t requires 0 <= t < |pcs| => Registered(pcs[t]))
  }

  /** How many threads are registered. */
  function Count(flags: seq<bool>): nat {
    multiset(flags)[true]
  }

  function One(b: bool): nat {
    if b then 1 else 0
  }

  /** The word's waiter field is the number of registered threads, and signals are kept only for them. */
  predicate WordOk(word: nat, registered: nat) {
    word < U32 && Waiters(word) == registered && (registered == 0 ==> word == 0)
  }

  /** A registered thread expects a value the signal field has not fallen below. */
  predicate PcOk(pc: Pc, word: nat) {
    && (Registered(pc) ==>
          && 0 < Waiters(pc.expected) && pc.expected < U32
          && Signals(pc.expected) < MAX_SIGNALS && Signals(pc.expected) <= Signals(word))
    && (pc.Waking? ==> pc.count > 0)
  }

  predicate AllOk(pcs: seq<Pc>, word: nat) {
    forall t :: 0 <= t < |pcs| ==> PcOk(pcs[t], word)
  }

  predicate Inv(s: State) {
    && WordOk(s.word, Count(Flags(s.pcs))) && AllOk(s.pcs, s.word)
    && (Signals(s.word) == MAX_SIGNALS && SomeAsleep(s.pcs) ==> Delivering(true) in s.pcs)
  }

  // ---------------------------------------------------------------- one access

  /** The fields after an access by a thread beside `rest` other registered threads. */
  predicate Kept(pc: Pc, word: nat, o: Out, rest: nat) {
    && WordOk(o.word, rest + One(Registered(o.pc)))
    && PcOk(o.pc, o.word)
    && (rest > 0 || Registered(o.pc) ==> Signals(word) <= Signals(o.word))
  }

  lemma AddWaiterKept(word: nat, rest: nat)
    requires WordOk(word, rest)
    ensures Kept(Idle, word, AddWaiter(word), rest)
  {
  }

  lemma RemoveWaiterKept(pc: Pc, word: nat, rest: nat)
    requires WordOk(word, rest + 1)
    ensures Kept(pc, word, RemoveWaiter(word), rest)
  {
  }

  /** A signal is added unless none is needed or the field is full; it never carries out of the word. */
  lemma AddSignalKept(pc: Pc, word: nat, count: nat, rest: nat)
    requires WordOk(word, rest)
    ensures Kept(pc, word, AddSignal(word, count), rest)
    ensures var signals := Signals(AddSignal(word, count).word);
            word != 0 ==> signals == MAX_SIGNALS || signals == Signals(word) + 1
  {
  }

  lemma AccessKept(pc: Pc, word: nat, op: Op, rest: nat)
    requires Enabled(pc, word, op) && PcOk(pc, word) && WordOk(word, rest + One(Registered(pc)))
    ensures Kept(pc, word, After(pc, word, op), rest)
  {
    match pc
    case Idle =>
      if op == Wait { AddWaiterKept(word, rest); }
    case Leaving(_) => RemoveWaiterKept(pc, word, rest);
    case Waking(count) => AddSignalKept(pc, word, count, rest);
    case _ =>
  }

  // ---------------------------------------------------------------- every run

  lemma CountSplit(flags: seq<bool>, t: nat, b: bool)
    requires t < |flags|
    ensures Count(flags) == Count(flags[t := false]) + One(flags[t])
    ensures Count(flags[t := b]) == Count(flags[t := false]) + One(b)
  {
  }

  lemma FlagsUpdate(pcs: seq<Pc>, t: nat, pc: Pc)
    requires t < |pcs|
    ensures Flags(pcs[t := pc]) == Flags(pcs)[t := Registered(pc)]
  {
  }

  lemma OkUpdate(pcs: seq<Pc>, t: nat, pc: Pc, word: nat, word': nat, rest: nat)
    requires AllOk(pcs, word) && t < |pcs| && PcOk(pc, word')
    requires rest == Count(Flags(pcs)[t := false])
    requires rest > 0 ==> Signals(word) <= Signals(word')
    ensures AllOk(pcs[t := pc], word')
  {
    var pcs' := pcs[t := pc];
    forall u | 0 <= u < |pcs'|
      ensures PcOk(pcs'[u], word')
    {
      if u != t && Registered(pcs[u]) {
        assert Flags(pcs)[t := false][u] == true;
        assert true in Flags(pcs)[t := false];
      }
    }
  }

  lemma OnlyWakesSignal(pc: Pc, word: nat, op: Op)
    requires !pc.Waking? && word < U32 && Enabled(pc, word, op) && (Registered(pc) ==> 0 < Waiters(word))
    ensures Signals(After(pc, word, op).word) <= Signals(word)
  {
  }

  /** Nobody falls asleep on a full signal field, and the access that fills it goes on to notify_all. */
  lemma FullFieldKept(s: State, s': State, t: nat, op: Op)
    requires Inv(s) && Access(s, s', t, op) && WordOk(s'.word, Count(Flags(s'.pcs)))
    requires Signals(s'.word) == MAX_SIGNALS && SomeAsleep(s'.pcs)
    ensures Delivering(true) in s'.pcs
  {
    var o := After(s.pcs[t], s.word, op);
    assert s'.pcs[t] == o.pc;
    if s.pcs[t].Waking? && o.word != s.word {
      assert o.pc == Delivering(true);
    } else {
      if !s.pcs[t].Waking? {
        if Registered(s.pcs[t]) {
          assert Flags(s.pcs)[t];
          assert true in Flags(s.pcs);
        }
        OnlyWakesSignal(s.pcs[t], s.word, op);
      }
      assert Signals(s.word) == MAX_SIGNALS;
      var u :| 0 <= u < |s'.pcs| && s'.pcs[u].Asleep?;
      assert u != t;
      assert s.pcs[u].Asleep?;
      var d :| 0 <= d < |s.pcs| && s.pcs[d] == Delivering(true);
      assert s'.pcs[d] == Delivering(true);
    }
  }

  lemma AccessKeepsInv(s: State, s': State, t: nat, op: Op)
    requires Inv(s) && Access(s, s', t, op)
    ensures Inv(s')
  {
    var o := After(s.pcs[t], s.word, op);
    var flags := Flags(s.pcs);
    var rest := Count(flags[t := false]);
    FlagsUpdate(s.pcs, t, o.pc);
    CountSplit(flags, t, Registered(o.pc));
    AccessKept(s.pcs[t], s.word, op, rest);
    OkUpdate(s.pcs, t, o.pc, s.word, s'.word, rest);
    if Signals(s'.word) == MAX_SIGNALS && SomeAsleep(s'.pcs) {
      FullFieldKept(s, s', t, op);
    }
  }

  lemma DeliverKeepsInv(s: State, s': State, t: nat)
    requires Inv(s) && Deliver(s, s', t)
    ensures Inv(s')
  {
    var mid := s.pcs[t := Idle];
    assert Flags(mid) == Flags(s.pcs);
    if s.pcs[t].all {
      assert Flags(s'.pcs) == Flags(mid);
      assert !SomeAsleep(s'.pcs);
    } else {
      assert Flags(s'.pcs) == Flags(mid);
      if Signals(s'.word) == MAX_SIGNALS && SomeAsleep(s'.pcs) {
        assert SomeAsleep(s.pcs);
        var d :| 0 <= d < |s.pcs| && s.pcs[d] == Delivering(true);
        assert s'.pcs[d] == Delivering(true);
      }
    }
  }

  lemma NextKeepsInv(s: State, s': State)
    requires Inv(s) && Next(s, s')
    ensures Inv(s')
  {
    if exists t, op :: Access(s, s', t, op) {
      var t, op :| Access(s, s', t, op);
      AccessKeepsInv(s, s', t, op);
    } else {
      var t :| Deliver(s, s', t);
      DeliverKeepsInv(s, s', t);
    }
  }

  lemma InitInv(s: State)
    requires Init(s)
    ensures Inv(s)
  {
  }

  lemma {:induction false} RunInv(run: seq<State>, i: nat)
    requires Run(run) && i < |run|
    ensures Inv(run[i])
  {
    if i == 0 {
      InitInv(run[0]);
    } else {
      RunInv(run, i - 1);
      assert Next(run[i - 1], run[i - 1 + 1]);
      NextKeepsInv(run[i - 1], run[i]);
    }
  }

  lemma RunStep(run: seq<State>, i: nat)
    requires Run(run) && i + 1 < |run|
    ensures Next(run[i], run[i + 1]) && |run[i + 1].pcs| == |run[i].pcs|
  {
  }

  // ---------------------------------------------------------------- what a waiter is promised

  /** The waiter field is the number of registered threads and never spills into the signals. */
  lemma WaiterFieldExact(run: seq<State>, i: nat)
    requires Run(run) && i < |run|
    ensures run[i].word < U32
    ensures Waiters(run[i].word) == Count(Flags(run[i].pcs)) <= C_WAITER_MASK
    ensures Count(Flags(run[i].pcs)) == 0 ==> run[i].word == 0
  {
    RunInv(run, i);
  }

  predicate Expects(s: State, t: nat, expected: nat) {
    t < |s.pcs| && Registered(s.pcs[t]) && s.pcs[t].expected == expected
  }

  /** Thread t is registered, and expects `expected`, in every state from i to k. */
  predicate StaysRegistered(run: seq<State>, t: nat, expected: nat, i: nat, k: nat) {
    i <= k < |run| && forall m :: i <= m <= k ==> Expects(run[m], t, expected)
  }

  lemma StaysUntil(run: seq<State>, t: nat, expected: nat, i: nat, j: nat, k: nat)
    requires StaysRegistered(run, t, expected, i, k) && i <= j <= k
    ensures StaysRegistered(run, t, expected, i, j) && Expects(run[j], t, expected)
  {
  }

  /** Some thread performs the atomic access of imp_wake. */
  ghost predicate WakeStep(s: State, s': State) {
    exists n :: 0 <= n < |s.pcs| && s.pcs[n].Waking? && Access(s, s', n, Go)
  }

  /** While some thread stays registered the signal field never falls. */
  lemma SignalsGrow(s: State, s': State, t: nat)
    requires Inv(s) && Next(s, s') && t < |s.pcs| && t < |s'.pcs|
    requires Registered(s.pcs[t]) && Registered(s'.pcs[t])
    ensures Signals(s.word) <= Signals(s'.word)
  {
    if exists u: nat, op :: Access(s, s', u, op) {
      var u: nat, op :| Access(s, s', u, op);
      var flags := Flags(s.pcs);
      var rest := Count(flags[u := false]);
      CountSplit(flags, u, true);
      AccessKept(s.pcs[u], s.word, op, rest);
      if u != t {
        assert flags[u := false][t] == true;
        assert true in flags[u := false];
      }
    }
  }

  lemma SignalsGrowAt(run: seq<State>, t: nat, k: nat)
    requires Run(run) && k + 1 < |run| && t < |run[k].pcs| && t < |run[k + 1].pcs|
    requires Registered(run[k].pcs[t]) && Registered(run[k + 1].pcs[t])
    ensures Signals(run[k].word) <= Signals(run[k + 1].word)
  {
    RunInv(run, k);
    assert Next(run[k], run[k + 1]);
    SignalsGrow(run[k], run[k + 1], t);
  }

  /** A wake raises the signal field above what any registered thread expects. */
  lemma WakeRaises(s: State, s': State, t: nat)
    requires Inv(s) && WakeStep(s, s') && t < |s.pcs| && Registered(s.pcs[t])
    ensures Signals(s.pcs[t].expected) < Signals(s'.word)
  {
    var n :| 0 <= n < |s.pcs| && s.pcs[n].Waking? && Access(s, s', n, Go);
    assert Flags(s.pcs)[t];
    assert true in Flags(s.pcs);
    AddSignalKept(s.pcs[n], s.word, s.pcs[n].count, Count(Flags(s.pcs)));
  }

  lemma WokenAt(run: seq<State>, t: nat, expected: nat, j: nat)
    requires Run(run) && j + 1 < |run| && Expects(run[j], t, expected) && WakeStep(run[j], run[j + 1])
    ensures Signals(expected) < Signals(run[j + 1].word)
  {
    RunInv(run, j);
    WakeRaises(run[j], run[j + 1], t);
  }

  /** No lost notification: from the wake on, the word differs from what a registered thread expects. */
  lemma {:induction false} NoLostNotification(run: seq<State>, t: nat, expected: nat, j: nat, k: nat)
    requires Run(run) && j < k && StaysRegistered(run, t, expected, j, k)
    requires WakeStep(run[j], run[j + 1])
    ensures Signals(expected) < Signals(run[k].word) && run[k].word != expected
    decreases k
  {
    if k == j + 1 {
      WokenAt(run, t, expected, j);
    } else {
      NoLostNotification(run, t, expected, j, k - 1);
      assert Expects(run[k - 1], t, expected) && Expects(run[k], t, expected);
      SignalsGrowAt(run, t, k - 1);
    }
  }

  /** Hence it cannot fall asleep any more under this registration. */
  lemma NoSleepAfterWake(run: seq<State>, t: nat, expected: nat, j: nat, k: nat)
    requires Run(run) && j < k && k + 1 < |run| && StaysRegistered(run, t, expected, j, k + 1)
    requires WakeStep(run[j], run[j + 1])
    ensures run[k + 1].pcs[t].Asleep? ==> run[k].pcs[t].Asleep?
  {
    NoLostNotification(run, t, expected, j, k);
    assert Next(run[k], run[k + 1]);
  }

  /** A notifier that finds a registered thread always reaches imp_wake, and imp_wait's ensure() holds. */
  lemma RegisteredSeen(run: seq<State>, i: nat, t: nat)
    requires Run(run) && i < |run| && t < |run[i].pcs| && Registered(run[i].pcs[t])
    ensures run[i].word != 0 && run[i].pcs[t].expected != 0
  {
    RunInv(run, i);
    assert Flags(run[i].pcs)[t];
    assert true in Flags(run[i].pcs);
  }

  /** When the signal field is full, every sleeping thread has a notify_all on its way. */
  lemma FullFieldWakesAll(run: seq<State>, i: nat, t: nat) returns (d: nat)
    requires Run(run) && i < |run| && t < |run[i].pcs| && run[i].pcs[t].Asleep?
    requires Signals(run[i].word) == MAX_SIGNALS
    ensures d < |run[i].pcs| && run[i].pcs[d] == Delivering(true)
  {
    RunInv(run, i);
    d :| d < |run[i].pcs| && run[i].pcs[d] == Delivering(true);
  }

  /** Only its delivery ends a notify_all, and that wakes every thread. */
  lemma DeliveryKept(s: State, s': State, n: nat, t: nat)
    requires Next(s, s') && n < |s.pcs| && s.pcs[n] == Delivering(true) && t < |s.pcs|
    ensures |s'.pcs| == |s.pcs| && (s'.pcs[n] == Delivering(true) || !s'.pcs[t].Asleep?)
  {
  }

  /** From i to k thread t is registered, and the word is not what it expects. */
  predicate Alerted(run: seq<State>, t: nat, expected: nat, i: nat, k: nat) {
    i <= k < |run| && forall m :: i <= m <= k ==> Expects(run[m], t, expected) && run[m].word != expected
  }

  lemma AlertedAfterWake(run: seq<State>, t: nat, expected: nat, j: nat, k: nat)
    requires Run(run) && j < k && StaysRegistered(run, t, expected, j, k) && WakeStep(run[j], run[j + 1])
    ensures Alerted(run, t, expected, j + 1, k)
  {
    forall m | j < m <= k
      ensures Expects(run[m], t, expected) && run[m].word != expected
    {
      StaysUntil(run, t, expected, j, m, k);
      NoLostNotification(run, t, expected, j, m);
    }
  }

  lemma AlertedStep(run: seq<State>, t: nat, expected: nat, i: nat, k: nat)
    requires Run(run) && Alerted(run, t, expected, i, k) && i < k
    ensures Alerted(run, t, expected, i, k - 1) && Next(run[k - 1], run[k]) && |run[k].pcs| == |run[k - 1].pcs|
    ensures t < |run[k].pcs| && (run[k].pcs[t].Asleep? ==> run[k - 1].pcs[t].Asleep?)
  {
    RunStep(run, k - 1);
    assert Expects(run[k - 1], t, expected) && Expects(run[k], t, expected);
  }

  lemma {:induction false} StaysAwake(run: seq<State>, t: nat, expected: nat, i: nat, k: nat)
    requires Run(run) && Alerted(run, t, expected, i, k) && t < |run[i].pcs| && !run[i].pcs[t].Asleep?
    ensures t < |run[k].pcs| && !run[k].pcs[t].Asleep?
    decreases k
  {
    if i < k {
      AlertedStep(run, t, expected, i, k);
      StaysAwake(run, t, expected, i, k - 1);
    }
  }

  /** Until the notify_all of thread n is delivered, thread n is about to; from then on thread t is awake. */
  lemma {:induction false} AwakeWhenDelivered(run: seq<State>, n: nat, t: nat, expected: nat, i: nat, k: nat)
    requires Run(run) && Alerted(run, t, expected, i, k) && n < |run[i].pcs| && run[i].pcs[n] == Delivering(true)
    ensures n < |run[k].pcs| && t < |run[k].pcs| && (run[k].pcs[n] == Delivering(true) || !run[k].pcs[t].Asleep?)
    decreases k
  {
    if i < k {
      AlertedStep(run, t, expected, i, k);
      AwakeWhenDelivered(run, n, t, expected, i, k - 1);
      if run[k - 1].pcs[n] == Delivering(true) {
        DeliveryKept(run[k - 1], run[k], n, t);
      }
    } else {
      assert Expects(run[i], t, expected);
    }
  }

  lemma {:induction false} FieldStaysFull(run: seq<State>, t: nat, expected: nat, j: nat, k: nat)
    requires Run(run) && StaysRegistered(run, t, expected, j, k) && Signals(run[j].word) == MAX_SIGNALS
    ensures Signals(run[k].word) == MAX_SIGNALS
    decreases k
  {
    if j < k {
      FieldStaysFull(run, t, expected, j, k - 1);
      assert Expects(run[k - 1], t, expected) && Expects(run[k], t, expected);
      SignalsGrowAt(run, t, k - 1);
      RunInv(run, k);
    }
  }
}
