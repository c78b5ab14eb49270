/**
 * The counting semaphore packed into one 32-bit word (Utilities/sema.h, Utilities/sema.cpp): tokens in the
 * low half, registered waiters in the high half. One atomic access per step, any number of threads.
 */
module Semaphore {

  const C_WAITER := 0x1_0000
  const C_WAITER_MASK := 0xffff_0000
  const C_VALUE_MASK := 0xffff
  const U32 := 0x1_0000_0000

  datatype Pc =
    | Idle
    | WaitCas(value: nat)           // wait, before its compare-and-swap
    | SpinLoad(i: nat)              // imp_wait, its spinning loop
    | SpinCas(i: nat, value: nat)
    | Enter                         // imp_wait, fetch_op while not registered
    | Retry                         // imp_wait, fetch_op while registered
    | Dozing(value: nat)            // registered, before the wait on `value`
    | Asleep                        // registered
    | Notifying                     // post, before notify_one
    | Failed                        // an ensure() did not hold

  datatype Op = Wait | TryWait | Post(max: nat) | TryPost(max: nat) | Go | Sleep

  /** The word, the threads, and the tokens taken and returned so far. */
  datatype State = State(word: nat, pcs: seq<Pc>, acquired: nat, posted: nat)

  /** The outcome of an access; `ok` says that it changed the tokens, which is what the try forms report. */
  datatype Out = Out(pc: Pc, word: nat, acquired: nat, posted: nat, ok: bool)

  function Value(word: nat): nat {
    word % C_WAITER
  }

  function Waiters(word: nat): nat {
    word / C_WAITER
  }

  function Min(a: nat, b: nat): nat {
    if a < b then a else b
  }

  predicate Enabled(pc: Pc, word: nat, op: Op) {
    match pc
    case Idle => op == Wait || op == TryWait || ((op.Post? || op.TryPost?) && op.max <= 0x7fff)
    case Dozing(v) => op == Go || (op == Sleep && word == v)
    case Notifying => false
    case Failed => false
    case _ => op == Go
  }

  function Keep(pc: Pc, word: nat): Out {
    Out(pc, word, 0, 0, false)
  }

  function Take(word: nat): Out {
    Out(Idle, (word - 1) % U32, 1, 0, true)
  }

  function NextSpin(i: nat): Pc {
    if i + 1 < 10 then SpinLoad(i + 1) else Enter
  }

  /** imp_post: the overflow check and the decision to notify. */
  function AfterPost(before: nat): Pc {
    if Value(before) == C_VALUE_MASK then Failed
    else if Waiters(before) > Value(before) then Notifying else Idle
  }

  function DoPost(word: nat, max: nat): Out {
    Out(if Waiters(word) != 0 || Value(word) >= Min(C_VALUE_MASK, max) then AfterPost(word) else Idle,
        (word + 1) % U32, 0, 1, true)
  }

  function DoTryPost(word: nat, max: nat): Out {
    if Value(word) <= max
    then Out(if Waiters(word) != 0 then AfterPost(word) else Idle, (word + 1) % U32, 0, 1, true)
    else Keep(Idle, word)
  }

  /** imp_wait's fetch_op. */
  function TryHard(word: nat, waits: bool): Out {
    if word == C_WAITER_MASK then Keep(Failed, word)
    else if Value(word) != 0 then
      if waits then Out(Idle, (word - 1 - C_WAITER) % U32, 1, 0, true) else Take(word)
    else if !waits then Keep(Dozing((word + C_WAITER) % U32), (word + C_WAITER) % U32)
    else Keep(Dozing(word), word)
  }

  /** One atomic access; the last two components count a token taken and a token returned. */
  function After(pc: Pc, word: nat, op: Op): Out {
    match pc
    case Idle =>
      (match op
       case Wait => Keep(if Value(word) == 0 then SpinLoad(0) else WaitCas(word), word)
       case TryWait => if Value(word) != 0 then Take(word) else Keep(Idle, word)
       case Post(max) => DoPost(word, max)
       case TryPost(max) => DoTryPost(word, max)
       case _ => Keep(pc, word))
    case WaitCas(v) => if word == v then Take(word) else Keep(SpinLoad(0), word)
    case SpinLoad(i) => Keep(if Value(word) != 0 then SpinCas(i, word) else NextSpin(i), word)
    case SpinCas(i, v) => if word == v then Take(word) else Keep(NextSpin(i), word)
    case Enter => TryHard(word, false)
    case Retry => TryHard(word, true)
    case Dozing(_) => Keep(if op == Sleep then Asleep else Retry, word)
    case Asleep => Keep(Retry, word)
    case Notifying | Failed => Keep(pc, word)
  }

  predicate Access(s: State, s': State, t: nat, op: Op) {
    && t < |s.pcs| && Enabled(s.pcs[t], s.word, op)
    && var o := After(s.pcs[t], s.word, op);
       s' == State(o.word, s.pcs[t := o.pc], s.acquired + o.acquired, s.posted + o.posted)
  }

  /** notify_one: wakes some sleeping thread if there is one. */
  ghost predicate Notify(s: State, s': State, t: nat) {
    && t < |s.pcs| && s.pcs[t] == Notifying
    && if exists u :: 0 <= u < |s.pcs| && s.pcs[u] == Asleep
       then exists u :: 0 <= u < |s.pcs| && s.pcs[u] == Asleep && s' == s.(pcs := s.pcs[t := Idle][u := Retry])
       else s' == s.(pcs := s.pcs[t := Idle])
  }

  /** Nothing runs on after a failed ensure(). */
  ghost predicate Next(s: State, s': State) {
    Failed !in s.pcs && ((exists t, op :: Access(s, s', t, op)) || (exists t :: Notify(s, s', t)))
  }

  predicate Init(s: State, initial: nat) {
    && initial <= 0x7fff && s.word == initial && s.acquired == 0 && s.posted == 0
    && forall t :: 0 <= t < |s.pcs| ==> s.pcs[t] == Idle
  }

  ghost predicate Run(run: seq<State>, initial: nat) {
    && |run| > 0 && Init(run[0], initial)
    && forall i :: 0 <= i < |run| - 1 ==> Next(run[i], run[i + 1])
  }

  // ---------------------------------------------------------------- the invariant

  datatype Role = Bystander | AwakeWaiter | SleepingWaiter | Notifier

  function RoleOf(pc: Pc): Role {
    match pc
    case Retry | Dozing(_) => AwakeWaiter
    case Asleep => SleepingWaiter
    case Notifying => Notifier
    case _ => Bystander
  }

  function Roles(pcs: seq<Pc>): seq<Role> {
    seq(|pcs|, t requires 0 <= t < |pcs| => RoleOf(pcs[t]))
  }

  /** Waiters that are awake, waiters asleep, and notifications still to be delivered. */
  datatype Tally = Tally(awake: nat, asleep: nat, notifying: nat)

  function Count(roles: seq<Role>): Tally {
    Tally(multiset(roles)[AwakeWaiter], multiset(roles)[SleepingWaiter], multiset(roles)[Notifier])
  }

  function Join(r: Role, rest: Tally): Tally {
    match r
    case Bystander => rest
    case AwakeWaiter => rest.(awake := rest.awake + 1)
    case SleepingWaiter => rest.(asleep := rest.asleep + 1)
    case Notifier => rest.(notifying := rest.notifying + 1)
  }

  /** The word's fields are in range and count the registered waiters; tokens with waiters have takers on the way. */
  predicate Consistent(word: nat, c: Tally) {
    && word == Value(word) + C_WAITER * (c.awake + c.asleep) && word < U32
    && c.awake + c.notifying >= Min(Value(word), c.awake + c.asleep)
  }

  predicate PcOk(pc: Pc) {
    match pc
    case WaitCas(v) => Value(v) != 0
    case SpinCas(_, v) => Value(v) != 0
    case Dozing(v) => Value(v) == 0
    case _ => true
  }

  predicate AllOk(pcs: seq<Pc>) {
    forall t :: 0 <= t < |pcs| ==> PcOk(pcs[t])
  }

  predicate Inv(s: State, initial: nat) {
    Failed in s.pcs ||
    (&& Consistent(s.word, Count(Roles(s.pcs)))
     && Value(s.word) + s.acquired == initial + s.posted
     && AllOk(s.pcs))
  }

  // ---------------------------------------------------------------- one access

  /** An outcome beside `rest` other threads that keeps the invariant, unless an ensure() failed. */
  predicate Kept(o: Out, word: nat, rest: Tally) {
    o.pc != Failed ==>
      && PcOk(o.pc) && Consistent(o.word, Join(RoleOf(o.pc), rest))
      && Value(o.word) + o.acquired == Value(word) + o.posted
  }

  lemma TakeKept(word: nat, rest: Tally)
    requires Consistent(word, rest) && Value(word) != 0
    ensures Kept(Take(word), word, rest)
  {
  }

  lemma PostKept(word: nat, max: nat, rest: Tally)
    requires Consistent(word, rest)
    ensures Kept(DoPost(word, max), word, rest)
  {
    assert Value(word) < C_VALUE_MASK ==> Value(word + 1) == Value(word) + 1 && Waiters(word + 1) == Waiters(word);
  }

  lemma TryPostKept(word: nat, max: nat, rest: Tally)
    requires Consistent(word, rest) && max <= 0x7fff
    ensures Kept(DoTryPost(word, max), word, rest)
  {
  }

  lemma EnterKept(word: nat, rest: Tally)
    requires Consistent(word, rest)
    ensures Kept(TryHard(word, false), word, rest)
  {
    if Value(word) != 0 {
      TakeKept(word, rest);
    }
  }

  lemma RetryKept(word: nat, rest: Tally)
    requires Consistent(word, Join(AwakeWaiter, rest))
    ensures Kept(TryHard(word, true), word, rest)
  {
  }

  /** A waiter that saw no token can fall asleep only while there is still none. */
  lemma DozeKept(v: nat, word: nat, op: Op, rest: Tally)
    requires Consistent(word, Join(AwakeWaiter, rest)) && Value(v) == 0 && Enabled(Dozing(v), word, op)
    ensures Kept(After(Dozing(v), word, op), word, rest)
  {
  }

  lemma AccessKept(pc: Pc, word: nat, op: Op, rest: Tally)
    requires Enabled(pc, word, op) && PcOk(pc) && Consistent(word, Join(RoleOf(pc), rest))
    ensures Kept(After(pc, word, op), word, rest)
  {
    match pc
    case Idle =>
      match op {
        case Wait =>
        case TryWait =>
          if Value(word) != 0 { TakeKept(word, rest); }
        case Post(max) => PostKept(word, max, rest);
        case TryPost(max) => TryPostKept(word, max, rest);
        case _ =>
      }
    case WaitCas(v) =>
      if word == v { TakeKept(word, rest); }
    case SpinLoad(_) =>
    case SpinCas(_, v) =>
      if word == v { TakeKept(word, rest); }
    case Enter => EnterKept(word, rest);
    case Retry => RetryKept(word, rest);
    case Dozing(v) => DozeKept(v, word, op, rest);
    case Asleep =>
  }

  // ---------------------------------------------------------------- every run

  function Rest(roles: seq<Role>, t: nat): Tally
    requires t < |roles|
  {
    Count(roles[t := Bystander])
  }

  lemma CountSplit(roles: seq<Role>, t: nat)
    requires t < |roles|
    ensures Count(roles) == Join(roles[t], Rest(roles, t))
  {
  }

  lemma CountUpdate(roles: seq<Role>, t: nat, r: Role)
    requires t < |roles|
    ensures Count(roles[t := r]) == Join(r, Rest(roles, t))
  {
  }

  lemma RolesUpdate(pcs: seq<Pc>, t: nat, pc: Pc)
    requires t < |pcs|
    ensures Roles(pcs[t := pc]) == Roles(pcs)[t := RoleOf(pc)]
  {
  }

  lemma OkUpdate(pcs: seq<Pc>, t: nat, pc: Pc)
    requires AllOk(pcs) && t < |pcs| && PcOk(pc)
    ensures AllOk(pcs[t := pc])
  {
  }

  lemma CountsAfter(s: State, t: nat, pc: Pc)
    requires t < |s.pcs|
    ensures Count(Roles(s.pcs[t := pc])) == Join(RoleOf(pc), Rest(Roles(s.pcs), t))
    ensures Count(Roles(s.pcs)) == Join(RoleOf(s.pcs[t]), Rest(Roles(s.pcs), t))
  {
    RolesUpdate(s.pcs, t, pc);
    CountUpdate(Roles(s.pcs), t, RoleOf(pc));
    CountSplit(Roles(s.pcs), t);
  }

  lemma AccessKeepsInv(s: State, s': State, t: nat, op: Op, initial: nat)
    requires Failed !in s.pcs && Inv(s, initial) && Access(s, s', t, op)
    ensures Inv(s', initial)
  {
    var o := After(s.pcs[t], s.word, op);
    CountsAfter(s, t, o.pc);
    AccessKept(s.pcs[t], s.word, op, Rest(Roles(s.pcs), t));
    if o.pc == Failed {
      assert s'.pcs[t] == Failed;
    } else {
      OkUpdate(s.pcs, t, o.pc);
    }
  }

  /** A delivered notification that finds every waiter awake is not needed. */
  lemma NotifyNobody(s: State, t: nat, initial: nat)
    requires Failed !in s.pcs && Inv(s, initial) && t < |s.pcs| && s.pcs[t] == Notifying
    requires forall u :: 0 <= u < |s.pcs| ==> s.pcs[u] != Asleep
    ensures Inv(s.(pcs := s.pcs[t := Idle]), initial)
  {
    CountsAfter(s, t, Idle);
    OkUpdate(s.pcs, t, Idle);
    assert SleepingWaiter !in Roles(s.pcs);
  }

  lemma WakeKept(word: nat, rest: Tally)
    requires Consistent(word, Join(Notifier, Join(SleepingWaiter, rest)))
    ensures Consistent(word, Join(AwakeWaiter, rest))
  {
  }

  /** A delivered notification turns into an awake waiter. */
  lemma NotifySleeper(s: State, t: nat, u: nat, initial: nat)
    requires Failed !in s.pcs && Inv(s, initial)
    requires t < |s.pcs| && s.pcs[t] == Notifying && u < |s.pcs| && s.pcs[u] == Asleep
    ensures Inv(s.(pcs := s.pcs[t := Idle][u := Retry]), initial)
  {
    var mid := s.(pcs := s.pcs[t := Idle]);
    CountsAfter(s, t, Idle);
    CountsAfter(mid, u, Retry);
    WakeKept(s.word, Rest(Roles(mid.pcs), u));
    OkUpdate(s.pcs, t, Idle);
    OkUpdate(mid.pcs, u, Retry);
  }

  lemma NotifyKeepsInv(s: State, s': State, t: nat, initial: nat)
    requires Failed !in s.pcs && Inv(s, initial) && Notify(s, s', t)
    ensures Inv(s', initial)
  {
    if exists u :: 0 <= u < |s.pcs| && s.pcs[u] == Asleep {
      var u :| 0 <= u < |s.pcs| && s.pcs[u] == Asleep && s' == s.(pcs := s.pcs[t := Idle][u := Retry]);
      NotifySleeper(s, t, u, initial);
    } else {
      NotifyNobody(s, t, initial);
    }
  }

  lemma NextKeepsInv(s: State, s': State, initial: nat)
    requires Inv(s, initial) && Next(s, s')
    ensures Inv(s', initial)
  {
    if exists t, op :: Access(s, s', t, op) {
      var t, op :| Access(s, s', t, op);
      AccessKeepsInv(s, s', t, op, initial);
    } else {
      var t :| Notify(s, s', t);
      NotifyKeepsInv(s, s', t, initial);
    }
  }

  lemma InitInv(s: State, initial: nat)
    requires Init(s, initial)
    ensures Inv(s, initial)
  {
  }

  lemma {:induction false} RunInv(run: seq<State>, initial: nat, i: nat)
    requires Run(run, initial) && i < |run|
    ensures Inv(run[i], initial)
  {
    if i == 0 {
      InitInv(run[0], initial);
    } else {
      RunInv(run, initial, i - 1);
      assert Next(run[i - 1], run[i - 1 + 1]);
      NextKeepsInv(run[i - 1], run[i], initial);
    }
  }

  // ---------------------------------------------------------------- what the invariant means

  predicate Registered(pc: Pc) {
    pc == Retry || pc.Dozing? || pc == Asleep
  }

  /** Tokens are conserved, and the word's high half counts the registered waiters. */
  lemma TokensConserved(run: seq<State>, initial: nat, i: nat)
    requires Run(run, initial) && i < |run| && Failed !in run[i].pcs
    ensures Value(run[i].word) + run[i].acquired == initial + run[i].posted
    ensures run[i].acquired <= initial + run[i].posted
    ensures var c := Count(Roles(run[i].pcs)); Waiters(run[i].word) == c.awake + c.asleep
  {
    RunInv(run, initial, i);
  }

  /** Awake waiters and undelivered notifications cover every token a waiter could take. */
  lemma TokensCovered(run: seq<State>, initial: nat, i: nat)
    requires Run(run, initial) && i < |run| && Failed !in run[i].pcs
    ensures var c := Count(Roles(run[i].pcs));
            c.awake + c.notifying >= Min(Value(run[i].word), c.awake + c.asleep)
  {
    RunInv(run, initial, i);
  }

  /** No waiter sleeps through a token: while one is available, some waiter is awake or about to be notified. */
  lemma NobodySleepsThrough(run: seq<State>, initial: nat, i: nat, u: nat) returns (t: nat)
    requires Run(run, initial) && i < |run| && Failed !in run[i].pcs
    requires u < |run[i].pcs| && Registered(run[i].pcs[u]) && Value(run[i].word) > 0
    ensures t < |run[i].pcs|
    ensures run[i].pcs[t] == Notifying || (Registered(run[i].pcs[t]) && run[i].pcs[t] != Asleep)
  {
    var roles := Roles(run[i].pcs);
    TokensCovered(run, initial, i);
    CountSplit(roles, u);
    var r :| r in roles && (r == AwakeWaiter || r == Notifier);
    t :| t < |roles| && roles[t] == r;
  }

  // ---------------------------------------------------------------- when the checks hold

  lemma {:induction false} RegisteredBound(roles: seq<Role>)
    ensures var c := Count(roles); c.awake + c.asleep <= |roles|
  {
    if roles != [] {
      var n := |roles| - 1;
      RegisteredBound(roles[..n]);
      assert roles == roles[..n] + [roles[n]];
    }
  }

  /** An access fails only on a full word. */
  lemma FailsOnlyFull(pc: Pc, word: nat, op: Op)
    requires word < U32 && Enabled(pc, word, op) && After(pc, word, op).pc == Failed
    ensures if op.Post? || op.TryPost? then Value(word) == C_VALUE_MASK && After(pc, word, op).posted == 1
            else Waiters(word) == 0xffff && (pc == Enter || pc == Retry)
  {
  }

  /** The tokens handed in and not taken out fit the value field. */
  predicate Fits(s: State, initial: nat) {
    initial + s.posted <= s.acquired + C_VALUE_MASK
  }

  lemma NextFails(s: State, s': State, initial: nat)
    requires Failed !in s.pcs && Inv(s, initial) && Next(s, s') && |s.pcs| < 0xffff
    ensures |s'.pcs| == |s.pcs| && (Failed !in s'.pcs <==> Fits(s', initial))
  {
    NextKeepsInv(s, s', initial);
    if exists t: nat, op :: Access(s, s', t, op) {
      var t: nat, op :| Access(s, s', t, op);
      RegisteredBound(Roles(s.pcs));
      if After(s.pcs[t], s.word, op).pc == Failed {
        FailsOnlyFull(s.pcs[t], s.word, op);
        assert s'.pcs[t] == Failed;
      } else {
        assert forall u :: 0 <= u < |s'.pcs| ==> s'.pcs[u] != Failed;
      }
    }
  }

  /**
   * With fewer than 65535 threads no ensure() has failed if and only if the outstanding tokens have fitted the
   * value field all along, however often the semaphore was posted.
   */
  lemma {:induction false} FailsExactly(run: seq<State>, initial: nat, i: nat)
    requires Run(run, initial) && i < |run| && |run[0].pcs| < 0xffff
    ensures Failed !in run[i].pcs <==> forall k :: 0 <= k <= i ==> Fits(run[k], initial)
    ensures |run[i].pcs| == |run[0].pcs|
  {
    if i > 0 {
      assert Next(run[i - 1], run[i - 1 + 1]);
      RunInv(run, initial, i - 1);
      FailsExactly(run, initial, i - 1);
      NextFails(run[i - 1], run[i], initial);
    }
  }

  // ---------------------------------------------------------------- what the calls do

  /** Whose step it is. */
  datatype Label = Acts(t: nat, op: Op) | Notifies(t: nat)

  ghost predicate StepBy(s: State, s': State, l: Label) {
    && Failed !in s.pcs
    && match l
       case Acts(t, op) => Access(s, s', t, op)
       case Notifies(t) => Notify(s, s', t)
  }

  ghost predicate StepAt(run: seq<State>, labels: seq<Label>, i: nat) {
    i < |labels| && i + 1 < |run| && StepBy(run[i], run[i + 1], labels[i])
  }

  /** A run with the thread and the operation of every step. */
  ghost predicate Trace(run: seq<State>, labels: seq<Label>, initial: nat) {
    && |run| == |labels| + 1 && Init(run[0], initial)
    && forall i: nat :: i < |labels| ==> StepAt(run, labels, i)
  }

  lemma StepHasLabel(s: State, s': State) returns (l: Label)
    requires Next(s, s')
    ensures StepBy(s, s', l)
  {
    if t: nat, op :| Access(s, s', t, op) {
      l := Acts(t, op);
    } else {
      var t: nat :| Notify(s, s', t);
      l := Notifies(t);
    }
  }

  /** Every run is a trace without its labels. */
  lemma {:induction false} RunIsTrace(run: seq<State>, initial: nat) returns (labels: seq<Label>)
    requires Run(run, initial)
    ensures Trace(run, labels, initial)
    decreases |run|
  {
    labels := [];
    if |run| > 1 {
      var n := |run| - 2;
      labels := RunIsTrace(run[..n + 1], initial);
      var l := StepHasLabel(run[n], run[n + 1]);
      forall i: nat | i < |labels + [l]|
        ensures StepAt(run, labels + [l], i)
      {
        assert i < n ==> StepAt(run[..n + 1], labels, i);
      }
      labels := labels + [l];
    }
  }

  lemma TraceIsRun(run: seq<State>, labels: seq<Label>, initial: nat)
    requires Trace(run, labels, initial)
    ensures Run(run, initial)
  {
    forall i | 0 <= i < |run| - 1
      ensures Next(run[i], run[i + 1])
    {
      assert StepAt(run, labels, i);
    }
  }

  datatype Call = NoCall | Doing(op: Op)

  function PcOf(s: State, t: nat): Pc {
    if t < |s.pcs| then s.pcs[t] else Idle
  }

  /** The call thread t has made and not returned from after i steps. */
  function CallOf(run: seq<State>, labels: seq<Label>, t: nat, i: nat): Call
    requires i <= |labels| < |run|
  {
    if i == 0 || PcOf(run[i], t) == Idle then NoCall
    else if PcOf(run[i - 1], t) == Idle && labels[i - 1].Acts? && labels[i - 1].t == t then Doing(labels[i - 1].op)
    else CallOf(run, labels, t, i - 1)
  }

  /** The call that step i carries out. */
  function CallAt(run: seq<State>, labels: seq<Label>, i: nat): Call
    requires i < |labels| < |run|
  {
    var l := labels[i];
    if l.Acts? && PcOf(run[i], l.t) == Idle then Doing(l.op) else CallOf(run, labels, l.t, i)
  }

  predicate Serves(pc: Pc, c: Call) {
    match pc
    case Idle => c == NoCall
    case Notifying => c.Doing? && (c.op.Post? || c.op.TryPost?)
    case Failed => true
    case _ => c == Doing(Wait)
  }

  lemma {:induction false} CallServed(run: seq<State>, labels: seq<Label>, initial: nat, t: nat, i: nat)
    requires Trace(run, labels, initial) && i <= |labels|
    ensures Serves(PcOf(run[i], t), CallOf(run, labels, t, i))
  {
    if i > 0 {
      CallServed(run, labels, initial, t, i - 1);
      assert StepAt(run, labels, i - 1);
    }
  }

  /** Whether the call carried out by step i returns in it. */
  predicate Returns(run: seq<State>, labels: seq<Label>, i: nat)
    requires i < |labels| < |run|
  {
    PcOf(run[i + 1], labels[i].t) == Idle
  }

  /** What a step must do for the call it carries out. */
  predicate Fulfils(s: State, s': State, first: bool, c: Call, done: bool, ok: bool) {
    && c.Doing?
    && match c.op
       case Wait =>
         && s'.posted == s.posted && (done ==> Value(s.word) > 0)
         && s'.acquired == s.acquired + if done then 1 else 0
       case TryWait =>
         && first && done && (ok <==> Value(s.word) > 0)
         && s'.posted == s.posted && s'.acquired == s.acquired + if ok then 1 else 0
       case Post(_) =>
         s'.acquired == s.acquired && s'.posted == s.posted + if first then 1 else 0
       case TryPost(max) =>
         && (first ==> (ok <==> Value(s.word) <= max)) && (first && !ok ==> done)
         && s'.acquired == s.acquired && s'.posted == s.posted + if first && ok then 1 else 0
       case _ => false
  }

  /** What the update of a call's first step reported. */
  function Reported(s: State, l: Label): bool {
    l.Acts? && After(PcOf(s, l.t), s.word, l.op).ok
  }

  /**
   * In every trace: wait takes one token, in the step in which it returns and in no other; try_wait reports whether
   * there was a token and takes it then; post gives one token and try_post one if the value was not above the
   * maximum, which it reports.
   */
  lemma CallsFulfilled(run: seq<State>, labels: seq<Label>, initial: nat, i: nat)
    requires Trace(run, labels, initial) && i < |labels|
    ensures var l := labels[i];
            Fulfils(run[i], run[i + 1], PcOf(run[i], l.t) == Idle, CallAt(run, labels, i), Returns(run, labels, i),
                    Reported(run[i], l))
  {
    var l := labels[i];
    CallServed(run, labels, initial, l.t, i);
    TraceIsRun(run, labels, initial);
    RunInv(run, initial, i);
    assert StepAt(run, labels, i);
  }

  /** The waits that have returned and the try_waits that have reported success in the first n steps. */
  function Acquirers(run: seq<State>, labels: seq<Label>, n: nat): nat
    requires n <= |labels| < |run|
  {
    if n == 0 then 0 else
      var c := CallAt(run, labels, n - 1);
      Acquirers(run, labels, n - 1) +
      if (c == Doing(Wait) && Returns(run, labels, n - 1)) ||
         (c == Doing(TryWait) && Reported(run[n - 1], labels[n - 1])) then 1 else 0
  }

  /** The posts that have been made and the try_posts that succeeded. */
  function Posters(run: seq<State>, labels: seq<Label>, n: nat): nat
    requires n <= |labels| < |run|
  {
    if n == 0 then 0 else
      var l := labels[n - 1];
      Posters(run, labels, n - 1) +
      if l.Acts? && PcOf(run[n - 1], l.t) == Idle
         && (l.op.Post? || (l.op.TryPost? && Reported(run[n - 1], l))) then 1 else 0
  }

  /** Every acquired token is that of one returned wait or successful try_wait, every posted one that of one post. */
  lemma {:induction false} TokensAreCalls(run: seq<State>, labels: seq<Label>, initial: nat, n: nat)
    requires Trace(run, labels, initial) && n <= |labels|
    ensures run[n].acquired == Acquirers(run, labels, n) && run[n].posted == Posters(run, labels, n)
  {
    if n > 0 {
      TokensAreCalls(run, labels, initial, n - 1);
      CallsFulfilled(run, labels, initial, n - 1);
    }
  }

  /** Thread t makes the call in step j and is in it until after step k. */
  predicate InCall(run: seq<State>, labels: seq<Label>, t: nat, op: Op, j: nat, k: nat) {
    && j <= k < |labels| < |run| && labels[j] == Acts(t, op) && PcOf(run[j], t) == Idle
    && forall i :: j < i <= k ==> PcOf(run[i], t) != Idle
  }

  lemma {:induction false} CallInProgress(run: seq<State>, labels: seq<Label>, t: nat, op: Op, j: nat, k: nat)
    requires InCall(run, labels, t, op, j, k) && j < k
    ensures CallOf(run, labels, t, k) == Doing(op)
    decreases k
  {
    if j + 1 < k {
      CallInProgress(run, labels, t, op, j, k - 1);
      assert PcOf(run[k - 1], t) != Idle;
    }
  }

  /** The tokens thread t takes in the steps from j on and before k. */
  function TakenBy(run: seq<State>, labels: seq<Label>, t: nat, j: nat, k: nat): int
    requires j <= k <= |labels| < |run|
    decreases k
  {
    if j == k then 0 else
      TakenBy(run, labels, t, j, k - 1) + if labels[k - 1].t == t then run[k].acquired - run[k - 1].acquired else 0
  }

  lemma {:induction false} NoneTakenYet(run: seq<State>, labels: seq<Label>, t: nat, j: nat, k: nat)
    requires j <= k <= |labels| < |run|
    requires forall i :: j <= i < k && labels[i].t == t ==> run[i + 1].acquired == run[i].acquired
    ensures TakenBy(run, labels, t, j, k) == 0
    decreases k
  {
    if j < k {
      NoneTakenYet(run, labels, t, j, k - 1);
    }
  }

  lemma WaitStep(run: seq<State>, labels: seq<Label>, initial: nat, t: nat, j: nat, k: nat)
    requires Trace(run, labels, initial) && InCall(run, labels, t, Wait, j, k) && labels[k].t == t
    ensures run[k + 1].acquired == run[k].acquired + if PcOf(run[k + 1], t) == Idle then 1 else 0
  {
    if j < k {
      assert PcOf(run[k], t) != Idle;
      CallInProgress(run, labels, t, Wait, j, k);
    }
    CallsFulfilled(run, labels, initial, k);
  }

  lemma ReturnIsOwn(run: seq<State>, labels: seq<Label>, initial: nat, t: nat, j: nat, k: nat)
    requires Trace(run, labels, initial) && InCall(run, labels, t, Wait, j, k) && PcOf(run[k + 1], t) == Idle
    ensures labels[k].t == t
  {
    assert StepAt(run, labels, k);
    assert j < k ==> PcOf(run[k], t) != Idle;
  }

  /** From the call of wait to its return the thread takes exactly one token. */
  lemma WaitTakesOne(run: seq<State>, labels: seq<Label>, initial: nat, t: nat, j: nat, k: nat)
    requires Trace(run, labels, initial) && InCall(run, labels, t, Wait, j, k) && PcOf(run[k + 1], t) == Idle
    ensures TakenBy(run, labels, t, j, k + 1) == 1
  {
    forall i | j <= i < k && labels[i].t == t
      ensures run[i + 1].acquired == run[i].acquired
    {
      assert PcOf(run[i + 1], t) != Idle;
      WaitStep(run, labels, initial, t, j, i);
    }
    NoneTakenYet(run, labels, t, j, k);
    ReturnIsOwn(run, labels, initial, t, j, k);
    WaitStep(run, labels, initial, t, j, k);
  }

  /** How many steps of its own a waiting thread needs at most while a token is there and nobody interferes. */
  function Distance(pc: Pc, word: nat): nat {
    match pc
    case WaitCas(v) => if v == word then 1 else 3
    case SpinCas(_, v) => if v == word then 1 else 3
    case SpinLoad(_) | Dozing(_) => 2
    case _ => 1
  }

  /** A wait that is awake and sees a token returns with it, or comes closer to that, in each step of its own. */
  lemma WaitCompletes(pc: Pc, word: nat)
    requires Value(word) > 0 && word < U32 && Serves(pc, Doing(Wait)) && pc != Failed && pc != Asleep
    ensures var o := After(pc, word, Go);
            if o.pc == Idle then o.acquired == 1 && o.posted == 0
            else && o == Keep(o.pc, word) && Serves(o.pc, Doing(Wait)) && o.pc != Failed && o.pc != Asleep
                 && 0 < Distance(o.pc, word) < Distance(pc, word) <= 3
  {
  }
}
