/**
 * The reader/writer lock packed into one 32-bit word (Utilities/mutex.h, Utilities/mutex.cpp), as a
 * transition system: any number of threads, each with a program counter, one atomic access per step.
 */
module SharedMutex {
  import opened Census

  const C_ONE := 0x4000
  const C_SIG := 0x4000_0000
  const C_ERR := 0x8000_0000
  const U32 := 0x1_0000_0000

  /** What a queued thread goes on to do with the lock once it is handed over. */
  datatype Purpose = ForShared | ForExclusive | ForPassage

  /** lock_shared and try_lock_shared. A captured value is what the thread last read from the word. */
  datatype SharedPc =
    | Cas(value: nat)                  // lock_shared, before its compare-and-swap
    | TryCas(value: nat)               // try_lock_shared, before its compare-and-swap
    | Steal(value: nat)                // imp_lock_shared, stealing the signal seen on entry
    | LoopTry(i: nat)                  // the loop: try_lock_shared's load and compare-and-swap, load, steal
    | LoopCas(i: nat, value: nat)
    | LoopLoad(i: nat)
    | LoopSteal(i: nat, value: nat)
    | Queue                            // before fetch_add(c_one)

  /** lock, after its first compare-and-swap failed. */
  datatype LockPc =
    | LkSteal(value: nat)
    | LkLoad(i: nat)
    | LkTry(i: nat)
    | LkLoopSteal(i: nat, value: nat)
    | LkQueue

  /** try_lock_upgrade and lock_upgrade; try 0 of lock_upgrade is outside the loop. */
  datatype UpgradePc =
    | TryUpgradeCas(value: nat)
    | UpLoad(i: nat)
    | UpCas(i: nat, value: nat)
    | UpQueue                          // before fetch_add(c_one - 1)

  /** imp_wait. */
  datatype WaitPc =
    | Awake                            // before fetch_op
    | Dozing(value: nat)               // before the wait on the value read
    | Asleep

  datatype Pc =
    | Idle
    | HasShared
    | HasExclusive
    | InShared(shared: SharedPc)
    | InLock(lock: LockPc)
    | InUpgrade(upgrade: UpgradePc)
    | PassLoad(i: nat, max: nat)       // imp_lock_unlock, its loop
    | PassQueue
    | InWait(wait: WaitPc, why: Purpose)
    | Downgrading                      // exclusive inside lock_shared, before lock_downgrade
    | Passing                          // exclusive inside lock_unlock, before unlock
    | Signaling                        // released, before adding c_sig
    | Notifying                        // signal added, before notify_one
    | Failed                           // an ensure() did not hold

  /** The call a thread makes where it is free to choose; `Go` continues the call in progress. */
  datatype Op =
    | LockShared | TryLockShared | Lock | TryLock | LockUnlock
    | UnlockShared | TryUpgrade | Upgrade
    | Unlock | Downgrade
    | Go | Sleep

  datatype Out = Out(pc: Pc, word: nat)

  function Wrap(x: int): nat {
    x % U32
  }

  predicate HasSig(v: nat) {
    v / C_SIG % 2 == 1
  }

  predicate SingleReader(v: nat) {
    Wrap(v + C_ONE - 1) % C_ONE == 0
  }

  // Entry and loop control of the slow paths.

  function SlowShared(v: nat): Pc {
    if v >= C_ERR then Failed else InShared(if HasSig(v) then Steal(v) else LoopTry(0))
  }

  function NextShared(i: nat): Pc {
    InShared(if i + 1 < 10 then LoopTry(i + 1) else Queue)
  }

  function SlowLock(v: nat): Pc {
    if v >= C_ERR then Failed else InLock(if HasSig(v) then LkSteal(v) else LkLoad(0))
  }

  function NextLock(i: nat): Pc {
    InLock(if i + 1 < 10 then LkLoad(i + 1) else LkQueue)
  }

  function NextUpgrade(i: nat): Pc {
    InUpgrade(if i < 10 then UpLoad(i + 1) else UpQueue)
  }

  function Granted(why: Purpose): Pc {
    match why
    case ForShared => Downgrading
    case ForExclusive => HasExclusive
    case ForPassage => Passing
  }

  /** unlock(): the fetch_sub and the tests on the value it returns. */
  function Unlocked(word: nat): Out {
    Out(if word == C_ONE then Idle
        else if Wrap(word - C_ONE) >= C_ERR then Failed
        else if Wrap(word - C_ONE) != 0 then Signaling else Idle,
        Wrap(word - C_ONE))
  }

  /** unlock_shared(). */
  function SharedUnlocked(word: nat): Out {
    Out(if word < C_ONE then Idle
        else if Wrap(word - 1) >= C_ERR then Failed
        else if Wrap(word - 1) % C_ONE == 0 then Signaling else Idle,
        Wrap(word - 1))
  }

  /** fetch_add(c_one) of a thread that queues unless the word was zero. */
  function Queued(word: nat, free: Pc, why: Purpose, checked: bool): Out {
    Out(if word == 0 then free
        else if checked && word % C_SIG + C_ONE >= C_SIG then Failed
        else InWait(Awake, why),
        Wrap(word + C_ONE))
  }

  function AfterIdle(word: nat, op: Op): Out {
    match op
    case LockShared => Out(if word >= C_ONE - 1 then SlowShared(word) else InShared(Cas(word)), word)
    case TryLockShared => Out(if word < C_ONE - 1 then InShared(TryCas(word)) else Idle, word)
    case Lock => if word == 0 then Out(HasExclusive, C_ONE) else Out(SlowLock(word), word)
    case TryLock => if word == 0 then Out(HasExclusive, C_ONE) else Out(Idle, word)
    case LockUnlock => Out(if word != 0 then PassLoad(0, 1) else Idle, word)
    case _ => Out(Idle, word)
  }

  function AfterHasShared(word: nat, op: Op): Out {
    match op
    case UnlockShared => SharedUnlocked(word)
    case TryUpgrade => Out(if SingleReader(word) then InUpgrade(TryUpgradeCas(word)) else HasShared, word)
    case Upgrade => Out(if SingleReader(word) then InUpgrade(UpCas(0, word)) else NextUpgrade(0), word)
    case _ => Out(HasShared, word)
  }

  function AfterShared(pc: SharedPc, word: nat): Out {
    match pc
    case Cas(v) => if word == v then Out(HasShared, Wrap(v + 1)) else Out(SlowShared(v), word)
    case TryCas(v) => if word == v then Out(HasShared, Wrap(v + 1)) else Out(Idle, word)
    case Steal(v) => if word == v then Out(HasShared, Wrap(v - C_SIG + 1)) else Out(InShared(LoopTry(0)), word)
    case LoopTry(i) => Out(InShared(if word < C_ONE - 1 then LoopCas(i, word) else LoopLoad(i)), word)
    case LoopCas(i, v) => if word == v then Out(HasShared, Wrap(v + 1)) else Out(InShared(LoopLoad(i)), word)
    case LoopLoad(i) => Out(if HasSig(word) then InShared(LoopSteal(i, word)) else NextShared(i), word)
    case LoopSteal(i, v) => if word == v then Out(HasShared, Wrap(v - C_SIG + 1)) else Out(NextShared(i), word)
    case Queue => Queued(word, Downgrading, ForShared, true)
  }

  function AfterLock(pc: LockPc, word: nat): Out {
    match pc
    case LkSteal(v) => if word == v then Out(HasExclusive, Wrap(v - C_SIG + C_ONE)) else Out(InLock(LkLoad(0)), word)
    case LkLoad(i) =>
      Out(if word == 0 then InLock(LkTry(i)) else if HasSig(word) then InLock(LkLoopSteal(i, word)) else NextLock(i),
          word)
    case LkTry(i) => if word == 0 then Out(HasExclusive, C_ONE) else Out(NextLock(i), word)
    case LkLoopSteal(i, v) => if word == v then Out(HasExclusive, Wrap(v - C_SIG + C_ONE)) else Out(NextLock(i), word)
    case LkQueue => Queued(word, HasExclusive, ForExclusive, true)
  }

  function AfterUpgrade(pc: UpgradePc, word: nat): Out {
    match pc
    case TryUpgradeCas(v) => if word == v then Out(HasExclusive, Wrap(v + C_ONE - 1)) else Out(HasShared, word)
    case UpLoad(i) => Out(if SingleReader(word) then InUpgrade(UpCas(i, word)) else NextUpgrade(i), word)
    case UpCas(i, v) => if word == v then Out(HasExclusive, Wrap(v + C_ONE - 1)) else Out(NextUpgrade(i), word)
    case UpQueue =>
      Out(if word % C_SIG + C_ONE - 1 >= C_SIG then Failed
          else if word % C_ONE == 1 then HasExclusive else InWait(Awake, ForExclusive),
          Wrap(word + C_ONE - 1))
  }

  function AfterWait(pc: WaitPc, why: Purpose, word: nat, op: Op): Out {
    match pc
    case Awake => if word >= C_SIG then Out(Granted(why), word - C_SIG) else Out(InWait(Dozing(word), why), word)
    case Dozing(_) => Out(InWait(if op == Sleep then Asleep else Awake, why), word)
    case Asleep => Out(InWait(Awake, why), word)
  }

  predicate Enabled(pc: Pc, word: nat, op: Op) {
    match pc
    case Idle => op in {LockShared, TryLockShared, Lock, TryLock, LockUnlock}
    case HasShared => op in {UnlockShared, TryUpgrade, Upgrade}
    case HasExclusive => op in {Unlock, Downgrade}
    case InWait(Dozing(v), _) => op == Go || (op == Sleep && word == v)
    case Notifying => false
    case Failed => false
    case _ => op == Go
  }

  /** One atomic access by a thread at `pc`. `Notifying` also touches another thread: see `Notify`. */
  function After(pc: Pc, word: nat, op: Op): Out {
    match pc
    case Idle => AfterIdle(word, op)
    case HasShared => AfterHasShared(word, op)
    case HasExclusive => if op == Unlock then Unlocked(word) else Out(HasShared, Wrap(word - (C_ONE - 1)))
    case InShared(s) => AfterShared(s, word)
    case InLock(l) => AfterLock(l, word)
    case InUpgrade(u) => AfterUpgrade(u, word)
    case PassLoad(i, max) =>
      Out(if word % C_ONE == 0 && (word / C_ONE < max || word >= C_SIG) then Idle
          else if i + 1 < 30 then PassLoad(i + 1, word / C_ONE) else PassQueue, word)
    case PassQueue => Queued(word, Passing, ForPassage, false)
    case InWait(w, why) => AfterWait(w, why, word, op)
    case Downgrading => Out(HasShared, Wrap(word - (C_ONE - 1)))
    case Passing => Unlocked(word)
    case Signaling => Out(Notifying, Wrap(word + C_SIG))
    case Notifying | Failed => Out(pc, word)
  }

  datatype State = State(word: nat, pcs: seq<Pc>)

  /** Fewer threads than the writer field can count. */
  const CAPACITY := 0x1_0000

  predicate Init(s: State) {
    s.word == 0 && forall t :: 0 <= t < |s.pcs| ==> s.pcs[t] == Idle
  }

  predicate IsAsleep(pc: Pc) {
    pc.InWait? && pc.wait.Asleep?
  }

  /** notify_one: wakes some sleeping thread if there is one. */
  ghost predicate Notify(s: State, s': State, t: nat) {
    && t < |s.pcs| && s.pcs[t] == Notifying && s'.word == s.word
    && if exists u :: 0 <= u < |s.pcs| && IsAsleep(s.pcs[u])
       then exists u :: 0 <= u < |s.pcs| && IsAsleep(s.pcs[u])
                     && s'.pcs == s.pcs[t := Idle][u := InWait(Awake, s.pcs[u].why)]
       else s'.pcs == s.pcs[t := Idle]
  }

  predicate Access(s: State, s': State, t: nat, op: Op) {
    && t < |s.pcs| && Enabled(s.pcs[t], s.word, op)
    && var o := After(s.pcs[t], s.word, op);
       s' == State(o.word, s.pcs[t := o.pc])
  }

  ghost predicate Next(s: State, s': State) {
    (exists t, op :: Access(s, s', t, op)) || (exists t :: Notify(s, s', t))
  }

  ghost predicate Run(run: seq<State>) {
    && |run| > 0 && Init(run[0])
    && forall i :: 0 <= i < |run| - 1 ==> Next(run[i], run[i + 1])
  }

  // ---------------------------------------------------------------- standings

  function RoleOf(pc: Pc): Role {
    match pc
    case HasShared | InUpgrade(_) => Reader
    case HasExclusive | Downgrading | Passing => Writer
    case InWait(w, _) => if w.Asleep? then Sleeper else Waiter
    case Signaling => Signaler
    case Notifying => Notifier
    case _ => Nobody
  }

  function Roles(pcs: seq<Pc>): seq<Role> {
    seq(|pcs|, t requires 0 <= t < |pcs| => RoleOf(pcs[t]))
  }

  lemma RolesUpdate(pcs: seq<Pc>, t: nat, pc: Pc)
    requires t < |pcs|
    ensures Roles(pcs[t := pc]) == Roles(pcs)[t := RoleOf(pc)]
  {
  }

  // ---------------------------------------------------------------- the invariant

  /**
   * Whether the signal bit is due: threads are queued, and neither a writer nor a reader holds the lock nor
   * is a thread about to signal.
   */
  function Sig(c: Tally): nat {
    if c.queued > 0 && c.writers == 0 && c.readers == 0 && c.signaling == 0 then 1 else 0
  }

  /** The word as a function of the threads' positions. */
  function Word(c: Tally): nat {
    c.readers + C_ONE * (c.writers + c.queued) + C_SIG * Sig(c)
  }

  /** At most one holder of the hand-over token, counts within their fields, and no signal without a waiter. */
  predicate Exclusive(c: Tally) {
    && c.writers + (if c.readers > 0 then 1 else 0) + c.signaling <= 1
    && (c.signaling > 0 ==> c.queued > 0)
    && c.readers < C_ONE && c.readers + C_ONE * (c.writers + c.queued) < C_SIG
  }

  /** A pending signal has somebody to act on it: a notification still to come or a queued thread that is awake. */
  predicate SignalServed(c: Tally) {
    Sig(c) == 1 ==> c.notifying + c.awake > 0
  }

  /** What a thread's captured value satisfies; no thread has failed an ensure(). */
  predicate PcOk(pc: Pc) {
    match pc
    case InShared(s) =>
      (match s
       case Cas(v) => v < C_ONE - 1
       case TryCas(v) => v < C_ONE - 1
       case LoopCas(_, v) => v < C_ONE - 1
       case Steal(v) => C_SIG <= v < C_ERR
       case LoopSteal(_, v) => C_SIG <= v < C_ERR
       case _ => true)
    case InLock(l) =>
      (match l
       case LkSteal(v) => C_SIG <= v < C_ERR
       case LkLoopSteal(_, v) => C_SIG <= v < C_ERR
       case _ => true)
    case InUpgrade(u) =>
      (match u
       case TryUpgradeCas(v) => v % C_ONE == 1
       case UpCas(_, v) => v % C_ONE == 1
       case _ => true)
    case InWait(w, _) => w.Dozing? ==> w.value < C_SIG
    case Failed => false
    case _ => true
  }

  predicate Consistent(word: nat, c: Tally) {
    word == Word(c) && Exclusive(c) && SignalServed(c)
  }

  predicate Inv(s: State) {
    && |s.pcs| < CAPACITY
    && Consistent(s.word, Count(Roles(s.pcs)))
    && AllOk(s.pcs)
  }

  predicate AllOk(pcs: seq<Pc>) {
    forall t :: 0 <= t < |pcs| ==> PcOk(pcs[t])
  }

  // Each kind of access, for a thread beside `rest` others.

  /** Room for one more thread in the writer field. */
  predicate Room(rest: Tally) {
    rest.readers + rest.writers + rest.queued < CAPACITY - 1 && rest.awake <= rest.queued
  }

  lemma FieldsOf(word: nat, c: Tally)
    requires Consistent(word, c)
    ensures word % C_ONE == c.readers && word % C_SIG == c.readers + C_ONE * (c.writers + c.queued)
    ensures word < C_ERR && (HasSig(word) <==> word >= C_SIG) && (word >= C_SIG <==> Sig(c) == 1)
    ensures SingleReader(word) <==> c.readers == 1
  {
  }

  lemma AcquireExclusive(rest: Tally)
    requires Consistent(0, Join(Nobody, rest))
    ensures Consistent(C_ONE, Join(Writer, rest))
  {
  }

  lemma StealExclusive(word: nat, rest: Tally)
    requires Consistent(word, Join(Nobody, rest)) && word >= C_SIG && Room(rest)
    ensures Consistent(Wrap(word - C_SIG + C_ONE), Join(Writer, rest))
  {
  }

  lemma Enqueue(word: nat, rest: Tally)
    requires Consistent(word, Join(Nobody, rest)) && word != 0 && Room(rest)
    ensures word % C_SIG + C_ONE < C_SIG && Consistent(Wrap(word + C_ONE), Join(Waiter, rest))
  {
  }

  lemma DowngradeExclusive(word: nat, rest: Tally)
    requires Consistent(word, Join(Writer, rest))
    ensures Consistent(Wrap(word - (C_ONE - 1)), Join(Reader, rest))
  {
  }

  lemma UpgradeSingle(word: nat, rest: Tally)
    requires Consistent(word, Join(Reader, rest)) && word % C_ONE == 1 && Room(rest)
    ensures word % C_SIG + C_ONE - 1 < C_SIG && Consistent(Wrap(word + C_ONE - 1), Join(Writer, rest))
  {
  }

  lemma UpgradeEnqueue(word: nat, rest: Tally)
    requires Consistent(word, Join(Reader, rest)) && word % C_ONE != 1 && Room(rest)
    ensures word % C_SIG + C_ONE - 1 < C_SIG && Consistent(Wrap(word + C_ONE - 1), Join(Waiter, rest))
  {
  }

  lemma ReleaseShared(word: nat, rest: Tally)
    requires Consistent(word, Join(Reader, rest))
    ensures word >= 1 && word - 1 < C_ERR
    ensures Consistent(Wrap(word - 1), Join(if word < C_ONE || (word - 1) % C_ONE != 0 then Nobody else Signaler, rest))
  {
  }

  lemma TakeSignal(word: nat, rest: Tally)
    requires Consistent(word, Join(Waiter, rest)) && word >= C_SIG
    ensures Consistent(word - C_SIG, Join(Writer, rest))
  {
  }

  lemma AddSignal(word: nat, rest: Tally)
    requires Consistent(word, Join(Signaler, rest))
    ensures Consistent(Wrap(word + C_SIG), Join(Notifier, rest))
  {
  }

  /** Only while no signal is pending can a thread that saw none fall asleep. */
  lemma FallAsleep(word: nat, rest: Tally)
    requires Consistent(word, Join(Waiter, rest)) && word < C_SIG
    ensures Consistent(word, Join(Sleeper, rest))
  {
  }

  lemma WakeUp(word: nat, rest: Tally)
    requires Consistent(word, Join(Sleeper, rest))
    ensures Consistent(word, Join(Waiter, rest))
  {
  }

  predicate Kept(o: Out, rest: Tally) {
    PcOk(o.pc) && Consistent(o.word, Join(RoleOf(o.pc), rest))
  }

  lemma SlowPathsOk(word: nat, i: nat)
    requires word < C_ERR
    ensures PcOk(SlowShared(word)) && RoleOf(SlowShared(word)) == Nobody
    ensures PcOk(SlowLock(word)) && RoleOf(SlowLock(word)) == Nobody
    ensures PcOk(NextShared(i)) && RoleOf(NextShared(i)) == Nobody
    ensures PcOk(NextLock(i)) && RoleOf(NextLock(i)) == Nobody
    ensures PcOk(NextUpgrade(i)) && RoleOf(NextUpgrade(i)) == Reader
  {
  }

  lemma UnlockedKept(word: nat, rest: Tally)
    requires Consistent(word, Join(Writer, rest))
    ensures Kept(Unlocked(word), rest)
  {
  }

  lemma SharedUnlockedKept(word: nat, rest: Tally)
    requires Consistent(word, Join(Reader, rest))
    ensures Kept(SharedUnlocked(word), rest)
  {
    ReleaseShared(word, rest);
  }

  lemma QueuedKept(word: nat, free: Pc, why: Purpose, checked: bool, rest: Tally)
    requires Consistent(word, Join(Nobody, rest)) && Room(rest) && RoleOf(free) == Writer
    ensures Kept(Queued(word, free, why, checked), rest)
  {
    if word == 0 {
      AcquireExclusive(rest);
    } else {
      Enqueue(word, rest);
    }
  }

  lemma CasKept(v: nat, word: nat, otherwise: Pc, rest: Tally)
    requires Consistent(word, Join(Nobody, rest)) && v < C_ONE - 1 && PcOk(otherwise) && RoleOf(otherwise) == Nobody
    ensures Kept(if word == v then Out(HasShared, Wrap(v + 1)) else Out(otherwise, word), rest)
  {
  }

  lemma StealKept(v: nat, word: nat, otherwise: Pc, rest: Tally)
    requires Consistent(word, Join(Nobody, rest)) && v >= C_SIG && PcOk(otherwise) && RoleOf(otherwise) == Nobody
    ensures Kept(if word == v then Out(HasShared, Wrap(v - C_SIG + 1)) else Out(otherwise, word), rest)
  {
  }

  lemma SharedAccess(pc: SharedPc, word: nat, rest: Tally)
    requires PcOk(InShared(pc)) && Consistent(word, Join(Nobody, rest)) && Room(rest)
    ensures Kept(AfterShared(pc, word), rest)
  {
    match pc
    case Cas(v) =>
      SlowPathsOk(v, 0);
      CasKept(v, word, SlowShared(v), rest);
    case TryCas(v) =>
      CasKept(v, word, Idle, rest);
    case Steal(v) =>
      StealKept(v, word, InShared(LoopTry(0)), rest);
    case LoopTry(_) =>
    case LoopCas(i, v) =>
      CasKept(v, word, InShared(LoopLoad(i)), rest);
    case LoopLoad(i) =>
      FieldsOf(word, rest);
      SlowPathsOk(word, i);
    case LoopSteal(i, v) =>
      SlowPathsOk(v, i);
      StealKept(v, word, NextShared(i), rest);
    case Queue =>
      QueuedKept(word, Downgrading, ForShared, true, rest);
  }

  lemma LockAccess(pc: LockPc, word: nat, rest: Tally)
    requires PcOk(InLock(pc)) && Consistent(word, Join(Nobody, rest)) && Room(rest)
    ensures Kept(AfterLock(pc, word), rest)
  {
    FieldsOf(word, rest);
    match pc
    case LkSteal(v) =>
      if word == v { StealExclusive(word, rest); }
    case LkLoad(i) =>
      SlowPathsOk(word, i);
    case LkTry(i) =>
      if word == 0 { AcquireExclusive(rest); } else { SlowPathsOk(word, i); }
    case LkLoopSteal(i, v) =>
      if word == v { StealExclusive(word, rest); } else { SlowPathsOk(word, i); }
    case LkQueue =>
      QueuedKept(word, HasExclusive, ForExclusive, true, rest);
  }

  lemma UpgradeAccess(pc: UpgradePc, word: nat, rest: Tally)
    requires PcOk(InUpgrade(pc)) && Consistent(word, Join(Reader, rest)) && Room(rest)
    ensures Kept(AfterUpgrade(pc, word), rest)
  {
    FieldsOf(word, Join(Reader, rest));
    match pc
    case TryUpgradeCas(v) =>
      if word == v { UpgradeSingle(word, rest); }
    case UpLoad(i) =>
      SlowPathsOk(word, i);
    case UpCas(i, v) =>
      if word == v { UpgradeSingle(word, rest); } else { SlowPathsOk(word, i); }
    case UpQueue =>
      if word % C_ONE == 1 { UpgradeSingle(word, rest); } else { UpgradeEnqueue(word, rest); }
  }

  lemma WaitAccess(pc: WaitPc, why: Purpose, word: nat, op: Op, rest: Tally)
    requires Enabled(InWait(pc, why), word, op) && PcOk(InWait(pc, why))
    requires Consistent(word, Join(RoleOf(InWait(pc, why)), rest))
    ensures Kept(AfterWait(pc, why, word, op), rest)
  {
    match pc
    case Awake =>
      if word >= C_SIG { TakeSignal(word, rest); }
    case Dozing(_) =>
      if op == Sleep { FallAsleep(word, rest); }
    case Asleep =>
      WakeUp(word, rest);
  }

  lemma IdleAccess(word: nat, op: Op, rest: Tally)
    requires Consistent(word, Join(Nobody, rest))
    ensures Kept(AfterIdle(word, op), rest)
  {
  }

  lemma ReaderAccess(word: nat, op: Op, rest: Tally)
    requires Consistent(word, Join(Reader, rest))
    ensures Kept(AfterHasShared(word, op), rest)
  {
    if op == UnlockShared {
      SharedUnlockedKept(word, rest);
    } else {
      FieldsOf(word, Join(Reader, rest));
      SlowPathsOk(word, 0);
    }
  }

  /** An atomic access keeps the counts consistent; `rest` counts the other threads. */
  lemma AccessKeepsCounts(pc: Pc, word: nat, op: Op, rest: Tally)
    requires Enabled(pc, word, op) && PcOk(pc) && Room(rest)
    requires Consistent(word, Join(RoleOf(pc), rest))
    ensures Kept(After(pc, word, op), rest)
  {
    match pc
    case Idle => IdleAccess(word, op, rest);
    case HasShared => ReaderAccess(word, op, rest);
    case HasExclusive =>
      if op == Unlock { UnlockedKept(word, rest); } else { DowngradeExclusive(word, rest); }
    case InShared(s) => SharedAccess(s, word, rest);
    case InLock(l) => LockAccess(l, word, rest);
    case InUpgrade(u) => UpgradeAccess(u, word, rest);
    case PassLoad(_, _) =>
    case PassQueue => QueuedKept(word, Passing, ForPassage, false, rest);
    case InWait(w, why) => WaitAccess(w, why, word, op, rest);
    case Downgrading => DowngradeExclusive(word, rest);
    case Passing => UnlockedKept(word, rest);
    case Signaling => AddSignal(word, rest);
  }

  // ---------------------------------------------------------------- every run

  lemma OkUpdate(pcs: seq<Pc>, t: nat, pc: Pc)
    requires AllOk(pcs) && t < |pcs| && PcOk(pc)
    ensures AllOk(pcs[t := pc])
  {
  }

  /** One thread's accepted outcome beside the others' standings makes a state that satisfies the invariant. */
  lemma ReplaceThread(s: State, t: nat, o: Out)
    requires |s.pcs| < CAPACITY && t < |s.pcs| && AllOk(s.pcs)
    requires Kept(o, Rest(Roles(s.pcs), t))
    ensures Inv(State(o.word, s.pcs[t := o.pc]))
  {
    OkUpdate(s.pcs, t, o.pc);
    RolesUpdate(s.pcs, t, o.pc);
    CountUpdate(Roles(s.pcs), t, RoleOf(o.pc));
  }

  lemma ThreadBesideOthers(s: State, t: nat)
    requires Inv(s) && t < |s.pcs|
    ensures PcOk(s.pcs[t]) && Room(Rest(Roles(s.pcs), t))
    ensures Consistent(s.word, Join(RoleOf(s.pcs[t]), Rest(Roles(s.pcs), t)))
  {
    CountSplit(Roles(s.pcs), t);
    RestBound(Roles(s.pcs), t);
  }

  lemma AccessOutcome(s: State, t: nat, op: Op)
    requires Inv(s) && t < |s.pcs| && Enabled(s.pcs[t], s.word, op)
    ensures Kept(After(s.pcs[t], s.word, op), Rest(Roles(s.pcs), t))
  {
    ThreadBesideOthers(s, t);
    AccessKeepsCounts(s.pcs[t], s.word, op, Rest(Roles(s.pcs), t));
  }

  lemma AccessKeepsInv(s: State, s': State, t: nat, op: Op)
    requires Inv(s) && Access(s, s', t, op)
    ensures Inv(s')
  {
    AccessOutcome(s, t, op);
    ReplaceThread(s, t, After(s.pcs[t], s.word, op));
  }

  /** A notification that wakes a sleeper, or finds none, leaves a pending signal served. */
  lemma NotifyKeepsCounts(word: nat, c: Tally, c': Tally)
    requires Consistent(word, c) && c'.awake <= c'.queued
    requires c'.(notifying := c.notifying, awake := c.awake) == c
    requires c'.awake > 0 || c'.awake == c'.queued
    ensures Consistent(word, c')
  {
  }

  /** notify_one that finds nobody asleep. */
  lemma NotifyNobody(s: State, t: nat)
    requires Inv(s) && t < |s.pcs| && s.pcs[t] == Notifying
    requires forall u :: 0 <= u < |s.pcs| ==> !IsAsleep(s.pcs[u])
    ensures Inv(State(s.word, s.pcs[t := Idle]))
  {
    OkUpdate(s.pcs, t, Idle);
    NotifyNobodyCounts(s, t);
  }

  lemma NotifyNobodyCounts(s: State, t: nat)
    requires Inv(s) && t < |s.pcs| && s.pcs[t] == Notifying
    requires forall u :: 0 <= u < |s.pcs| ==> !IsAsleep(s.pcs[u])
    ensures Consistent(s.word, Count(Roles(s.pcs[t := Idle])))
  {
    RolesUpdate(s.pcs, t, Idle);
    DoneNotifying(Roles(s.pcs), t);
    NotifyKeepsCounts(s.word, Count(Roles(s.pcs)), Count(Roles(s.pcs)[t := Nobody]));
  }

  /** notify_one that wakes thread `u`. */
  lemma NotifySleeper(s: State, t: nat, u: nat)
    requires Inv(s) && t < |s.pcs| && s.pcs[t] == Notifying && u < |s.pcs| && IsAsleep(s.pcs[u])
    ensures Inv(State(s.word, s.pcs[t := Idle][u := InWait(Awake, s.pcs[u].why)]))
  {
    OkUpdate(s.pcs, t, Idle);
    OkUpdate(s.pcs[t := Idle], u, InWait(Awake, s.pcs[u].why));
    NotifySleeperCounts(s, t, u);
  }

  lemma NotifySleeperCounts(s: State, t: nat, u: nat)
    requires Inv(s) && t < |s.pcs| && s.pcs[t] == Notifying && u < |s.pcs| && IsAsleep(s.pcs[u])
    ensures Consistent(s.word, Count(Roles(s.pcs[t := Idle][u := InWait(Awake, s.pcs[u].why)])))
  {
    RolesUpdate(s.pcs, t, Idle);
    RolesUpdate(s.pcs[t := Idle], u, InWait(Awake, s.pcs[u].why));
    DoneWaking(Roles(s.pcs), t, u);
    NotifyKeepsCounts(s.word, Count(Roles(s.pcs)), Count(Roles(s.pcs)[t := Nobody][u := Waiter]));
  }

  lemma NotifyKeepsInv(s: State, s': State, t: nat)
    requires Inv(s) && Notify(s, s', t)
    ensures Inv(s')
  {
    if exists u :: 0 <= u < |s.pcs| && IsAsleep(s.pcs[u]) {
      var u :| 0 <= u < |s.pcs| && IsAsleep(s.pcs[u]) && s'.pcs == s.pcs[t := Idle][u := InWait(Awake, s.pcs[u].why)];
      NotifySleeper(s, t, u);
    } else {
      NotifyNobody(s, t);
    }
  }

  lemma NextKeepsInv(s: State, s': State)
    requires Inv(s) && Next(s, s')
    ensures Inv(s')
  {
    if exists t, op :: Access(s, s', t, op) {
      var t, op :| Access(s, s', t, op);
      AccessKeepsInv(s, s', t, op);
    } else {
      var t :| Notify(s, s', t);
      NotifyKeepsInv(s, s', t);
    }
  }

  lemma InitInv(s: State)
    requires Init(s) && |s.pcs| < CAPACITY
    ensures Inv(s)
  {
  }

  /** Every state of every run satisfies the invariant. */
  lemma {:induction false} RunInv(run: seq<State>, i: nat)
    requires Run(run) && |run[0].pcs| < CAPACITY && i < |run|
    ensures Inv(run[i])
  {
    if i == 0 {
      InitInv(run[0]);
    } else {
      RunInv(run, i - 1);
      assert Next(run[i - 1], run[i - 1 + 1]);
      NextKeepsInv(run[i - 1], run[i]);
    }
  }

  // ---------------------------------------------------------------- what the invariant means

  predicate Reads(pc: Pc) {
    RoleOf(pc) == Reader
  }

  predicate Writes(pc: Pc) {
    RoleOf(pc) == Writer
  }

  /** A writer never coexists with a reader or another writer. */
  lemma MutualExclusion(run: seq<State>, i: nat, t: nat, u: nat)
    requires Run(run) && |run[0].pcs| < CAPACITY && i < |run| && t < |run[i].pcs| && u < |run[i].pcs| && t != u
    requires Writes(run[i].pcs[t])
    ensures !Writes(run[i].pcs[u]) && !Reads(run[i].pcs[u])
  {
    RunInv(run, i);
    CountSplit(Roles(run[i].pcs), t);
    CountSplit(Roles(run[i].pcs)[t := Nobody], u);
  }

  /** No ensure() ever fails, and the word never leaves its range. */
  lemma NoOverflow(run: seq<State>, i: nat)
    requires Run(run) && |run[0].pcs| < CAPACITY && i < |run|
    ensures run[i].word < C_ERR
    ensures forall t :: 0 <= t < |run[i].pcs| ==> run[i].pcs[t] != Failed
  {
    RunInv(run, i);
    FieldsOf(run[i].word, Count(Roles(run[i].pcs)));
    assert !PcOk(Failed);
  }

  /** The word is readers + c_one * (holder + queued) + c_sig * signal. */
  lemma WordIsCounts(run: seq<State>, i: nat)
    requires Run(run) && |run[0].pcs| < CAPACITY && i < |run|
    ensures var c, word := Count(Roles(run[i].pcs)), run[i].word;
            && word == c.readers + C_ONE * (c.writers + c.queued) + C_SIG * (word / C_SIG)
            && word / C_SIG <= 1 && word % C_ONE == c.readers
  {
    RunInv(run, i);
    FieldsOf(run[i].word, Count(Roles(run[i].pcs)));
  }

  /**
   * While a thread is queued exactly one of these holds the hand-over: a writer, the readers, the signal bit,
   * a thread about to signal. Without a queued thread the signal bit is clear and nobody is about to signal.
   */
  lemma OneToken(run: seq<State>, i: nat)
    requires Run(run) && |run[0].pcs| < CAPACITY && i < |run|
    ensures var c, sig := Count(Roles(run[i].pcs)), run[i].word / C_SIG;
            && (c.queued > 0 ==> c.writers + (if c.readers > 0 then 1 else 0) + sig + c.signaling == 1)
            && (c.queued == 0 ==> sig == 0 && c.signaling == 0)
  {
    RunInv(run, i);
    FieldsOf(run[i].word, Count(Roles(run[i].pcs)));
  }

  lemma QueueHasDriver(word: nat, c: Tally)
    requires Consistent(word, c) && c.queued > 0
    ensures Busy(c)
  {
  }

  lemma StateHasDriver(s: State, u: nat) returns (t: nat)
    requires Inv(s) && u < |s.pcs| && s.pcs[u].InWait?
    ensures t < |s.pcs| && Drives(RoleOf(s.pcs[t]))
  {
    CountSplit(Roles(s.pcs), u);
    QueueHasDriver(s.word, Count(Roles(s.pcs)));
    t := SomeDriver(Roles(s.pcs));
  }

  /** A queued thread is never stranded: some thread that is not asleep holds the lock or works on handing it over. */
  lemma NobodyStranded(run: seq<State>, i: nat, u: nat) returns (t: nat)
    requires Run(run) && |run[0].pcs| < CAPACITY && i < |run| && u < |run[i].pcs| && run[i].pcs[u].InWait?
    ensures t < |run[i].pcs| && Drives(RoleOf(run[i].pcs[t]))
  {
    RunInv(run, i);
    t := StateHasDriver(run[i], u);
  }

  // ---------------------------------------------------------------- one thread more

  /** Some run of n threads ends in s. */
  ghost predicate Reachable(s: State, n: nat) {
    exists run: seq<State> :: Run(run) && |run[0].pcs| == n && run[|run| - 1] == s
  }

  lemma ReachNext(s: State, s': State, n: nat)
    requires Reachable(s, n) && Next(s, s')
    ensures Reachable(s', n)
  {
    var run: seq<State> :| Run(run) && |run[0].pcs| == n && run[|run| - 1] == s;
    var run' := run + [s'];
    forall i | 0 <= i < |run'| - 1
      ensures Next(run'[i], run'[i + 1])
    {
    }
    assert Run(run') && run'[|run'| - 1] == s';
  }

  lemma ReachAccess(s: State, t: nat, op: Op, n: nat)
    requires Reachable(s, n) && t < |s.pcs| && Enabled(s.pcs[t], s.word, op)
    ensures var o := After(s.pcs[t], s.word, op); Reachable(State(o.word, s.pcs[t := o.pc]), n)
  {
    var o := After(s.pcs[t], s.word, op);
    var s' := State(o.word, s.pcs[t := o.pc]);
    assert Access(s, s', t, op);
    ReachNext(s, s', n);
  }

  /** A thread that finds the lock taken in all ten rounds goes on to queue. */
  lemma {:induction false} ReachQueue(s: State, t: nat, i: nat, n: nat)
    requires t < |s.pcs| && 0 < s.word < C_SIG && i < 10
    requires Reachable(s.(pcs := s.pcs[t := InLock(LkLoad(i))]), n)
    ensures Reachable(s.(pcs := s.pcs[t := InLock(LkQueue)]), n)
    decreases 10 - i
  {
    var s' := s.(pcs := s.pcs[t := InLock(LkLoad(i))]);
    ReachAccess(s', t, Go, n);
    assert s'.pcs[t := After(s'.pcs[t], s.word, Go).pc] == s.pcs[t := NextLock(i)];
    if i + 1 < 10 {
      ReachQueue(s, t, i + 1, n);
    }
  }

  /** A call of lock on a taken lock without a signal leads to the queue. */
  lemma ReachWaiting(s: State, t: nat, n: nat)
    requires Reachable(s, n) && t < |s.pcs| && s.pcs[t] == Idle && 0 < s.word < C_SIG - C_ONE
    ensures Reachable(State(s.word + C_ONE, s.pcs[t := InWait(Awake, ForExclusive)]), n)
  {
    ReachAccess(s, t, Lock, n);
    ReachQueue(s, t, 0, n);
    var s' := s.(pcs := s.pcs[t := InLock(LkQueue)]);
    ReachAccess(s', t, Go, n);
    assert s'.pcs[t := InWait(Awake, ForExclusive)] == s.pcs[t := InWait(Awake, ForExclusive)];
  }

  /** Thread 0 at `pc`, the next k threads queued and awake, the others idle. */
  function Crowd(pc: Pc, k: nat, n: nat): seq<Pc> {
    seq(n, t => if t == 0 then pc else if t <= k then InWait(Awake, ForExclusive) else Idle)
  }

  lemma {:induction false} ReachCrowd(k: nat, n: nat)
    requires k < CAPACITY - 1 && k < n
    ensures Reachable(State(C_ONE * (k + 1), Crowd(HasExclusive, k, n)), n)
  {
    if k == 0 {
      var s := State(0, Crowd(Idle, 0, n));
      assert Run([s]) && [s][0] == s;
      ReachAccess(s, 0, Lock, n);
      assert s.pcs[0 := HasExclusive] == Crowd(HasExclusive, 0, n);
    } else {
      ReachCrowd(k - 1, n);
      var s := State(C_ONE * k, Crowd(HasExclusive, k - 1, n));
      ReachWaiting(s, k, n);
      assert s.pcs[k := InWait(Awake, ForExclusive)] == Crowd(HasExclusive, k, n);
    }
  }

  /** The holder leaves, and one more thread queues behind 65534 others before the signal is up. */
  lemma ReachLate(n: nat)
    requires n >= CAPACITY
    ensures Reachable(State(C_ONE * (CAPACITY - 1), Crowd(Signaling, CAPACITY - 1, n)), n)
  {
    var k := CAPACITY - 2;
    ReachCrowd(k, n);
    var s := State(C_ONE * (k + 1), Crowd(HasExclusive, k, n));
    ReachAccess(s, 0, Unlock, n);
    assert s.pcs[0 := Signaling] == Crowd(Signaling, k, n);
    s := State(C_ONE * k, Crowd(Signaling, k, n));
    ReachWaiting(s, k + 1, n);
    assert s.pcs[k + 1 := InWait(Awake, ForExclusive)] == Crowd(Signaling, k + 1, n);
  }

  /** The signal goes up and finds every queued thread awake. */
  lemma ReachFull(n: nat)
    requires n >= CAPACITY
    ensures Reachable(State(C_SIG + C_ONE * (CAPACITY - 1), Crowd(Idle, CAPACITY - 1, n)), n)
  {
    var k := CAPACITY - 1;
    ReachLate(n);
    var s := State(C_ONE * k, Crowd(Signaling, k, n));
    ReachAccess(s, 0, Go, n);
    assert s.pcs[0 := Notifying] == Crowd(Notifying, k, n);
    s := State(C_SIG + C_ONE * k, Crowd(Notifying, k, n));
    assert s.pcs[0 := Idle] == Crowd(Idle, k, n);
    var s' := s.(pcs := Crowd(Idle, k, n));
    assert Notify(s, s', 0);
    ReachNext(s, s', n);
  }

  /** The old holder comes back and steals the signal, which carries into the signal bit; a queued thread follows. */
  lemma ReachTwoHolders(n: nat)
    requires n >= CAPACITY
    ensures Reachable(State(0, Crowd(HasExclusive, CAPACITY - 1, n)[1 := HasExclusive]), n)
  {
    var k := CAPACITY - 1;
    ReachFull(n);
    var word := C_SIG + C_ONE * k;
    var s := State(word, Crowd(Idle, k, n));
    ReachAccess(s, 0, Lock, n);
    assert s.pcs[0 := InLock(LkSteal(word))] == Crowd(InLock(LkSteal(word)), k, n);
    s := State(word, Crowd(InLock(LkSteal(word)), k, n));
    ReachAccess(s, 0, Go, n);
    assert s.pcs[0 := HasExclusive] == Crowd(HasExclusive, k, n);
    s := State(C_SIG, Crowd(HasExclusive, k, n));
    ReachAccess(s, 1, Go, n);
  }

  /** No reachable state of n threads has a writer beside another holder. */
  ghost predicate Excludes(n: nat) {
    forall s: State, t: nat, u: nat ::
      Reachable(s, n) && t < |s.pcs| && u < |s.pcs| && t != u && Writes(s.pcs[t]) ==>
        !Writes(s.pcs[u]) && !Reads(s.pcs[u])
  }

  /** The lock is mutually exclusive for n threads if and only if n is below 65536. */
  lemma CapacityExact(n: nat)
    ensures Excludes(n) <==> n < CAPACITY
  {
    if n < CAPACITY {
      forall s: State, t: nat, u: nat |
        Reachable(s, n) && t < |s.pcs| && u < |s.pcs| && t != u && Writes(s.pcs[t])
        ensures !Writes(s.pcs[u]) && !Reads(s.pcs[u])
      {
        var run: seq<State> :| Run(run) && |run[0].pcs| == n && run[|run| - 1] == s;
        MutualExclusion(run, |run| - 1, t, u);
      }
    } else {
      ReachTwoHolders(n);
      var s := State(0, Crowd(HasExclusive, CAPACITY - 1, n)[1 := HasExclusive]);
      assert Writes(s.pcs[0]) && Writes(s.pcs[1]);
    }
  }
}
