/** Counting the threads of the lock by their standing towards it. */
module Census {

  /** A thread's standing towards the lock. */
  datatype Role = Nobody | Reader | Writer | Waiter | Sleeper | Signaler | Notifier

  /** How many threads read, write, are queued, are about to signal, are about to notify, and are queued but awake. */
  datatype Tally = Tally(readers: nat, writers: nat, queued: nat, signaling: nat, notifying: nat, awake: nat)

  function Count(roles: seq<Role>): Tally {
    var m := multiset(roles);
    Tally(m[Reader], m[Writer], m[Waiter] + m[Sleeper], m[Signaler], m[Notifier], m[Waiter])
  }

  /** The tally of `rest` and one more thread. */
  function Join(r: Role, rest: Tally): Tally {
    match r
    case Nobody => rest
    case Reader => rest.(readers := rest.readers + 1)
    case Writer => rest.(writers := rest.writers + 1)
    case Waiter => rest.(queued := rest.queued + 1, awake := rest.awake + 1)
    case Sleeper => rest.(queued := rest.queued + 1)
    case Signaler => rest.(signaling := rest.signaling + 1)
    case Notifier => rest.(notifying := rest.notifying + 1)
  }

  /** The tally of the threads other than `t`. */
  function Rest(roles: seq<Role>, t: nat): Tally
    requires t < |roles|
  {
    Count(roles[t := Nobody])
  }

  lemma OneLess(roles: seq<Role>, t: nat, r: Role)
    requires t < |roles| && r != Nobody
    ensures multiset(roles)[r] == multiset(roles[t := Nobody])[r] + if roles[t] == r then 1 else 0
  {
    assert roles[t] in roles;
  }

  lemma CountSplit(roles: seq<Role>, t: nat)
    requires t < |roles|
    ensures Count(roles) == Join(roles[t], Rest(roles, t))
  {
    OneLess(roles, t, Reader);
    OneLess(roles, t, Writer);
    OneLess(roles, t, Waiter);
    OneLess(roles, t, Sleeper);
    OneLess(roles, t, Signaler);
    OneLess(roles, t, Notifier);
  }

  lemma CountUpdate(roles: seq<Role>, t: nat, r: Role)
    requires t < |roles|
    ensures Count(roles[t := r]) == Join(r, Rest(roles, t))
  {
  }

  lemma {:induction false} CountBound(roles: seq<Role>)
    ensures var c := Count(roles); c.readers + c.writers + c.queued <= |roles| && c.awake <= c.queued
  {
    if roles != [] {
      CountBound(roles[1..]);
      assert roles == [roles[0]] + roles[1..];
    }
  }

  /** The other threads leave room for this one. */
  lemma {:induction false} RestBound(roles: seq<Role>, t: nat)
    requires t < |roles|
    ensures var c := Rest(roles, t); c.readers + c.writers + c.queued < |roles| && c.awake <= c.queued
  {
    var others := roles[..t] + roles[t + 1..];
    CountBound(others);
    assert roles[t := Nobody] == roles[..t] + [Nobody] + roles[t + 1..];
    assert multiset(roles[t := Nobody]) == multiset(others) + multiset{Nobody};
  }

  /** A role with work to do on the hand-over: it holds the lock, signals, notifies, or waits awake. */
  predicate Drives(r: Role) {
    r != Nobody && r != Sleeper
  }

  predicate Busy(c: Tally) {
    c.readers + c.writers + c.signaling + c.notifying + c.awake > 0
  }

  lemma SomeDriver(roles: seq<Role>) returns (t: nat)
    requires Busy(Count(roles))
    ensures t < |roles| && Drives(roles[t])
  {
    var r :| r in roles && Drives(r);
    t :| t < |roles| && roles[t] == r;
  }

  /** A notifier that finishes without finding a sleeper. */
  lemma DoneNotifying(roles: seq<Role>, t: nat)
    requires t < |roles| && roles[t] == Notifier && forall u :: 0 <= u < |roles| ==> roles[u] != Sleeper
    ensures var c, d := Count(roles), Count(roles[t := Nobody]);
            c == d.(notifying := c.notifying) && d.awake == d.queued
  {
  }

  /** A notifier that wakes sleeper `u`. */
  lemma DoneWaking(roles: seq<Role>, t: nat, u: nat)
    requires t < |roles| && u < |roles| && roles[t] == Notifier && roles[u] == Sleeper
    ensures var c, d := Count(roles), Count(roles[t := Nobody][u := Waiter]);
            c == d.(notifying := c.notifying, awake := c.awake) && 0 < d.awake <= d.queued
  {
  }
}
