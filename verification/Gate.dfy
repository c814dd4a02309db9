/** The actor that lets one `allocate` at a time onto a MySQL connection. */
module Gate {
  import opened Wrappers

  /** What acquire and release do to the two fields. */
  function Acquired(locked: bool, waiters: seq<nat>, c: nat): (bool, seq<nat>)
  {
    if !locked then (true, waiters) else (locked, waiters + [c])
  }

  function Released(locked: bool, waiters: seq<nat>): (bool, seq<nat>)
  {
    if waiters == [] then (false, waiters) else (locked, waiters[1..])
  }

  class TransactionGate {
    var locked: bool
    var waiters: seq<nat>

    constructor ()
      ensures !locked && waiters == []
    {
      locked, waiters := false, [];
    }

    /** Whether the caller goes on at once; otherwise its continuation waits. */
    method Acquire(c: nat) returns (entered: bool)
      modifies this
      ensures (locked, waiters) == Acquired(old(locked), old(waiters), c)
      ensures entered <==> !old(locked)
    {
      if !locked {
        locked := true;
        return true;
      }
      waiters := waiters + [c];
      entered := false;
    }

    /** The continuation that is resumed, if any. */
    method Release() returns (resumed: Option<nat>)
      modifies this
      ensures (locked, waiters) == Released(old(locked), old(waiters))
      ensures resumed == if old(waiters) == [] then None else Some(old(waiters)[0])
    {
      if waiters == [] {
        locked := false;
        resumed := None;
      } else {
        resumed := Some(waiters[0]);
        waiters := waiters[1..];
      }
    }
  }

  // ----- any number of calls on one connection

  datatype Pc = Waiting | Holding(attempt: nat) | InTransaction(attempt: nat) | Finished(ok: bool) | Done(ok: bool)

  /** The gate, the connection's open transaction, and the calls; with the history of the gate. */
  datatype State = State(
    locked: bool, waiters: seq<nat>, open: Option<nat>, calls: map<nat, Pc>,
    arrivals: seq<nat>, grants: seq<nat>, releases: nat)

  datatype Action =
    | Arrive(c: nat)
    | Throw(c: nat, transient: bool, closed: bool)       // an error before or at START TRANSACTION, and ROLLBACK
    | Begin(c: nat)                                      // START TRANSACTION
    | End(c: nat, committed: bool, transient: bool, closed: bool)   // COMMIT, or an error and ROLLBACK
    | Leave(c: nat)                                      // release, from the success or the error path

  function Start(): State { State(false, [], None, map[], [], [], 0) }

  /** After a failed attempt: the next one, after a transient error, or the error path. */
  function Next(k: nat, transient: bool): Pc
  {
    if transient && k < 4 then Holding(k + 1) else Finished(false)
  }

  function Apply(s: State, a: Action): State
  {
    match a
    case Arrive(c) =>
      if c in s.calls then s
      else
        var (locked, waiters) := Acquired(s.locked, s.waiters, c);
        State(locked, waiters, s.open, s.calls[c := if s.locked then Waiting else Holding(0)],
              s.arrivals + [c], if s.locked then s.grants else s.grants + [c], s.releases)
    case Begin(c) =>
      if c !in s.calls || !s.calls[c].Holding? then s
      else s.(open := Some(c), calls := s.calls[c := InTransaction(s.calls[c].attempt)])
    case Throw(c, transient, closed) =>
      if c !in s.calls || !s.calls[c].Holding? then s
      else
        s.(open := if closed then None else s.open, calls := s.calls[c := Next(s.calls[c].attempt, transient)])
    case End(c, committed, transient, closed) =>
      if c !in s.calls || !s.calls[c].InTransaction? then s
      else
        s.(open := if committed || closed then None else s.open,
        calls := s.calls[c := if committed then Finished(true) else Next(s.calls[c].attempt, transient)])
    case Leave(c) =>
      if c !in s.calls || !s.calls[c].Finished? then s
      else
        var (locked, waiters) := Released(s.locked, s.waiters);
        var calls := s.calls[c := Done(s.calls[c].ok)];
        State(locked, waiters, s.open, if s.waiters == [] then calls else calls[s.waiters[0] := Holding(0)],
              s.arrivals, if s.waiters == [] then s.grants else s.grants + [s.waiters[0]], s.releases + 1)
  }

  function Run(s: State, actions: seq<Action>): State
    decreases |actions|
  {
    if actions == [] then s else Run(Apply(s, actions[0]), actions[1..])
  }

  predicate Inside(pc: Pc)
  {
    pc.Holding? || pc.InTransaction? || pc.Finished?
  }

  ghost predicate Queue(s: State)
  {
    s.arrivals == s.grants + s.waiters
    && (forall i, j :: 0 <= i < j < |s.arrivals| ==> s.arrivals[i] != s.arrivals[j])
    && (forall c :: c in s.calls <==> c in s.arrivals)
  }

  /** Each granted call released once, in the order of the grants, but for the one inside. */
  ghost predicate History(s: State)
  {
    |s.grants| == s.releases + (if s.locked then 1 else 0)
    && (forall i :: 0 <= i < s.releases ==> s.grants[i] in s.calls && s.calls[s.grants[i]].Done?)
    && (s.locked ==> s.grants[s.releases] in s.calls && Inside(s.calls[s.grants[s.releases]]))
    && (!s.locked ==> s.waiters == [])
    && (forall i :: 0 <= i < |s.waiters| ==> s.waiters[i] in s.calls && s.calls[s.waiters[i]].Waiting?)
  }

  ghost predicate Transactions(s: State)
  {
    (forall c :: c in s.calls && s.calls[c].InTransaction? ==> s.open == Some(c))
    && (forall c :: c in s.calls && (s.calls[c].Holding? || s.calls[c].InTransaction?) ==> s.calls[c].attempt < 5)
  }

  ghost predicate Idle(s: State)
  {
    forall c :: c in s.calls ==> !s.calls[c].InTransaction?
  }

  ghost predicate Invariant(s: State)
  {
    Queue(s) && History(s) && Transactions(s)
  }

  lemma StartInvariant()
    ensures Invariant(Start())
  {
  }

  /** Where a call stands in the order of arrivals. */
  lemma CallPlace(s: State, c: nat) returns (i: nat)
    requires Queue(s) && History(s) && c in s.calls
    ensures i < |s.arrivals| && s.arrivals[i] == c
    ensures i < s.releases ==> s.calls[c].Done?
    ensures i == s.releases && s.locked ==> Inside(s.calls[c])
    ensures i >= |s.grants| ==> s.calls[c].Waiting? && s.waiters[i - |s.grants|] == c
    ensures i < |s.grants| ==> s.grants[i] == c
  {
    i :| 0 <= i < |s.arrivals| && s.arrivals[i] == c;
  }

  /** The call inside is the last one granted. */
  lemma InsideIsLast(s: State, c: nat)
    requires Queue(s) && History(s) && c in s.calls && Inside(s.calls[c])
    ensures s.locked && s.grants[s.releases] == c && c !in s.waiters
  {
    var i := CallPlace(s, c);
    forall j | 0 <= j < |s.waiters| ensures s.waiters[j] != c { assert s.calls[s.waiters[j]].Waiting?; }
  }

  lemma ArriveKeeps(s: State, c: nat)
    requires Invariant(s) && c !in s.calls
    ensures Invariant(Apply(s, Arrive(c)))
  {
    hide *;
    InvariantParts(s);
    ArriveQueue(s, c);
    ArriveHistory(s, c);
    ArriveTransactions(s, c);
    MakeInvariant(Apply(s, Arrive(c)));
  }

  lemma InvariantParts(s: State)
    requires Invariant(s)
    ensures Queue(s) && History(s) && Transactions(s)
  {
    hide Queue, History, Transactions;
  }

  lemma MakeInvariant(s: State)
    requires Queue(s) && History(s) && Transactions(s)
    ensures Invariant(s)
  {
    hide Queue, History, Transactions;
  }

  lemma ArriveQueue(s: State, c: nat)
    requires Queue(s) && History(s) && c !in s.calls
    ensures Queue(Apply(s, Arrive(c)))
  {
    if !s.locked { assert s.waiters == []; }
    hide History;
    assert c !in s.arrivals;
    var t := Apply(s, Arrive(c));
    if s.locked {
      assert s.arrivals + [c] == s.grants + (s.waiters + [c]);
    } else {
      assert s.arrivals + [c] == (s.grants + [c]) + s.waiters;
    }
  }

  lemma ArriveHistory(s: State, c: nat)
    requires Queue(s) && History(s) && c !in s.calls
    ensures History(Apply(s, Arrive(c)))
  {
    hide Queue;
  }

  lemma ArriveTransactions(s: State, c: nat)
    requires Transactions(s) && c !in s.calls
    ensures Transactions(Apply(s, Arrive(c)))
  {
  }

  /** A step inside the gate changes neither the queue nor the history. */
  lemma InsideKeeps(s: State, t: State, c: nat)
    requires Queue(s) && History(s) && c in s.calls && Inside(s.calls[c])
    requires c in t.calls && Inside(t.calls[c]) && t.calls == s.calls[c := t.calls[c]]
    requires t.locked == s.locked && t.waiters == s.waiters && t.arrivals == s.arrivals && t.grants == s.grants
    requires t.releases == s.releases
    ensures Queue(t) && History(t)
  {
    InsideIsLast(s, c);
    assert Queue(t) by { hide History; }
    forall i | 0 <= i < s.releases ensures s.grants[i] != c { assert s.calls[s.grants[i]].Done?; }
  }

  /** While a call holds the gate outside a transaction, nobody is in one. */
  lemma HoldingIdle(s: State, c: nat)
    requires Invariant(s) && c in s.calls && Inside(s.calls[c]) && !s.calls[c].InTransaction?
    ensures Idle(s)
  {
    AloneInside(s, c);
    hide Queue, History;
  }

  lemma ThrowKeeps(s: State, c: nat, transient: bool, closed: bool)
    requires Invariant(s) && c in s.calls && s.calls[c].Holding?
    ensures Invariant(Apply(s, Throw(c, transient, closed)))
  {
    HoldingIdle(s, c);
    InsideKeeps(s, Apply(s, Throw(c, transient, closed)), c);
    hide Queue, History;
  }

  lemma BeginKeeps(s: State, c: nat)
    requires Invariant(s) && c in s.calls && s.calls[c].Holding?
    ensures Invariant(Apply(s, Begin(c)))
  {
    HoldingIdle(s, c);
    InsideKeeps(s, Apply(s, Begin(c)), c);
    hide Queue, History;
  }

  lemma EndKeeps(s: State, c: nat, committed: bool, transient: bool, closed: bool)
    requires Invariant(s) && c in s.calls && s.calls[c].InTransaction?
    ensures Invariant(Apply(s, End(c, committed, transient, closed)))
  {
    AloneInside(s, c);
    InsideKeeps(s, Apply(s, End(c, committed, transient, closed)), c);
    hide Queue, History;
  }

  /** At most one call is inside, in every reachable state. */
  lemma AloneInside(s: State, c: nat)
    requires Invariant(s) && c in s.calls && Inside(s.calls[c])
    ensures forall d :: d in s.calls && Inside(s.calls[d]) ==> d == c
  {
    forall d | d in s.calls && Inside(s.calls[d]) ensures d == c {
      hide Transactions;
      InsideIsLast(s, c);
      InsideIsLast(s, d);
    }
  }

  lemma LeaveKeeps(s: State, c: nat)
    requires Invariant(s) && c in s.calls && s.calls[c].Finished?
    ensures Invariant(Apply(s, Leave(c)))
  {
    hide Transactions;
    InsideIsLast(s, c);
    LeaveQueue(s, c);
    LeaveHistory(s, c);
    LeaveTransactions(s, c);
  }

  lemma LeaveQueue(s: State, c: nat)
    requires Queue(s) && History(s) && c in s.calls && s.calls[c].Finished?
    ensures Queue(Apply(s, Leave(c)))
  {
    hide *;
    LeaveIs(s, c);
    FirstWaiter(s);
    SameQueue(s, Apply(s, Leave(c)));
  }

  lemma FirstWaiter(s: State)
    requires Queue(s)
    ensures s.arrivals == s.grants + s.waiters && (s.waiters != [] ==> s.waiters[0] in s.calls)
    ensures s.waiters != [] ==> (s.grants + [s.waiters[0]]) + s.waiters[1..] == s.grants + s.waiters
  {
    if s.waiters != [] {
      assert s.waiters[0] in s.arrivals;
      assert s.waiters == [s.waiters[0]] + s.waiters[1..];
    }
  }

  lemma LeaveIs(s: State, c: nat)
    requires c in s.calls && s.calls[c].Finished?
    ensures var t := Apply(s, Leave(c));
            t.arrivals == s.arrivals
            && (if s.waiters == [] then t.calls.Keys == s.calls.Keys && t.grants == s.grants && t.waiters == s.waiters
                else t.calls.Keys == s.calls.Keys + {s.waiters[0]} && t.grants == s.grants + [s.waiters[0]]
                     && t.waiters == s.waiters[1..])
  {
  }

  lemma SameQueue(s: State, t: State)
    requires Queue(s) && t.arrivals == s.arrivals && t.arrivals == t.grants + t.waiters
    requires t.calls.Keys == s.calls.Keys || (s.waiters != [] && s.waiters[0] in s.calls && t.calls.Keys == s.calls.Keys + {s.waiters[0]})
    ensures Queue(t)
  {
    assert forall c :: c in t.calls <==> c in s.calls;
  }

  lemma LeaveHistory(s: State, c: nat)
    requires Queue(s) && History(s) && c in s.calls && s.calls[c].Finished?
    requires s.locked && s.grants[s.releases] == c && c !in s.waiters
    ensures History(Apply(s, Leave(c)))
  {
    hide Queue;
    if s.waiters != [] {
      FirstAlone(s);
      WakeHistory(s, c);
    }
  }

  /** The first waiter stands nowhere else in the queue. */
  lemma FirstAlone(s: State)
    requires Queue(s) && s.waiters != []
    ensures forall i :: 0 <= i < |s.grants| ==> s.grants[i] != s.waiters[0]
    ensures forall i :: 1 <= i < |s.waiters| ==> s.waiters[i] != s.waiters[0]
  {
    assert s.arrivals[|s.grants|] == s.waiters[0];
    forall i | 0 <= i < |s.grants| ensures s.grants[i] != s.waiters[0] { assert s.grants[i] == s.arrivals[i]; }
    forall i | 1 <= i < |s.waiters| ensures s.waiters[i] != s.waiters[0] {
      assert s.waiters[i] == s.arrivals[|s.grants| + i];
    }
  }

  lemma WakeHistory(s: State, c: nat)
    requires History(s) && c in s.calls && s.calls[c].Finished? && s.waiters != []
    requires s.locked && s.grants[s.releases] == c && c !in s.waiters
    requires forall i :: 0 <= i < |s.grants| ==> s.grants[i] != s.waiters[0]
    requires forall i :: 1 <= i < |s.waiters| ==> s.waiters[i] != s.waiters[0]
    ensures History(Apply(s, Leave(c)))
  {
    var t := Apply(s, Leave(c));
    forall i | 0 <= i < |t.waiters| ensures t.waiters[i] in t.calls && t.calls[t.waiters[i]].Waiting? {
      assert t.waiters[i] == s.waiters[i + 1] && s.waiters[i + 1] in s.waiters;
    }
  }

  lemma LeaveTransactions(s: State, c: nat)
    requires Transactions(s) && History(s) && c in s.calls && s.calls[c].Finished?
    ensures Transactions(Apply(s, Leave(c)))
  {
    if s.waiters != [] { assert s.calls[s.waiters[0]].Waiting?; }
    hide History;
  }

  lemma StepInvariant(s: State, a: Action)
    requires Invariant(s)
    ensures Invariant(Apply(s, a))
  {
    match a {
      case Arrive(c) => if c !in s.calls { ArriveKeeps(s, c); }
      case Begin(c) => if c in s.calls && s.calls[c].Holding? { BeginKeeps(s, c); }
      case Throw(c, transient, closed) => if c in s.calls && s.calls[c].Holding? { ThrowKeeps(s, c, transient, closed); }
      case End(c, committed, transient, closed) =>
        if c in s.calls && s.calls[c].InTransaction? { EndKeeps(s, c, committed, transient, closed); }
      case Leave(c) => if c in s.calls && s.calls[c].Finished? { LeaveKeeps(s, c); }
    }
    hide Invariant, Released, Acquired;
  }

  lemma {:induction false} RunInvariant(s: State, actions: seq<Action>)
    requires Invariant(s)
    ensures Invariant(Run(s, actions))
    decreases |actions|
  {
    hide Invariant, Apply;
    if actions != [] {
      StepInvariant(s, actions[0]);
      RunInvariant(Apply(s, actions[0]), actions[1..]);
    }
  }

  /** The gate, in every run: at most one call is inside; nobody waits at an unlocked gate; calls are
      let in exactly in the order they arrived; and each one inside before the last has released once. */
  lemma GateSafety(actions: seq<Action>)
    ensures var s := Run(Start(), actions);
            (forall c, d :: c in s.calls && d in s.calls && Inside(s.calls[c]) && Inside(s.calls[d]) ==> c == d)
            && (!s.locked ==> s.waiters == [])
            && s.arrivals == s.grants + s.waiters
            && |s.grants| == s.releases + (if s.locked then 1 else 0)
            && (forall i :: 0 <= i < s.releases ==> s.grants[i] in s.calls && s.calls[s.grants[i]].Done?)
            && (s.locked ==> s.grants[s.releases] in s.calls && Inside(s.calls[s.grants[s.releases]]))
  {
    hide Run, Transactions, Queue;
    StartInvariant();
    RunInvariant(Start(), actions);
    var s := Run(Start(), actions);
    forall c, d | c in s.calls && d in s.calls && Inside(s.calls[c]) && Inside(s.calls[d]) ensures c == d {
      AloneInside(s, c);
    }
    QueueArrivals(s);
  }

  lemma QueueArrivals(s: State)
    requires Queue(s)
    ensures s.arrivals == s.grants + s.waiters
  {
  }

  /** No lost wakeup: a call still waits only while one of the calls that arrived before it has not
      released; when all of them have, it is inside or through. */
  lemma NoLostWakeup(actions: seq<Action>, j: nat)
    requires var s := Run(Start(), actions); j < |s.arrivals|
    ensures var s := Run(Start(), actions);
            s.arrivals[j] in s.calls && (s.calls[s.arrivals[j]].Waiting? ==> s.releases < j && s.locked)
  {
    hide Run, Transactions;
    StartInvariant();
    RunInvariant(Start(), actions);
    var s := Run(Start(), actions);
    assert s.arrivals[j] in s.arrivals;
    var i := CallPlace(s, s.arrivals[j]);
    assert i == j;
  }

  /** Action `i` of the run is a START TRANSACTION that is executed. */
  ghost predicate BeginsAt(actions: seq<Action>, i: nat)
  {
    i < |actions| && Opens(Run(Start(), actions[..i]), actions[i])
  }

  /** Action `i` of the run is a COMMIT that succeeds, or a ROLLBACK that does. */
  ghost predicate ClosesAt(actions: seq<Action>, i: nat)
  {
    i < |actions| && Closes(Run(Start(), actions[..i]), actions[i])
  }

  predicate Opens(s: State, a: Action)
  {
    a.Begin? && a.c in s.calls && s.calls[a.c].Holding?
  }

  predicate Closes(s: State, a: Action)
  {
    (a.End? && a.c in s.calls && s.calls[a.c].InTransaction? && (a.committed || a.closed))
    || (a.Throw? && a.c in s.calls && s.calls[a.c].Holding? && a.closed)
  }

  /** Behind every START TRANSACTION of the run there is a COMMIT or ROLLBACK that succeeds. */
  ghost predicate EveryBeginClosed(actions: seq<Action>)
  {
    forall i: nat :: BeginsAt(actions, i) ==> exists j: nat :: i < j && ClosesAt(actions, j)
  }

  lemma {:induction false} RunAppend(s: State, actions: seq<Action>, a: Action)
    ensures Run(s, actions + [a]) == Apply(Run(s, actions), a)
    decreases |actions|
  {
    if actions == [] {
      assert ([] + [a])[1..] == [];
    } else {
      hide Apply;
      assert (actions + [a])[1..] == actions[1..] + [a] && (actions + [a])[0] == actions[0];
      RunAppend(Apply(s, actions[0]), actions[1..], a);
    }
  }

  lemma OpenAfter(s: State, a: Action)
    ensures Opens(s, a) ==> Apply(s, a).open.Some? && !Closes(s, a)
    ensures Closes(s, a) ==> Apply(s, a).open.None?
    ensures !Opens(s, a) && !Closes(s, a) ==> Apply(s, a).open == s.open
  {
  }

  /** A transaction is open on the connection exactly when some START TRANSACTION has no succeeding
      COMMIT or ROLLBACK behind it. */
  lemma {:induction false} OpenExactly(actions: seq<Action>)
    ensures Run(Start(), actions).open.None? <==> EveryBeginClosed(actions)
    decreases |actions|
  {
    if actions == [] {
      NothingOpen();
    } else {
      var n := |actions| - 1;
      var before, a := actions[..n], actions[n];
      hide *;
      OpenExactly(before);
      assert actions == before + [a];
      RunAppend(Start(), before, a);
      OpenAfter(Run(Start(), before), a);
      forall i: nat
        ensures BeginsAt(actions, i) <==> BeginsAt(before, i) || (i == n && Opens(Run(Start(), before), a))
        ensures ClosesAt(actions, i) <==> ClosesAt(before, i) || (i == n && Closes(Run(Start(), before), a))
        ensures BeginsAt(before, i) || ClosesAt(before, i) ==> i < n
      {
        OneMore(before, a, i);
      }
      LastDecides(before, a);
    }
  }

  lemma NothingOpen()
    ensures Run(Start(), []).open.None? && EveryBeginClosed([])
  {
  }

  lemma OneMore(before: seq<Action>, a: Action, i: nat)
    ensures BeginsAt(before + [a], i) <==> BeginsAt(before, i) || (i == |before| && Opens(Run(Start(), before), a))
    ensures ClosesAt(before + [a], i) <==> ClosesAt(before, i) || (i == |before| && Closes(Run(Start(), before), a))
    ensures BeginsAt(before, i) || ClosesAt(before, i) ==> i < |before|
  {
    hide Opens, Closes, Run;
    if i < |before| { assert (before + [a])[..i] == before[..i]; }
    if i == |before| { assert (before + [a])[..i] == before; }
  }

  lemma LastDecides(before: seq<Action>, a: Action)
    requires forall i: nat :: (BeginsAt(before + [a], i) <==> BeginsAt(before, i) || (i == |before| && Opens(Run(Start(), before), a)))
    requires forall i: nat :: (ClosesAt(before + [a], i) <==> ClosesAt(before, i) || (i == |before| && Closes(Run(Start(), before), a)))
    requires forall i: nat :: BeginsAt(before, i) || ClosesAt(before, i) ==> i < |before|
    requires Opens(Run(Start(), before), a) ==> !Closes(Run(Start(), before), a)
    ensures EveryBeginClosed(before + [a])
            <==> !Opens(Run(Start(), before), a) && (Closes(Run(Start(), before), a) || EveryBeginClosed(before))
  {
    hide BeginsAt, ClosesAt, Opens, Closes, Run;
    var all, n := before + [a], |before|;
    if EveryBeginClosed(all) && !Closes(Run(Start(), before), a) {
      forall i: nat | BeginsAt(before, i) ensures exists j: nat :: i < j && ClosesAt(before, j) {
        assert BeginsAt(all, i);
        var j: nat :| i < j && ClosesAt(all, j);
        assert ClosesAt(before, j);
      }
    }
    if Opens(Run(Start(), before), a) { assert BeginsAt(all, n); }
    if !Opens(Run(Start(), before), a) && (Closes(Run(Start(), before), a) || EveryBeginClosed(before)) {
      forall i: nat | BeginsAt(all, i) ensures exists j: nat :: i < j && ClosesAt(all, j) {
        assert BeginsAt(before, i);
        if Closes(Run(Start(), before), a) {
          assert ClosesAt(all, n);
        } else {
          var j: nat :| i < j && ClosesAt(before, j);
          assert ClosesAt(all, j);
        }
      }
    }
  }

  /** Whenever a call is about to start a transaction, no call is in one; and none is open on the
      connection exactly when behind every START TRANSACTION so far, of whichever call, there is a COMMIT
      or a ROLLBACK that succeeded. */
  lemma TransactionsNeverOverlap(actions: seq<Action>, c: nat)
    requires var s := Run(Start(), actions); c in s.calls && s.calls[c].Holding?
    ensures var s := Run(Start(), actions);
            Idle(s) && s.calls[c].attempt < 5 && (s.open.None? <==> EveryBeginClosed(actions))
  {
    hide *;
    OpenExactly(actions);
    StartInvariant();
    RunInvariant(Start(), actions);
    InsideIs(Holding(0));
    AttemptBound(Run(Start(), actions), c);
    HoldingIdle(Run(Start(), actions), c);
  }

  lemma InsideIs(pc: Pc)
    ensures forall k :: Inside(Holding(k))
  {
  }

  lemma AttemptBound(s: State, c: nat)
    requires Invariant(s) && c in s.calls && s.calls[c].Holding?
    ensures s.calls[c].attempt < 5 && Inside(s.calls[c])
  {
    hide Queue, History;
  }

  /** No ROLLBACK of the run fails. */
  predicate Closing(actions: seq<Action>)
  {
    forall i :: 0 <= i < |actions| ==> ((actions[i].Throw? || actions[i].End?) ==> actions[i].closed)
  }

  /** In a run without failing ROLLBACK no transaction is ever started while another one is open. */
  lemma {:induction false} ClosedRunsNeverOverlap(s: State, actions: seq<Action>, c: nat)
    requires Closing(actions) && Invariant(s) && (Idle(s) ==> s.open.None?)
    requires var t := Run(s, actions); c in t.calls && t.calls[c].Holding?
    ensures Run(s, actions).open.None?
    decreases |actions|
  {
    if actions == [] {
      HoldingIdle(s, c);
    } else {
      var next := Apply(s, actions[0]);
      StepInvariant(s, actions[0]);
      ClosingStep(s, actions[0]);
      assert forall i :: 0 <= i < |actions[1..]| ==> actions[1..][i] == actions[i + 1];
      hide Apply, Invariant, Idle;
      ClosedRunsNeverOverlap(next, actions[1..], c);
    }
  }

  lemma ClosingStep(s: State, a: Action)
    requires Invariant(s) && (Idle(s) ==> s.open.None?) && (a.Throw? || a.End? ==> a.closed)
    ensures Idle(Apply(s, a)) ==> Apply(s, a).open.None?
  {
    OpenAfter(s, a);
    if a.Begin? && a.c in s.calls && s.calls[a.c].Holding? {
      assert Apply(s, a).calls[a.c].InTransaction?;
    } else if !Idle(s) {
      var c :| c in s.calls && s.calls[c].InTransaction?;
      if !(a.End? && a.c == c) { StaysIn(s, a, c); }
    }
    hide Queue, History;
  }

  /** A call leaves its transaction only by ending it. */
  lemma StaysIn(s: State, a: Action, c: nat)
    requires History(s) && c in s.calls && s.calls[c].InTransaction? && !(a.End? && a.c == c)
    ensures c in Apply(s, a).calls && Apply(s, a).calls[c].InTransaction?
  {
    assert s.waiters != [] ==> s.calls[s.waiters[0]].Waiting?;
  }

  /** Without that there is such a run: the second attempt of a call finds its first transaction open. */
  lemma LeftOpen()
    ensures var s := Run(Start(), [Arrive(0), Begin(0), End(0, false, true, false)]);
            0 in s.calls && s.calls[0] == Holding(1) && s.open == Some(0)
  {
    var a, b, c := Arrive(0), Begin(0), End(0, false, true, false);
    var s := Start();
    assert [a, b, c][1..] == [b, c] && [b, c][1..] == [c] && [c][1..] == [];
    var t := Apply(s, a);
    assert t.calls == map[0 := Holding(0)];
    var u := Apply(t, b);
    assert u.calls[0] == InTransaction(0) && u.open == Some(0);
    assert Run(s, [a, b, c]) == Run(t, [b, c]) == Run(u, [c]) == Run(Apply(u, c), []);
  }

  /** A release hands the locked gate to the first waiter, or opens it; an arrival at an open gate is
      inside at once. */
  lemma HandOff(s: State, c: nat)
    requires Invariant(s)
    ensures c in s.calls && s.calls[c].Finished? ==>
              var t := Apply(s, Leave(c));
              if s.waiters == [] then !t.locked && forall d :: d in t.calls ==> !Inside(t.calls[d])
              else t.locked && s.waiters[0] in t.calls && t.calls[s.waiters[0]] == Holding(0) && t.waiters == s.waiters[1..]
    ensures c !in s.calls ==>
              var t := Apply(s, Arrive(c));
              if s.locked then t.calls[c] == Waiting && t.waiters == s.waiters + [c]
              else t.calls[c] == Holding(0) && t.locked
  {
    if c in s.calls && s.calls[c].Finished? {
      LeaveKeeps(s, c);
      InvariantParts(Apply(s, Leave(c)));
      InvariantParts(s);
      InsideIsLast(s, c);
      if s.waiters == [] {
        var t := Apply(s, Leave(c));
        AloneInside(s, c);
      }
    }
    hide Queue, History, Transactions;
  }

  // ----- how a call ends

  /** An attempt that fails with a transient error, at START TRANSACTION or behind it. */
  datatype Setback = Refused(closed: bool) | Broken(closed: bool)

  function Setbacks(c: nat, fs: seq<Setback>): seq<Action>
    decreases |fs|
  {
    if fs == [] then []
    else if fs[0].Refused? then [Throw(c, true, fs[0].closed)] + Setbacks(c, fs[1..])
    else [Begin(c), End(c, false, true, fs[0].closed)] + Setbacks(c, fs[1..])
  }

  /** Exactly five attempts: with fewer transient failures behind it a call holds the gate for another
      attempt, and the fifth failure ends it. */
  lemma {:induction false} AttemptsExactly(s: State, c: nat, fs: seq<Setback>)
    requires c in s.calls && s.calls[c].Holding? && s.calls[c].attempt < 5 && s.calls[c].attempt + |fs| <= 5
    ensures var k := s.calls[c].attempt + |fs|;
            var end := Run(s, Setbacks(c, fs));
            c in end.calls && end.calls[c] == if k < 5 then Holding(k) else Finished(false)
    decreases |fs|
  {
    if fs != [] {
      var k := s.calls[c].attempt + 1;
      var rest := Setbacks(c, fs[1..]);
      var next := if fs[0].Refused? then Apply(s, Throw(c, true, fs[0].closed))
                  else Apply(Apply(s, Begin(c)), End(c, false, true, fs[0].closed));
      assert next.calls[c] == if k < 5 then Holding(k) else Finished(false);
      if fs[0].Refused? {
        RunFirst(s, Throw(c, true, fs[0].closed), rest);
      } else {
        assert [Begin(c), End(c, false, true, fs[0].closed)] + rest == [Begin(c)] + ([End(c, false, true, fs[0].closed)] + rest);
        RunFirst(s, Begin(c), [End(c, false, true, fs[0].closed)] + rest);
        RunFirst(Apply(s, Begin(c)), End(c, false, true, fs[0].closed), rest);
      }
      hide Apply;
      if k < 5 { AttemptsExactly(next, c, fs[1..]); }
    }
  }

  lemma RunFirst(s: State, a: Action, rest: seq<Action>)
    ensures Run(s, [a] + rest) == Run(Apply(s, a), rest)
  {
    hide Apply;
    assert ([a] + rest)[0] == a && ([a] + rest)[1..] == rest;
  }

  /** Action `i` of the run is the COMMIT of call `c`, and succeeds. */
  ghost predicate CommittedAt(actions: seq<Action>, c: nat, i: nat)
  {
    i < |actions| && Commits(Run(Start(), actions[..i]), actions[i], c)
  }

  predicate Commits(s: State, a: Action, c: nat)
  {
    a.End? && a.committed && a.c == c && c in s.calls && s.calls[c].InTransaction?
  }

  predicate Succeeds(s: State, c: nat)
  {
    c in s.calls && (s.calls[c] == Finished(true) || s.calls[c] == Done(true))
  }

  /** Over every run a call has succeeded if and only if its COMMIT has. */
  lemma {:induction false} SucceedsExactly(actions: seq<Action>, c: nat)
    ensures Succeeds(Run(Start(), actions), c) <==> exists i: nat :: CommittedAt(actions, c, i)
    decreases |actions|
  {
    if actions == [] {
      assert Run(Start(), []) == Start();
    } else {
      var n := |actions| - 1;
      var before, a := actions[..n], actions[n];
      hide *;
      SucceedsExactly(before, c);
      assert actions == before + [a];
      StartInvariant();
      RunInvariant(Start(), before);
      RunAppend(Start(), before, a);
      SucceedsStep(Run(Start(), before), a, c);
      forall i: nat
        ensures CommittedAt(actions, c, i) <==> CommittedAt(before, c, i) || (i == n && Commits(Run(Start(), before), a, c))
      {
        CommittedMore(before, a, c, i);
      }
      if Commits(Run(Start(), before), a, c) { assert CommittedAt(actions, c, n); }
      if i: nat :| CommittedAt(before, c, i) { assert CommittedAt(actions, c, i); }
    }
  }

  lemma CommittedMore(before: seq<Action>, a: Action, c: nat, i: nat)
    ensures CommittedAt(before + [a], c, i) <==> CommittedAt(before, c, i) || (i == |before| && Commits(Run(Start(), before), a, c))
  {
    hide Commits, Run;
    if i < |before| { assert (before + [a])[..i] == before[..i]; }
    if i == |before| { assert (before + [a])[..i] == before; }
  }

  lemma SucceedsStep(s: State, a: Action, c: nat)
    requires Invariant(s)
    ensures Succeeds(Apply(s, a), c) <==> Succeeds(s, c) || Commits(s, a, c)
  {
    hide Queue, Transactions;
  }
}
