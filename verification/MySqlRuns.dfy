/** Particular runs of the MySQL protocol, and what they show: an undisturbed call completes; a failing
    ROLLBACK skips a number; and from which tables a counter can change its namespace. */
module MySqlRuns {
  import opened Wrappers
  import opened Errors
  import opened Positional
  import opened Alphabet
  import opened MachineId
  import opened StorageText
  import opened Tables
  import opened MySqlRows
  import opened MySqlProtocol
  import opened MySqlConservation

  // ----- runs of one connection

  function Steps(k: nat, rest: seq<Action>): seq<Action>
  {
    if k == 0 then rest else [Step(0)] + Steps(k - 1, rest)
  }

  /** A call on connection 0, and no other connection. */
  function Lone(t: Tables, call: Call): State { State(t, map[0 := call]) }

  /** The one run goes on as the other does, and is torn, or skips a number, when the other is or does. */
  ghost predicate Continues(s: State, before: seq<Action>, t: State, after: seq<Action>)
  {
    Run(s, before) == Run(t, after) && (Torn(s, before) <==> Torn(t, after))
    && forall p, scope :: (Complete(s, before, p, scope) <==> Complete(t, after, p, scope))
  }

  lemma ContinuesTwice(s: State, a: seq<Action>, t: State, b: seq<Action>, u: State, c: seq<Action>)
    requires Continues(s, a, t, b) && Continues(t, b, u, c)
    ensures Continues(s, a, u, c)
  {
    hide Run, Torn, Complete;
  }

  lemma RunCons(s: State, a: Action, rest: seq<Action>)
    ensures Run(s, [a] + rest) == Run(Apply(s, a), rest)
    ensures Torn(s, [a] + rest) <==> Tears(s, a) || Torn(Apply(s, a), rest)
    ensures forall p, scope :: (Complete(s, [a] + rest, p, scope)
              <==> !Skips(s, a, p, scope) && Complete(Apply(s, a), rest, p, scope))
  {
    assert ([a] + rest)[1..] == rest;
    hide Apply, Skips, Tears;
  }

  /** A step that makes no rows permanent, or a whole allocation. */
  lemma QuietStep(s: State, a: Action, rest: seq<Action>)
    requires MadePermanent(s, a).Some? ==> MadePermanent(s, a).value.done.Inserted?
    ensures Continues(s, [a] + rest, Apply(s, a), rest)
  {
    hide *;
    RunCons(s, a, rest);
    PermanentCases(s, a);
    if MadePermanent(s, a).Some? { UnfinishedIs(MadePermanent(s, a).value); }
    MakeContinues(s, [a] + rest, Apply(s, a), rest);
  }

  lemma MakeContinues(s: State, before: seq<Action>, t: State, after: seq<Action>)
    requires Run(s, before) == Run(t, after) && (Torn(s, before) <==> Torn(t, after))
    requires forall p, scope :: (Complete(s, before, p, scope) <==> Complete(t, after, p, scope))
    ensures Continues(s, before, t, after)
  {
    hide Run, Torn, Complete;
  }

  lemma LoneUpdate(t: Tables, call: Call, next: Call)
    ensures Lone(t, call).calls[0 := next] == map[0 := next] && 0 in Lone(t, call).calls && Lone(t, call).calls[0] == call
    ensures Lone(t, call).tables == t && Lone(t, next) == State(t, map[0 := next])
  {
  }

  lemma ApplyStep(s: State, c: nat)
    requires c in s.calls
    ensures Apply(s, Step(c)) == StepCall(s, c)
  {
    hide StepCall;
  }

  lemma LonePermanent(t: Tables, call: Call, a: Action)
    requires !a.Reserve? && a.c == 0
    ensures MadePermanent(Lone(t, call), a)
            == if Permanent(call) && (a.Step? || (a.Fault? && a.applied)) then call.open else None
  {
    hide Permanent;
  }

  /** One statement of the lone call. */
  lemma LoneStep(t: Tables, call: Call, k: nat, rest: seq<Action>)
    requires k > 0 && Active(call.pc) && !call.pc.Written? && !call.pc.Absent? && !call.pc.Ready?
    ensures var (pc, open) := Statement(t, call.q, call.pc, call.open);
            Continues(Lone(t, call), Steps(k, rest), Lone(t, call.(pc := pc, open := open)), Steps(k - 1, rest))
  {
    hide *;
    var (pc, open) := Statement(t, call.q, call.pc, call.open);
    StepsUnfold(k, rest);
    LoneUpdate(t, call, call.(pc := pc, open := open));
    ApplyStep(Lone(t, call), 0);
    StepCallIs(Lone(t, call), 0);
    LonePermanent(t, call, Step(0));
    PermanentIs(call);
    QuietStep(Lone(t, call), Step(0), Steps(k - 1, rest));
  }

  lemma StepsUnfold(k: nat, rest: seq<Action>)
    requires k > 0
    ensures Steps(k, rest) == [Step(0)] + Steps(k - 1, rest)
  {
  }

  lemma StepsNone(rest: seq<Action>)
    ensures Steps(0, rest) == rest
  {
  }

  /** From the call to the replay read. */
  lemma LoneStart(t: Tables, q: Request, rest: seq<Action>)
    requires 4 <= q.width <= 18 && MachineOf(q).Some?
    ensures Continues(Start(t), [Invoke(0, q)] + Steps(3, rest), Lone(t, Call(q, Begun, 0, 1, None)), Steps(2, rest))
  {
    hide *;
    var ready, begun := Call(q, Ready, 0, 0, None), Call(q, Begun, 0, 1, None);
    Invoked0(t, q);
    PermanentCases(Start(t), Invoke(0, q));
    NoPermanent(Start(t), Invoke(0, q));
    QuietStep(Start(t), Invoke(0, q), Steps(3, rest));
    StepsUnfold(3, rest);
    LoneUpdate(t, ready, begun);
    ApplyStep(Lone(t, ready), 0);
    StepCallIs(Lone(t, ready), 0);
    FlushCases(t, None);
    LonePermanent(t, ready, Step(0));
    QuietStep(Lone(t, ready), Step(0), Steps(2, rest));
    ContinuesTwice(Start(t), [Invoke(0, q)] + Steps(3, rest), Lone(t, ready), Steps(3, rest), Lone(t, begun), Steps(2, rest));
  }

  lemma Invoked0(t: Tables, q: Request)
    requires 4 <= q.width <= 18
    ensures Apply(Start(t), Invoke(0, q)) == Lone(t, Call(q, Ready, 0, 0, None))
  {
    assert map[][0 := Call(q, Ready, 0, 0, None)] == map[0 := Call(q, Ready, 0, 0, None)];
  }

  lemma NoPermanent(s: State, a: Action)
    ensures a.Invoke? || a.Rollback? ==> MadePermanent(s, a).None?
  {
    hide Permanent;
  }

  /** An allocation that will get number `n`. */
  ghost predicate Prepared(t: Tables, q: Request, h: Held, n: nat, machine: Bytes)
  {
    Inv(t) && 4 <= q.width <= 18 && MachineOf(q) == Some(machine) && Replay(t, q.key, machine).None?
    && Upsert(t, q) == Some(h) && Granted(h, q, n)
  }

  /** From the replay read to the locked row. */
  lemma LoneLocked(t: Tables, q: Request, h: Held, machine: Bytes, rest: seq<Action>)
    requires 4 <= q.width <= 18 && MachineOf(q) == Some(machine) && Replay(t, q.key, machine).None?
    requires Upsert(t, q) == Some(h)
    ensures Continues(Start(t), [Invoke(0, q)] + Steps(3, rest),
                      Lone(t, Call(q, Locked, 0, 1, Some(Open(q, h, Upserted)))), rest)
  {
    hide *;
    var begun, absent := Call(q, Begun, 0, 1, None), Call(q, Absent, 0, 1, None);
    var locked := Call(q, Locked, 0, 1, Some(Open(q, h, Upserted)));
    LoneStart(t, q, rest);
    ReplayAbsent(t, q, machine);
    ActivePcs(0);
    LoneStep(t, begun, 2, rest);
    StepsUnfold(1, rest);
    StepsNone(rest);
    LoneUpdate(t, absent, locked);
    ApplyStep(Lone(t, absent), 0);
    StepCallIs(Lone(t, absent), 0);
    LoneBlocked(t, absent, Open(q, h, Upserted));
    LonePermanent(t, absent, Step(0));
    QuietStep(Lone(t, absent), Step(0), rest);
    ContinuesTwice(Start(t), [Invoke(0, q)] + Steps(3, rest), Lone(t, begun), Steps(2, rest), Lone(t, absent), Steps(1, rest));
    ContinuesTwice(Start(t), [Invoke(0, q)] + Steps(3, rest), Lone(t, absent), Steps(1, rest), Lone(t, locked), rest);
  }

  lemma ActivePcs(n: nat)
    ensures Active(Begun) && Active(Locked) && Active(Approved(n)) && Active(Stepped(n))
  {
  }

  lemma ReplayAbsent(t: Tables, q: Request, machine: Bytes)
    requires MachineOf(q) == Some(machine) && Replay(t, q.key, machine).None?
    ensures Statement(t, q, Begun, None) == (Absent, None)
  {
    hide MachineOf, Replay;
  }

  lemma LoneBlocked(t: Tables, call: Call, o: Open)
    ensures !Blocked(Lone(t, call), 0, o)
  {
    hide OpenApart;
  }

  /** From the locked row to the written counter. */
  lemma LoneStepped(t: Tables, q: Request, h: Held, n: nat, rest: seq<Action>)
    requires Granted(h, q, n)
    ensures Continues(Lone(t, Call(q, Locked, 0, 1, Some(Open(q, h, Upserted)))), Steps(2, rest),
                      Lone(t, Call(q, Stepped(n), 0, 1, Some(Open(q, h, Updated(n))))), rest)
  {
    hide *;
    var locked := Call(q, Locked, 0, 1, Some(Open(q, h, Upserted)));
    var approved := Call(q, Approved(n), 0, 1, Some(Open(q, h, Upserted)));
    var stepped := Call(q, Stepped(n), 0, 1, Some(Open(q, h, Updated(n))));
    GrantedStatements(t, q, h, n);
    ActivePcs(n);
    StepsNone(rest);
    LoneStep(t, locked, 2, rest);
    LoneStep(t, approved, 1, rest);
    ContinuesTwice(Lone(t, locked), Steps(2, rest), Lone(t, approved), Steps(1, rest), Lone(t, stepped), rest);
  }

  lemma GrantedStatements(t: Tables, q: Request, h: Held, n: nat)
    requires Granted(h, q, n)
    ensures Statement(t, q, Locked, Some(Open(q, h, Upserted))) == (Approved(n), Some(Open(q, h, Upserted)))
    ensures Statement(t, q, Approved(n), Some(Open(q, h, Upserted))) == (Stepped(n), Some(Open(q, h, Updated(n))))
  {
    hide Maximum;
  }

  /** A call from start to end, nobody disturbing it. */
  function Undisturbed(q: Request): seq<Action>
  {
    [Invoke(0, q)] + Steps(3, Steps(2, Steps(2, [])))
  }

  /** It gets the next number and commits it; the run is not torn. */
  lemma LoneCall(t: Tables, q: Request, h: Held, n: nat, machine: Bytes)
    requires q.width >= 0
    requires Prepared(t, q, h, n, machine)
    ensures var returned := Lone(Committed(t, q, h, n, machine), Call(q, Returned(n), 0, 1, None));
            Run(Start(t), Undisturbed(q)) == returned
    ensures !Torn(Start(t), Undisturbed(q)) && NeverSkipped(Start(t), Undisturbed(q))
  {
    hide *;
    PreparedParts(t, q, h, n, machine);
    UndisturbedIs(q);
    var locked := Call(q, Locked, 0, 1, Some(Open(q, h, Upserted)));
    var stepped := Call(q, Stepped(n), 0, 1, Some(Open(q, h, Updated(n))));
    LoneLocked(t, q, h, machine, Steps(2, Steps(2, [])));
    LoneStepped(t, q, h, n, Steps(2, []));
    ContinuesTwice(Start(t), Undisturbed(q), Lone(t, locked), Steps(2, Steps(2, [])), Lone(t, stepped), Steps(2, []));
    LoneCommitted(t, q, h, n, machine);
    var returned := Lone(Committed(t, q, h, n, machine), Call(q, Returned(n), 0, 1, None));
    ContinuesTwice(Start(t), Undisturbed(q), Lone(t, stepped), Steps(2, []), returned, []);
    ContinuesEnd(Start(t), Undisturbed(q), returned);
  }

  lemma UndisturbedIs(q: Request)
    ensures Undisturbed(q) == [Invoke(0, q)] + Steps(3, Steps(2, Steps(2, [])))
  {
    hide Steps;
  }

  lemma PreparedParts(t: Tables, q: Request, h: Held, n: nat, machine: Bytes)
    requires Prepared(t, q, h, n, machine)
    ensures Inv(t) && 4 <= q.width <= 18 && MachineOf(q) == Some(machine) && Replay(t, q.key, machine).None?
    ensures Upsert(t, q) == Some(h) && Granted(h, q, n) && HeldOk(t, q, h)
  {
    UpsertOk(t, q);
    hide Inv, MachineOf, Replay, Upsert, Granted, HeldOk;
  }

  lemma ContinuesEnd(s: State, actions: seq<Action>, end: State)
    requires Continues(s, actions, end, [])
    ensures Run(s, actions) == end && !Torn(s, actions) && NeverSkipped(s, actions)
  {
    assert forall p, scope :: Complete(end, [], p, scope);
    hide Complete;
  }

  lemma LoneCommitted(t: Tables, q: Request, h: Held, n: nat, machine: Bytes)
    requires q.width >= 0 && Prepared(t, q, h, n, machine)
    ensures Continues(Lone(t, Call(q, Stepped(n), 0, 1, Some(Open(q, h, Updated(n))))), Steps(2, []),
                      Lone(Committed(t, q, h, n, machine), Call(q, Returned(n), 0, 1, None)), [])
  {
    hide *;
    PreparedParts(t, q, h, n, machine);
    var stepped := Call(q, Stepped(n), 0, 1, Some(Open(q, h, Updated(n))));
    var written := Call(q, Written(n), 0, 1, Some(Open(q, h, Inserted(n))));
    var returned := Call(q, Returned(n), 0, 1, None);
    InsertFitsExactly(t, q, h, n, machine);
    SteppedStatement(t, q, h, n, machine);
    ActivePcs(n);
    LoneStep(t, stepped, 2, []);
    StepsUnfold(1, []);
    StepsNone([]);
    LoneUpdate(t, written, returned);
    ApplyStep(Lone(t, written), 0);
    StepCallIs(Lone(t, written), 0);
    FlushCases(t, written.open);
    FlushedInserted(t, q, h, n, machine);
    LonePermanent(t, written, Step(0));
    LoneUpdate(Committed(t, q, h, n, machine), returned, returned);
    QuietStep(Lone(t, written), Step(0), []);
    ContinuesTwice(Lone(t, stepped), Steps(2, []), Lone(t, written), Steps(1, []),
                   Lone(Committed(t, q, h, n, machine), returned), []);
  }

  lemma SteppedStatement(t: Tables, q: Request, h: Held, n: nat, machine: Bytes)
    requires MachineOf(q) == Some(machine) && InsertFits(t, q, n, machine)
    ensures Statement(t, q, Stepped(n), Some(Open(q, h, Updated(n)))) == (Written(n), Some(Open(q, h, Inserted(n))))
  {
    hide MachineOf, InsertFits;
  }

  lemma FlushedInserted(t: Tables, q: Request, h: Held, n: nat, machine: Bytes)
    requires MachineOf(q) == Some(machine) && q.width >= 0
    ensures Flushed(t, Open(q, h, Inserted(n))) == Committed(t, q, h, n, machine)
  {
    hide MachineOf, Committed;
  }

  // ----- retries

  /** Where a lone call stands after `m` statements of an attempt; `a` attempts came before it. */
  function Path(q: Request, h: Held, n: nat, m: nat, a: nat, b: nat): Call
    requires m <= 6
  {
    match m
    case 0 => Call(q, Ready, a, b, None)
    case 1 => Call(q, Begun, a, b + 1, None)
    case 2 => Call(q, Absent, a, b + 1, None)
    case 3 => Call(q, Locked, a, b + 1, Some(Open(q, h, Upserted)))
    case 4 => Call(q, Approved(n), a, b + 1, Some(Open(q, h, Upserted)))
    case 5 => Call(q, Stepped(n), a, b + 1, Some(Open(q, h, Updated(n))))
    case 6 => Call(q, Written(n), a, b + 1, Some(Open(q, h, Inserted(n))))
  }

  lemma PathStep(t: Tables, q: Request, h: Held, n: nat, machine: Bytes, m: nat, a: nat, b: nat)
    requires Prepared(t, q, h, n, machine) && m < 6
    ensures Apply(Lone(t, Path(q, h, n, m, a, b)), Step(0)) == Lone(t, Path(q, h, n, m + 1, a, b))
  {
    hide *;
    PreparedParts(t, q, h, n, machine);
    var call := Path(q, h, n, m, a, b);
    PathIs(q, h, n, m, a, b);
    PathIs(q, h, n, m + 1, a, b);
    LoneUpdate(t, call, Path(q, h, n, m + 1, a, b));
    ApplyStep(Lone(t, call), 0);
    StepCallIs(Lone(t, call), 0);
    FlushCases(t, None);
    ReplayAbsent(t, q, machine);
    LoneBlocked(t, call, Open(q, h, Upserted));
    GrantedStatements(t, q, h, n);
    InsertFitsExactly(t, q, h, n, machine);
    SteppedStatement(t, q, h, n, machine);
  }

  lemma PathIs(q: Request, h: Held, n: nat, m: nat, a: nat, b: nat)
    requires m <= 6
    ensures var call := Path(q, h, n, m, a, b);
            call.q == q && call.attempt == a && call.begun == (if m == 0 then b else b + 1)
            && call.pc == (match m case 0 => Ready case 1 => Begun case 2 => Absent case 3 => Locked
                                   case 4 => Approved(n) case 5 => Stepped(n) case _ => Written(n))
            && call.open == (match m case 3 => Some(Open(q, h, Upserted)) case 4 => Some(Open(q, h, Upserted))
                                     case 5 => Some(Open(q, h, Updated(n))) case 6 => Some(Open(q, h, Inserted(n)))
                                     case _ => None)
  {
  }

  lemma {:induction false} PathRun(
    t: Tables, q: Request, h: Held, n: nat, machine: Bytes, m: nat, k: nat, a: nat, b: nat, rest: seq<Action>)
    requires Prepared(t, q, h, n, machine) && m + k <= 6
    ensures Run(Lone(t, Path(q, h, n, m, a, b)), Steps(k, rest)) == Run(Lone(t, Path(q, h, n, m + k, a, b)), rest)
    decreases k
  {
    hide *;
    if k == 0 {
      StepsNone(rest);
    } else {
      StepsUnfold(k, rest);
      RunCons(Lone(t, Path(q, h, n, m, a, b)), Step(0), Steps(k - 1, rest));
      PathStep(t, q, h, n, machine, m, a, b);
      PathRun(t, q, h, n, machine, m + 1, k - 1, a, b, rest);
    }
  }

  /** An attempt that executes `m` statements, fails at the next one, and rolls back. */
  function FailedAttempt(m: nat, transient: bool, rest: seq<Action>): seq<Action>
  {
    Steps(m, [Fault(0, transient, false)] + ([Rollback(0, true)] + rest))
  }

  /** One such attempt after the other, each with a transient error. */
  function Attempts(ms: seq<nat>, rest: seq<Action>): seq<Action>
    decreases |ms|
  {
    if ms == [] then rest else FailedAttempt(ms[0], true, Attempts(ms[1..], rest))
  }

  predicate WithinAttempt(ms: seq<nat>)
  {
    forall i :: 0 <= i < |ms| ==> ms[i] <= 6
  }

  lemma AttemptFails(
    t: Tables, q: Request, h: Held, n: nat, machine: Bytes, m: nat, transient: bool, a: nat, b: nat, rest: seq<Action>)
    requires Prepared(t, q, h, n, machine) && m <= 6
    ensures Run(Lone(t, Call(q, Ready, a, b, None)), FailedAttempt(m, transient, rest))
            == Run(Lone(t, Call(q, if transient && a < 4 then Ready else Failed(AllocationConflict),
                                if transient && a < 4 then a + 1 else a, if m == 0 then b else b + 1, None)), rest)
  {
    hide *;
    var call := Path(q, h, n, m, a, b);
    PathIs(q, h, n, 0, a, b);
    PathIs(q, h, n, m, a, b);
    FailedAttemptIs(m, transient, rest);
    PathRun(t, q, h, n, machine, 0, m, a, b, [Fault(0, transient, false)] + ([Rollback(0, true)] + rest));
    RunCons(Lone(t, call), Fault(0, transient, false), [Rollback(0, true)] + rest);
    FaultRolledBack(t, call, transient);
    RunCons(Apply(Lone(t, call), Fault(0, transient, false)), Rollback(0, true), rest);
  }

  lemma FailedAttemptIs(m: nat, transient: bool, rest: seq<Action>)
    ensures FailedAttempt(m, transient, rest) == Steps(m, [Fault(0, transient, false)] + ([Rollback(0, true)] + rest))
  {
    hide Steps;
  }

  lemma FaultRolledBack(t: Tables, call: Call, transient: bool)
    requires !call.pc.Failing? && !call.pc.Returned? && !call.pc.Failed?
    ensures Apply(Apply(Lone(t, call), Fault(0, transient, false)), Rollback(0, true))
            == Lone(t, Call(call.q, if transient && call.attempt < 4 then Ready else Failed(AllocationConflict),
                            if transient && call.attempt < 4 then call.attempt + 1 else call.attempt, call.begun, None))
  {
    var failing := call.(pc := Failing(AllocationConflict, transient));
    LoneUpdate(t, call, failing);
    var after := Call(call.q, if transient && call.attempt < 4 then Ready else Failed(AllocationConflict),
                      if transient && call.attempt < 4 then call.attempt + 1 else call.attempt, call.begun, None);
    LoneUpdate(t, failing, after);
    hide Flush;
    assert Apply(Lone(t, call), Fault(0, transient, false)) == Lone(t, failing);
  }

  /** The attempts in which START TRANSACTION was executed. */
  function BegunIn(ms: seq<nat>): nat
    decreases |ms|
  {
    if ms == [] then 0 else (if ms[0] == 0 then 0 else 1) + BegunIn(ms[1..])
  }

  lemma {:induction false} AttemptsRun(
    t: Tables, q: Request, h: Held, n: nat, machine: Bytes, ms: seq<nat>, a: nat, b: nat, rest: seq<Action>)
    requires Prepared(t, q, h, n, machine) && WithinAttempt(ms) && a + |ms| <= 4
    ensures Run(Lone(t, Call(q, Ready, a, b, None)), Attempts(ms, rest))
            == Run(Lone(t, Call(q, Ready, a + |ms|, b + BegunIn(ms), None)), rest)
    decreases |ms|
  {
    hide Prepared, Lone, Run, FailedAttempt;
    if ms != [] {
      AttemptFails(t, q, h, n, machine, ms[0], true, a, b, Attempts(ms[1..], rest));
      assert forall i :: 0 <= i < |ms[1..]| ==> ms[1..][i] == ms[i + 1];
      AttemptsRun(t, q, h, n, machine, ms[1..], a + 1, if ms[0] == 0 then b else b + 1, rest);
    }
  }

  /** Seven statements, COMMIT being the last. */
  function WholeAttempt(): seq<Action> { Steps(7, []) }

  /** A lone call whose first attempts, up to four of them, each fail transiently at some statement and roll
      back, and whose next attempt is undisturbed, gets the next number and commits it. */
  lemma RetriesSucceed(t: Tables, q: Request, h: Held, n: nat, machine: Bytes, ms: seq<nat>)
    requires q.width >= 0 && Prepared(t, q, h, n, machine) && WithinAttempt(ms) && |ms| < 5
    ensures var returned := Lone(Committed(t, q, h, n, machine), Call(q, Returned(n), |ms|, BegunIn(ms) + 1, None));
            Run(Start(t), [Invoke(0, q)] + Attempts(ms, WholeAttempt())) == returned
  {
    hide *;
    WholeAttemptIs();
    PreparedParts(t, q, h, n, machine);
    RunCons(Start(t), Invoke(0, q), Attempts(ms, Steps(7, [])));
    Invoked0(t, q);
    AttemptsRun(t, q, h, n, machine, ms, 0, 0, Steps(7, []));
    var a, b := |ms|, BegunIn(ms);
    var written, returned := Path(q, h, n, 6, a, b), Call(q, Returned(n), a, b + 1, None);
    PathIs(q, h, n, 0, a, b);
    PathIs(q, h, n, 6, a, b);
    StepsSplit(6, 1, []);
    PathRun(t, q, h, n, machine, 0, 6, a, b, Steps(1, []));
    StepsUnfold(1, []);
    StepsNone([]);
    RunCons(Lone(t, written), Step(0), []);
    CommitStep(t, q, h, n, machine, a, b);
    RunNothing(Lone(Committed(t, q, h, n, machine), returned));
  }

  lemma WholeAttemptIs()
    ensures WholeAttempt() == Steps(7, [])
  {
    hide Steps;
  }

  lemma {:induction false} StepsSplit(j: nat, k: nat, rest: seq<Action>)
    ensures Steps(j + k, rest) == Steps(j, Steps(k, rest))
    decreases j
  {
    if j > 0 { StepsSplit(j - 1, k, rest); }
  }

  lemma CommitStep(t: Tables, q: Request, h: Held, n: nat, machine: Bytes, a: nat, b: nat)
    requires q.width >= 0 && Prepared(t, q, h, n, machine)
    ensures Apply(Lone(t, Call(q, Written(n), a, b + 1, Some(Open(q, h, Inserted(n))))), Step(0))
            == Lone(Committed(t, q, h, n, machine), Call(q, Returned(n), a, b + 1, None))
  {
    hide *;
    PreparedParts(t, q, h, n, machine);
    var written := Call(q, Written(n), a, b + 1, Some(Open(q, h, Inserted(n))));
    var returned := Call(q, Returned(n), a, b + 1, None);
    LoneUpdate(t, written, returned);
    ApplyStep(Lone(t, written), 0);
    StepCallIs(Lone(t, written), 0);
    FlushCases(t, written.open);
    FlushedInserted(t, q, h, n, machine);
    LoneUpdate(Committed(t, q, h, n, machine), returned, returned);
  }

  /** Exactly five attempts: after fewer transient failures the call is about to try again, the fifth one
      ends it; the tables are as before in either case. */
  lemma RetriesExactly(t: Tables, q: Request, h: Held, n: nat, machine: Bytes, ms: seq<nat>)
    requires Prepared(t, q, h, n, machine) && WithinAttempt(ms) && |ms| <= 5
    ensures Run(Start(t), [Invoke(0, q)] + Attempts(ms, []))
            == Lone(t, if |ms| < 5 then Call(q, Ready, |ms|, BegunIn(ms), None)
                       else Call(q, Failed(AllocationConflict), 4, BegunIn(ms), None))
  {
    hide *;
    PreparedParts(t, q, h, n, machine);
    RunCons(Start(t), Invoke(0, q), Attempts(ms, []));
    Invoked0(t, q);
    if |ms| < 5 {
      AttemptsRun(t, q, h, n, machine, ms, 0, 0, []);
      RunNothing(Lone(t, Call(q, Ready, |ms|, BegunIn(ms), None)));
    } else {
      AttemptsLast(ms, []);
      AttemptsRun(t, q, h, n, machine, ms[..4], 0, 0, FailedAttempt(ms[4], true, []));
      AttemptFails(t, q, h, n, machine, ms[4], true, 4, BegunIn(ms[..4]), []);
      RunNothing(Lone(t, Call(q, Failed(AllocationConflict), 4, BegunIn(ms), None)));
    }
  }

  lemma {:induction false} AttemptsLast(ms: seq<nat>, rest: seq<Action>)
    requires ms != [] && WithinAttempt(ms)
    ensures var k := |ms| - 1;
            WithinAttempt(ms[..k]) && ms[k] <= 6
            && Attempts(ms, rest) == Attempts(ms[..k], FailedAttempt(ms[k], true, rest))
            && BegunIn(ms) == BegunIn(ms[..k]) + (if ms[k] == 0 then 0 else 1)
    decreases |ms|
  {
    hide FailedAttempt;
    var k := |ms| - 1;
    if k == 0 {
      assert ms[1..] == [] && ms[..0] == [];
    } else {
      var tail := ms[1..];
      assert forall i :: 0 <= i < |tail| ==> tail[i] == ms[i + 1];
      AttemptsLast(tail, rest);
      assert ms[..k][0] == ms[0] && ms[..k][1..] == tail[..k - 1];
    }
  }

  /** Any other error ends the call in whatever attempt it comes. */
  lemma OtherErrorEnds(t: Tables, q: Request, h: Held, n: nat, machine: Bytes, ms: seq<nat>, m: nat)
    requires Prepared(t, q, h, n, machine) && WithinAttempt(ms) && |ms| < 5 && m <= 6
    ensures Run(Start(t), [Invoke(0, q)] + Attempts(ms, FailedAttempt(m, false, [])))
            == Lone(t, Call(q, Failed(AllocationConflict), |ms|, BegunIn(ms) + (if m == 0 then 0 else 1), None))
  {
    hide *;
    PreparedParts(t, q, h, n, machine);
    RunCons(Start(t), Invoke(0, q), Attempts(ms, FailedAttempt(m, false, [])));
    Invoked0(t, q);
    AttemptsRun(t, q, h, n, machine, ms, 0, 0, FailedAttempt(m, false, []));
    AttemptFails(t, q, h, n, machine, m, false, |ms|, BegunIn(ms), []);
    RunNothing(Lone(t, Call(q, Failed(AllocationConflict), |ms|, BegunIn(ms) + (if m == 0 then 0 else 1), None)));
  }

  // ----- a failing ROLLBACK

  /** A transient error, a ROLLBACK that fails, and the START TRANSACTION of the next attempt. */
  function Retry(): seq<Action>
  {
    [Fault(0, true, false)] + ([Rollback(0, false)] + ([Step(0)] + []))
  }

  /** It commits whatever was written. */
  lemma RetryCommits(t: Tables, call: Call, o: Open)
    requires Active(call.pc) && !call.pc.Ready? && !call.pc.Written? && call.open == Some(o) && call.attempt == 0
    requires MachineOf(call.q).Some?
    ensures Run(Lone(t, call), Retry()).tables == Flushed(t, o)
    ensures Torn(Lone(t, call), Retry()) <==> Unfinished(o)
    ensures forall p, scope :: (Complete(Lone(t, call), Retry(), p, scope)
              <==> !(o.done.Updated? && o.q.prefix == p && o.q.key.scope == scope))
  {
    hide *;
    var failing := call.(pc := Failing(AllocationConflict, true));
    var ready := call.(pc := Ready, attempt := 1);
    var begun := ready.(pc := Begun, begun := call.begun + 1, open := None);
    RetryIs();
    PermanentIs(call);
    PermanentIs(ready);
    LoneFault(t, call);
    LonePermanent(t, call, Fault(0, true, false));
    QuietStep(Lone(t, call), Fault(0, true, false), [Rollback(0, false)] + ([Step(0)] + []));
    LoneRollback(t, failing);
    NoPermanent(Lone(t, failing), Rollback(0, false));
    QuietStep(Lone(t, failing), Rollback(0, false), [Step(0)] + []);
    ContinuesTwice(Lone(t, call), Retry(), Lone(t, failing), [Rollback(0, false)] + ([Step(0)] + []), Lone(t, ready), [Step(0)] + []);
    LoneUpdate(t, ready, begun);
    ApplyStep(Lone(t, ready), 0);
    StepCallIs(Lone(t, ready), 0);
    FlushCases(t, Some(o));
    LonePermanent(t, ready, Step(0));
    PermanentCases(Lone(t, ready), Step(0));
    RunCons(Lone(t, ready), Step(0), []);
    RunNothing(Apply(Lone(t, ready), Step(0)));
    ContinuesParts(Lone(t, call), Retry(), Lone(t, ready), [Step(0)] + []);
  }

  lemma RetryIs()
    ensures Retry() == [Fault(0, true, false)] + ([Rollback(0, false)] + ([Step(0)] + []))
  {
  }

  lemma RunNothing(s: State)
    ensures Run(s, []) == s && !Torn(s, []) && forall p, scope :: Complete(s, [], p, scope)
  {
  }

  lemma ContinuesParts(s: State, before: seq<Action>, t: State, after: seq<Action>)
    requires Continues(s, before, t, after)
    ensures Run(s, before) == Run(t, after) && (Torn(s, before) <==> Torn(t, after))
    ensures forall p, scope :: (Complete(s, before, p, scope) <==> Complete(t, after, p, scope))
  {
    hide Run, Torn, Complete;
  }

  lemma LoneFault(t: Tables, call: Call)
    requires Active(call.pc)
    ensures Apply(Lone(t, call), Fault(0, true, false)) == Lone(t, call.(pc := Failing(AllocationConflict, true)))
  {
    hide Active, Permanent, Flush;
    LoneUpdate(t, call, call.(pc := Failing(AllocationConflict, true)));
  }

  lemma LoneRollback(t: Tables, call: Call)
    requires call.pc.Failing? && call.pc.transient && call.attempt == 0
    ensures Apply(Lone(t, call), Rollback(0, false)) == Lone(t, call.(pc := Ready, attempt := 1))
  {
    LoneUpdate(t, call, call.(pc := Ready, attempt := 1));
  }

  /** The counter is written, the insert of the binding meets a transient error, and its ROLLBACK fails. */
  function Interrupted(q: Request): seq<Action>
  {
    [Invoke(0, q)] + Steps(3, Steps(2, Retry()))
  }

  /** The run commits the counter at `n` without a binding, and in no continuation is `n` ever bound. */
  lemma NumberSkipped(t: Tables, q: Request, h: Held, n: nat, machine: Bytes, later: seq<Action>)
    requires Prepared(t, q, h, n, machine)
    ensures var s := Run(Start(t), Interrupted(q));
            s.tables == Recounted(t, q, h, n) && Torn(Start(t), Interrupted(q))
            && Skipped(Start(t), Interrupted(q), q.prefix, q.key.scope)
            && !Numbered(Run(s, later).tables, q.prefix, q.key.scope, n)
            && PrefixLast(Run(s, later).tables, q.prefix, q.key.scope) >= n
  {
    hide *;
    PreparedParts(t, q, h, n, machine);
    InterruptedIs(q);
    var locked := Call(q, Locked, 0, 1, Some(Open(q, h, Upserted)));
    var o := Open(q, h, Updated(n));
    var stepped := Call(q, Stepped(n), 0, 1, Some(o));
    LoneLocked(t, q, h, machine, Steps(2, Retry()));
    LoneStepped(t, q, h, n, Retry());
    ContinuesTwice(Start(t), Interrupted(q), Lone(t, locked), Steps(2, Retry()), Lone(t, stepped), Retry());
    ContinuesParts(Start(t), Interrupted(q), Lone(t, stepped), Retry());
    ActivePcs(n);
    RetryCommits(t, stepped, o);
    UnfinishedIs(o);
    FlushedUpdated(t, q, h, n);
    CompleteIs(Start(t), Interrupted(q), q.prefix, q.key.scope);
    var s := Run(Start(t), Interrupted(q));
    StartInvariant(t);
    RunInvariant(Start(t), Interrupted(q));
    RunInvariant(s, later);
    NeverBound(t, q, h, n, Run(s, later).tables);
  }

  lemma InterruptedIs(q: Request)
    ensures Interrupted(q) == [Invoke(0, q)] + Steps(3, Steps(2, Retry()))
  {
    hide Steps, Retry;
  }

  lemma FlushedUpdated(t: Tables, q: Request, h: Held, n: nat)
    ensures Flushed(t, Open(q, h, Updated(n))) == Recounted(t, q, h, n)
    ensures Flushed(t, Open(q, h, Upserted)) == Recounted(t, q, h, h.row.last)
  {
    hide Recounted;
  }

  lemma NeverBound(t: Tables, q: Request, h: Held, n: nat, later: Tables)
    requires Inv(t) && HeldOk(t, q, h) && Granted(h, q, n) && Ascended(Recounted(t, q, h, n), later)
    ensures !Numbered(later, q.prefix, q.key.scope, n) && PrefixLast(later, q.prefix, q.key.scope) >= n
  {
    hide *;
    GrantedIs(h, q, n);
    RecountInv(t, q, h, n);
    InvUnique(t);
    InvUnique(Recounted(t, q, h, n));
    RecountPrefixLast(t, q, h, n, q.prefix, q.key.scope);
    RecountedBindings(t, q, h, n);
    SameNumbered(t, Recounted(t, q, h, n), q.prefix, q.key.scope, n);
    if Numbered(t, q.prefix, q.key.scope, n) { NumberedBelow(t, q.prefix, q.key.scope, n); }
    AscendedAt(Recounted(t, q, h, n), later, q.prefix, q.key.scope);
    AscendingIs(Recounted(t, q, h, n), later, q.prefix, q.key.scope);
  }

  /** Such a run starts from empty tables, for every MID and every valid key, prefix and width. */
  lemma EmptySkips(q: Request)
    requires Shaped(q.machineId) && CounterRowOk(q.key, q.prefix, q.width)
    ensures Skipped(Start(Empty()), Interrupted(q), q.prefix, q.key.scope)
    ensures Last(Run(Start(Empty()), Interrupted(q)).tables, q.key) == 1
    ensures Run(Start(Empty()), Interrupted(q)).tables.bindings == map[]
  {
    hide *;
    CounterWidth(q);
    var h := Held(None, Counter(q.prefix, q.width, 0));
    EmptyPrepared(q, h);
    var machine := MachineOf(q).value;
    NumberSkipped(Empty(), q, h, 1, machine, []);
    RecountedEmpty(q, h);
  }

  lemma RecountedEmpty(q: Request, h: Held)
    requires h.source.None?
    ensures Last(Recounted(Empty(), q, h, 1), q.key) == 1 && Recounted(Empty(), q, h, 1).bindings == map[]
  {
  }

  lemma EmptyPrepared(q: Request, h: Held)
    requires Shaped(q.machineId) && CounterRowOk(q.key, q.prefix, q.width) && q.width >= 0
    requires h == Held(None, Counter(q.prefix, q.width, 0))
    ensures MachineOf(q).Some? && Prepared(Empty(), q, h, 1, MachineOf(q).value)
  {
    hide *;
    EmptyInv();
    ShapedMachine(q);
    EmptyReplay(q.key, MachineOf(q).value);
    EmptyUpsert(q, h);
    MakePrepared(Empty(), q, h, 1, MachineOf(q).value);
  }

  lemma MakePrepared(t: Tables, q: Request, h: Held, n: nat, machine: Bytes)
    requires Inv(t) && 4 <= q.width <= 18 && MachineOf(q) == Some(machine) && Replay(t, q.key, machine).None?
    requires Upsert(t, q) == Some(h) && Granted(h, q, n)
    ensures Prepared(t, q, h, n, machine)
  {
    hide Inv, MachineOf, Replay, Upsert, Granted;
  }

  lemma ShapedMachine(q: Request)
    requires Shaped(q.machineId)
    ensures MachineOf(q).Some?
  {
    LowerHex(q.machineId);
    BytesRoundTrip(q.machineId);
    hide MachineIdToBytes, Shaped, Lower;
  }

  lemma EmptyReplay(key: Key, machine: Bytes)
    ensures Replay(Empty(), key, machine).None?
  {
    hide Replay;
    assert forall k: nat :: !Bound(Empty(), key, k, machine);
  }

  lemma EmptyUpsert(q: Request, h: Held)
    requires CounterRowOk(q.key, q.prefix, q.width) && h == Held(None, Counter(q.prefix, q.width, 0))
    ensures Upsert(Empty(), q) == Some(h) && Granted(h, q, 1) && 4 <= q.width <= 18
  {
    CounterWidth(q);
    MaximumPositive(q.width);
    hide CounterRowOk, Maximum, HasBindings;
  }

  // ----- which namespace a counter stands under

  /** A commit keeps every counter under its namespace exactly when the upsert found no row of another
      namespace with this prefix and scope. */
  lemma CommitKeepsNamespaces(t: Tables, q: Request, h: Held, n: nat, machine: Bytes)
    requires Inv(t) && HeldOk(t, q, h) && Granted(h, q, n) && Replay(t, q.key, machine).None? && q.width >= 0
    ensures Grown(t, Committed(t, q, h, n, machine)) <==> q.key in t.counters || !PrefixTaken(t, q.key, q.prefix)
  {
    hide *;
    var after := Committed(t, q, h, n, machine);
    CommitGrows(t, q, h, n, machine);
    GrownParts(t, after);
    MovedIs(t, q, h, n);
    GrantedIs(h, q, n);
    CommittedIs(t, q, h, n, machine);
    if h.source.Some? && h.source.value != q.key {
      MovedAway(t, q, h, n);
      SameMoved(t, Recounted(t, q, h, n), after, h.source.value);
    } else {
      InPlace(t, q, h, n);
      SameKept2(t, Recounted(t, q, h, n), after);
      KeptNamespaces(t, after);
    }
  }

  lemma MovedIs(t: Tables, q: Request, h: Held, n: nat)
    requires HeldOk(t, q, h) && Granted(h, q, n)
    ensures h.source.Some? && h.source.value != q.key <==> q.key !in t.counters && PrefixTaken(t, q.key, q.prefix)
  {
    hide CounterRowOk, Maximum, HasBindings;
  }

  /** A moved row is gone from its namespace. */
  lemma MovedAway(t: Tables, q: Request, h: Held, n: nat)
    requires HeldOk(t, q, h) && h.source.Some? && h.source.value != q.key
    ensures h.source.value in t.counters && h.source.value !in Recounted(t, q, h, n).counters
    ensures !Grown(t, Recounted(t, q, h, n))
  {
    hide CounterRowOk, Maximum, HasBindings, ReferencesKept, BindingsKept, Conserved;
  }

  lemma SameMoved(t: Tables, a: Tables, b: Tables, k: Key)
    requires a.counters == b.counters && k in t.counters && k !in a.counters
    ensures !Grown(t, b)
  {
    hide ReferencesKept, BindingsKept, Conserved;
  }

  lemma SameKept2(t: Tables, a: Tables, b: Tables)
    requires a.counters == b.counters && CountersKept(t, a)
    ensures CountersKept(t, b)
  {
  }

  lemma InPlace(t: Tables, q: Request, h: Held, n: nat)
    requires HeldOk(t, q, h) && (h.source.Some? ==> h.source.value == q.key) && h.row.last <= n
    ensures CountersKept(t, Recounted(t, q, h, n))
  {
    hide CounterRowOk, Maximum, HasBindings, PrefixTaken;
  }

  /** Where another namespace holds the prefix in this scope without a binding yet (a counter seeded by
      hand), one undisturbed call takes that counter away from it: the row stands under the calling
      namespace afterwards, and the former one has no counter any more. */
  lemma SeededCounterTaken(t: Tables, q: Request, h: Held, n: nat, machine: Bytes)
    requires Prepared(t, q, h, n, machine) && q.key !in t.counters && PrefixTaken(t, q.key, q.prefix)
    ensures var after := Run(Start(t), Undisturbed(q)).tables;
            h.source.Some? && h.source.value in t.counters && h.source.value !in after.counters
            && q.key in after.counters && Last(after, q.key) == Last(t, h.source.value) + 1 && !Grown(t, after)
  {
    hide *;
    PreparedParts(t, q, h, n, machine);
    LoneCall(t, q, h, n, machine);
    MovedIs(t, q, h, n);
    MovedAway(t, q, h, n);
    CommittedIs(t, q, h, n, machine);
    SameMoved(t, Recounted(t, q, h, n), Committed(t, q, h, n, machine), h.source.value);
    LoneUpdate(Committed(t, q, h, n, machine), Call(q, Returned(n), 0, 1, None), Call(q, Returned(n), 0, 1, None));
    TakenLast(t, q, h, n, machine);
  }

  lemma TakenLast(t: Tables, q: Request, h: Held, n: nat, machine: Bytes)
    requires HeldOk(t, q, h) && Granted(h, q, n) && h.source.Some? && q.width >= 0
    ensures var after := Committed(t, q, h, n, machine);
            q.key in after.counters && Last(after, q.key) == Last(t, h.source.value) + 1
            && after.counters == Recounted(t, q, h, n).counters
  {
    hide Maximum, HasBindings;
  }

  /** Such tables exist: a counter of namespace `a` seeded at 9998, and a call for namespace `b`. */
  lemma SeededExample(mid: string) returns (t: Tables, q: Request, h: Held)
    requires Shaped(mid)
    ensures MachineOf(q).Some? && Prepared(t, q, h, 9999, MachineOf(q).value)
    ensures q.key !in t.counters && PrefixTaken(t, q.key, q.prefix)
  {
    hide *;
    t := Seeded();
    q := Request(mid, Key("b", ""), "AB", 4);
    h := Held(Some(Key("a", "")), Counter("AB", 4, 9998));
    SeededInv();
    ShapedMachine(q);
    SeededReplay(MachineOf(q).value);
    SeededUpsert(q);
    SeededGranted(q);
    MakePrepared(t, q, h, 9999, MachineOf(q).value);
  }

  function Seeded(): Tables
  {
    Tables(map[], map[Key("a", "") := Counter("AB", 4, 9998)], map[])
  }

  lemma SeededInv()
    ensures Inv(Seeded())
  {
    hide *;
    TenToTheFourth();
    SeededRow();
    OneCounter(Key("a", ""), Counter("AB", 4, 9998));
    SeededIs();
  }

  lemma SeededIs()
    ensures Seeded() == Tables(map[], map[Key("a", "") := Counter("AB", 4, 9998)], map[])
  {
  }

  lemma SeededRow()
    ensures CounterRowOk(Key("a", ""), "AB", 4)
  {
  }

  lemma OneCounter(k: Key, c: Counter)
    requires CounterRowOk(k, c.prefix, c.width) && c.last <= Maximum(c.width)
    ensures Inv(Tables(map[], map[k := c], map[]))
  {
    hide CounterRowOk, Maximum;
  }

  lemma SeededReplay(machine: Bytes)
    ensures Replay(Seeded(), Key("b", ""), machine).None?
  {
    hide Replay;
    assert forall k: nat :: !Bound(Seeded(), Key("b", ""), k, machine);
  }

  lemma SeededUpsert(q: Request)
    requires q.key == Key("b", "") && q.prefix == "AB" && q.width == 4
    ensures Upsert(Seeded(), q) == Some(Held(Some(Key("a", "")), Counter("AB", 4, 9998)))
    ensures q.key !in Seeded().counters && PrefixTaken(Seeded(), q.key, q.prefix)
  {
    var t, k := Seeded(), Key("a", "");
    assert CounterRowOk(q.key, "AB", 4);
    hide CounterRowOk;
    assert k in t.counters && k.scope == q.key.scope && t.counters[k].prefix == q.prefix && k != q.key;
  }

  lemma SeededGranted(q: Request)
    requires q.prefix == "AB" && q.width == 4
    ensures Granted(Held(Some(Key("a", "")), Counter("AB", 4, 9998)), q, 9999)
  {
    TenToTheFourth();
    hide Maximum;
  }

  lemma TenToTheFourth()
    ensures Maximum(4) == 9999
  {
    assert Pow(10, 0) == 1;
    assert Pow(10, 1) == 10;
    assert Pow(10, 2) == 100;
    assert Pow(10, 3) == 1000;
  }

  // ----- from which tables namespaces are safe

  /** A namespace longer than every one in use. */
  lemma {:induction false} FreshNamespace(keys: set<Key>) returns (namespace: string)
    ensures forall k :: k in keys ==> |k.namespace| < |namespace|
    decreases |keys|
  {
    if keys == {} {
      namespace := "a";
    } else {
      var k :| k in keys;
      var rest := FreshNamespace(keys - {k});
      namespace := rest + k.namespace + "a";
    }
  }

  /** A call of a namespace not in use, for the prefix, width and scope of a given counter. */
  lemma Newcomer(t: Tables, k: Key) returns (q: Request)
    requires Inv(t) && k in t.counters
    ensures q.key !in t.counters && q.key.scope == k.scope && q.prefix == t.counters[k].prefix
    ensures q.width == t.counters[k].width && CounterRowOk(q.key, q.prefix, q.width)
    ensures MachineOf(q).Some? && Replay(t, q.key, MachineOf(q).value).None?
  {
    var namespace := FreshNamespace(t.counters.Keys);
    q := Request(FormatMachine(0), Key(namespace, k.scope), t.counters[k].prefix, t.counters[k].width);
    NewcomerRow(t, k, q);
    hide *;
    PowPositive(16, 32);
    FormatThenNumber(0);
    ShapedMachine(q);
    InvUnique(t);
    UnusedReplay(t, q.key, MachineOf(q).value);
  }

  lemma NewcomerRow(t: Tables, k: Key, q: Request)
    requires CountersOk(t) && k in t.counters && q.key.scope == k.scope && q.prefix == t.counters[k].prefix
    requires q.width == t.counters[k].width
    ensures CounterRowOk(q.key, q.prefix, q.width)
  {
    hide Maximum;
  }

  lemma UnusedReplay(t: Tables, key: Key, machine: Bytes)
    requires BindingsOk(t) && key !in t.counters
    ensures Replay(t, key, machine).None?
  {
    hide Replay;
    assert forall n: nat :: Bound(t, key, n, machine) ==> Slot(key, n) in t.bindings;
  }

  /** Its upsert moves the counter, if no binding refers to it. */
  lemma NewcomerMoves(t: Tables, k: Key, q: Request)
    requires Inv(t) && k in t.counters && !HasBindings(t, k) && q.key !in t.counters && q.key.scope == k.scope
    requires q.prefix == t.counters[k].prefix && CounterRowOk(q.key, q.prefix, q.width)
    ensures Upsert(t, q) == Some(Held(Some(k), t.counters[k]))
  {
    hide CounterRowOk, HasBindings, CountersOk, BindingsOk, MachinesUnique;
  }

  /** The upsert has moved a row when a transient error comes, and its ROLLBACK fails. */
  function Moving(q: Request): seq<Action>
  {
    [Invoke(0, q)] + Steps(3, Retry())
  }

  /** The row is moved for good, and no number is skipped. */
  lemma RowMoved(t: Tables, q: Request, h: Held)
    requires Inv(t) && MachineOf(q).Some? && Replay(t, q.key, MachineOf(q).value).None?
    requires 4 <= q.width <= 18 && Upsert(t, q) == Some(h) && h.source.Some? && h.source.value != q.key
    ensures NeverSkipped(Start(t), Moving(q)) && !Grown(t, Run(Start(t), Moving(q)).tables)
  {
    hide *;
    UpsertOk(t, q);
    MovingIs(q);
    var o := Open(q, h, Upserted);
    var locked := Call(q, Locked, 0, 1, Some(o));
    LoneLocked(t, q, h, MachineOf(q).value, Retry());
    ContinuesParts(Start(t), Moving(q), Lone(t, locked), Retry());
    ActivePcs(0);
    RetryCommits(t, locked, o);
    NeverSkippedIs(Start(t), Moving(q));
    FlushedUpdated(t, q, h, 0);
    MovedAway(t, q, h, h.row.last);
  }

  lemma MovingIs(q: Request)
    ensures Moving(q) == [Invoke(0, q)] + Steps(3, Retry())
  {
    hide Steps, Retry;
  }

  ghost predicate SafeRun(t: Tables, actions: seq<Action>)
  {
    NeverSkipped(Start(t), actions) ==> Grown(t, Run(Start(t), actions).tables)
  }

  ghost predicate SafeWholeRun(t: Tables, actions: seq<Action>)
  {
    !Torn(Start(t), actions) ==> Grown(t, Run(Start(t), actions).tables)
  }

  /** Every run from given tables that skips no number conserves numbers per namespace if and only if
      every counter of these tables has a binding. */
  lemma NamespacesSafeExactly(t: Tables)
    requires Inv(t)
    ensures (forall actions :: SafeRun(t, actions)) <==> Anchored(t)
  {
    hide *;
    StartInvariant(t);
    StartTables(t);
    if Anchored(t) {
      forall actions ensures SafeRun(t, actions) {
        AnchoredRun(Start(t), actions);
        SafeRunIs(t, actions);
      }
    } else {
      var k := UnanchoredRow(t);
      var q := Newcomer(t, k);
      NewcomerMoves(t, k, q);
      CounterWidth(q);
      RowMoved(t, q, Held(Some(k), t.counters[k]));
      SafeRunIs(t, Moving(q));
    }
  }

  lemma StartTables(t: Tables)
    ensures Start(t).tables == t
  {
  }

  lemma SafeRunIs(t: Tables, actions: seq<Action>)
    ensures SafeRun(t, actions) <==> (NeverSkipped(Start(t), actions) ==> Grown(t, Run(Start(t), actions).tables))
    ensures SafeWholeRun(t, actions) <==> (!Torn(Start(t), actions) ==> Grown(t, Run(Start(t), actions).tables))
  {
    hide NeverSkipped, Torn, Grown, Run;
  }

  lemma UnanchoredRow(t: Tables) returns (k: Key)
    requires !Anchored(t)
    ensures k in t.counters && !HasBindings(t, k)
  {
    hide HasBindings;
    k :| k in t.counters && !HasBindings(t, k);
  }

  /** Every counter has a binding, or no number left to give. */
  ghost predicate Exhausted(t: Tables)
  {
    forall k :: k in t.counters ==> HasBindings(t, k) || t.counters[k].last >= Maximum(t.counters[k].width)
  }

  lemma ExhaustedCommit(t: Tables, q: Request, h: Held, n: nat, machine: Bytes)
    requires Inv(t) && HeldOk(t, q, h) && Granted(h, q, n) && Replay(t, q.key, machine).None? && q.width >= 0
    requires Exhausted(t)
    ensures Exhausted(Committed(t, q, h, n, machine)) && Grown(t, Committed(t, q, h, n, machine))
  {
    hide *;
    var after := Committed(t, q, h, n, machine);
    CommitGrows(t, q, h, n, machine);
    GrownParts(t, after);
    KeptBindings(t, after);
    ExhaustedInPlace(t, q, h, n);
    GrantedIs(h, q, n);
    InPlace(t, q, h, n);
    CommittedIs(t, q, h, n, machine);
    SameKept2(t, Recounted(t, q, h, n), after);
    KeptNamespaces(t, after);
    ExhaustedAfter(t, q, h, n, machine);
  }

  lemma ExhaustedInPlace(t: Tables, q: Request, h: Held, n: nat)
    requires HeldOk(t, q, h) && Granted(h, q, n) && Exhausted(t)
    ensures h.source.Some? ==> h.source.value == q.key
  {
    hide HasBindings, CounterRowOk, Maximum;
  }

  lemma ExhaustedAfter(t: Tables, q: Request, h: Held, n: nat, machine: Bytes)
    requires q.width >= 0 && Exhausted(t) && BindingsKept(t, Committed(t, q, h, n, machine))
    ensures Exhausted(Committed(t, q, h, n, machine))
  {
    hide Maximum;
    var after := Committed(t, q, h, n, machine);
    assert Slot(q.key, n) in after.bindings && Slot(q.key, n).key == q.key;
    forall k | k in after.counters ensures HasBindings(after, k) || after.counters[k].last >= Maximum(after.counters[k].width) {
      if k != q.key {
        assert k in t.counters && after.counters[k] == t.counters[k];
        if HasBindings(t, k) {
          var s :| s in t.bindings && s.key == k;
          assert s in after.bindings;
        }
      }
    }
  }

  lemma ExhaustedStep(s: State, a: Action)
    requires Invariant(s) && Exhausted(s.tables) && !Tears(s, a)
    ensures Exhausted(Apply(s, a).tables) && Grown(s.tables, Apply(s, a).tables)
  {
    hide *;
    GrownReflexive(s.tables);
    InvariantParts(s, 0);
    TablesAfter(s, a);
    PermanentCases(s, a);
    if a.Reserve? {
      ReservationKeeps(s.tables, a.reference, a.row);
      ExhaustedSame(s.tables, Reservation(s.tables, a.reference, a.row).1);
    } else {
      FlushCases(s.tables, MadePermanent(s, a));
      if MadePermanent(s, a).Some? {
        var o := MadePermanent(s, a).value;
        MadePermanentOk(s, a);
        OpenParts(s.tables, o);
        UnfinishedIs(o);
        if o.done.Inserted? {
          ExhaustedCommit(s.tables, o.q, o.held, o.done.n, MachineOf(o.q).value);
        } else {
          OwnRowUnchanged(s.tables, o);
        }
      }
    }
  }

  lemma ExhaustedSame(a: Tables, b: Tables)
    requires Exhausted(a) && a.counters == b.counters && a.bindings == b.bindings
    ensures Exhausted(b)
  {
    hide Maximum;
    forall k | k in b.counters ensures HasBindings(b, k) || b.counters[k].last >= Maximum(b.counters[k].width) {
      if HasBindings(a, k) {
        var s :| s in a.bindings && s.key == k;
        assert s in b.bindings;
      }
    }
  }

  lemma {:induction false} ExhaustedRun(s: State, actions: seq<Action>)
    requires Invariant(s) && Exhausted(s.tables) && !Torn(s, actions)
    ensures Grown(s.tables, Run(s, actions).tables)
    decreases |actions|
  {
    hide Invariant, Exhausted, Grown, Apply, Tears;
    if actions == [] {
      GrownReflexive(s.tables);
    } else {
      var next := Apply(s, actions[0]);
      StepInvariant(s, actions[0]);
      ExhaustedStep(s, actions[0]);
      ExhaustedRun(next, actions[1..]);
      GrownTransitive(s.tables, next.tables, Run(next, actions[1..]).tables);
    }
  }

  /** Every run from given tables that is not torn conserves numbers per namespace if and only if every
      counter of these tables without a binding is already at its maximum. */
  lemma WholeRunsSafeExactly(t: Tables)
    requires Inv(t)
    ensures (forall actions :: SafeWholeRun(t, actions)) <==> Exhausted(t)
  {
    hide *;
    StartInvariant(t);
    StartTables(t);
    if Exhausted(t) {
      forall actions ensures SafeWholeRun(t, actions) {
        SafeRunIs(t, actions);
        if !Torn(Start(t), actions) { ExhaustedRun(Start(t), actions); }
      }
    } else {
      var k := RoomyRow(t);
      var q := Newcomer(t, k);
      NewcomerMoves(t, k, q);
      CounterWidth(q);
      var h, n := Held(Some(k), t.counters[k]), t.counters[k].last + 1;
      RoomyGranted(h, q, n);
      MakePrepared(t, q, h, n, MachineOf(q).value);
      TakenPrefix(t, k, q);
      LoneCall(t, q, h, n, MachineOf(q).value);
      SeededCounterTaken(t, q, h, n, MachineOf(q).value);
      SafeRunIs(t, Undisturbed(q));
    }
  }

  lemma RoomyRow(t: Tables) returns (k: Key)
    requires !Exhausted(t)
    ensures k in t.counters && !HasBindings(t, k) && t.counters[k].last < Maximum(t.counters[k].width)
  {
    hide HasBindings, Maximum;
    k :| k in t.counters && !HasBindings(t, k) && t.counters[k].last < Maximum(t.counters[k].width);
  }

  lemma RoomyGranted(h: Held, q: Request, n: nat)
    requires q.prefix == h.row.prefix && q.width == h.row.width && h.row.last < Maximum(h.row.width) && n == h.row.last + 1
    ensures Granted(h, q, n)
  {
    hide Maximum;
  }

  lemma TakenPrefix(t: Tables, k: Key, q: Request)
    requires k in t.counters && k.scope == q.key.scope && t.counters[k].prefix == q.prefix && q.key !in t.counters
    ensures PrefixTaken(t, q.key, q.prefix)
  {
  }
}
