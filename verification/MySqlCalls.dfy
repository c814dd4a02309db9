/** A call of the interleaved MySQL protocol by itself: it ends as the undisturbed transaction of the
    imperative adapter does, in every case. */
module MySqlCalls {
  import opened Wrappers
  import opened Errors
  import opened Tables
  import opened MySqlRows
  import opened MySqlProtocol
  import opened MySqlRuns
  import A = MySqlAdapter

  /** The call ended at its first attempt with this result, and left these tables and no open rows. */
  ghost predicate EndsAs(s: State, end: (Result<nat, Error>, Tables))
  {
    s.tables == end.1 && 0 in s.calls && s.calls[0].open.None? && s.calls[0].attempt == 0
    && s.calls[0].pc == match end.0 case Success(n) => Returned(n) case Failure(e) => Failed(e)
  }

  /** What an undisturbed call does: its statements, and a ROLLBACK if one of them was refused. */
  function Statements(): seq<Action> { Steps(7, [Rollback(0, true)]) }

  /** From any tables a lone undisturbed call ends with exactly the result and the tables of the atomic step,
      refusals included, and a refusal is not tried again. */
  lemma LoneCallExactly(t: Tables, q: Request)
    requires Inv(t)
    ensures EndsAs(Run(Start(t), [Invoke(0, q)] + Statements()),
                   if 4 <= q.width <= 18 then A.Alone(t, q) else (Failure(InvalidAllocationPolicy), t))
  {
    hide *;
    StatementsAre();
    RunCons(Start(t), Invoke(0, q), Statements());
    if q.width < 4 || q.width > 18 {
      NarrowCall(t, q);
      Ended(t, Call(q, Failed(InvalidAllocationPolicy), 0, 0, None), 7, Failure(InvalidAllocationPolicy));
    } else {
      Invoked0(t, q);
      A.AloneCases(t, q);
      var ready := Call(q, Ready, 0, 0, None);
      if MachineOf(q).None? {
        NextCases(t, ready);
        StepTo(t, ready, 6);
        Ended(t, Call(q, Failing(AllocationConflict, false), 0, 0, None), 6, Failure(AllocationConflict));
      } else {
        NextCases(t, ready);
        StepTo(t, ready, 6);
        LoneReplay(t, q, MachineOf(q).value);
      }
    }
  }

  lemma StatementsAre()
    ensures Statements() == Steps(7, [Rollback(0, true)])
  {
    hide Steps;
  }

  lemma NarrowCall(t: Tables, q: Request)
    requires q.width < 4 || q.width > 18
    ensures Apply(Start(t), Invoke(0, q)) == Lone(t, Call(q, Failed(InvalidAllocationPolicy), 0, 0, None))
  {
    var failed := Call(q, Failed(InvalidAllocationPolicy), 0, 0, None);
    assert map[][0 := failed] == map[0 := failed];
  }

  /** One statement of the lone call, COMMIT apart. */
  ghost function LoneNext(t: Tables, call: Call): Call
  {
    match call.pc
    case Ready =>
      if MachineOf(call.q).None? then call.(pc := Failing(AllocationConflict, false))
      else call.(pc := Begun, begun := call.begun + 1)
    case Absent =>
      (match Upsert(t, call.q)
       case None => call.(pc := Failing(AllocationConflict, false))
       case Some(h) => call.(pc := Locked, open := Some(Open(call.q, h, Upserted))))
    case _ => call.(pc := Statement(t, call.q, call.pc, call.open).0, open := Statement(t, call.q, call.pc, call.open).1)
  }

  lemma StepTo(t: Tables, call: Call, k: nat)
    requires !call.pc.Written? && (call.pc.Ready? || call.pc.Absent? ==> call.open.None?)
    ensures Run(Lone(t, call), Steps(k + 1, [Rollback(0, true)])) == Run(Lone(t, LoneNext(t, call)), Steps(k, [Rollback(0, true)]))
  {
    hide *;
    StepsUnfold(k + 1, [Rollback(0, true)]);
    RunCons(Lone(t, call), Step(0), Steps(k, [Rollback(0, true)]));
    LoneUpdate(t, call, LoneNext(t, call));
    ApplyStep(Lone(t, call), 0);
    NextIs(t, call);
  }

  lemma NextIs(t: Tables, call: Call)
    requires !call.pc.Written? && (call.pc.Ready? || call.pc.Absent? ==> call.open.None?)
    ensures StepCall(Lone(t, call), 0) == Lone(t, LoneNext(t, call))
  {
    hide *;
    LoneUpdate(t, call, LoneNext(t, call));
    StepCallIs(Lone(t, call), 0);
    FlushCases(t, None);
    NextCases(t, call);
    if Upsert(t, call.q).Some? { LoneBlocked(t, call, Open(call.q, Upsert(t, call.q).value, Upserted)); }
  }

  lemma NextCases(t: Tables, call: Call)
    ensures call.pc.Ready? ==>
              LoneNext(t, call) == if MachineOf(call.q).None? then call.(pc := Failing(AllocationConflict, false))
                                   else call.(pc := Begun, begun := call.begun + 1)
    ensures call.pc.Absent? ==>
              LoneNext(t, call)
              == match Upsert(t, call.q)
                 case None => call.(pc := Failing(AllocationConflict, false))
                 case Some(h) => call.(pc := Locked, open := Some(Open(call.q, h, Upserted)))
    ensures !call.pc.Ready? && !call.pc.Absent? ==>
              var (pc, open) := Statement(t, call.q, call.pc, call.open);
              LoneNext(t, call) == call.(pc := pc, open := open)
  {
    hide MachineOf, Upsert, Statement;
  }

  /** A call that was refused, or has returned, does no more than roll back. */
  lemma {:induction false} Ended(t: Tables, call: Call, k: nat, end: Result<nat, Error>)
    requires call.attempt == 0
    requires match end
             case Success(n) => call.pc == Returned(n) && call.open.None?
             case Failure(e) => call.pc == Failing(e, false) || (call.pc == Failed(e) && call.open.None?)
    ensures EndsAs(Run(Lone(t, call), Steps(k, [Rollback(0, true)])), (end, t))
    decreases k
  {
    if k == 0 {
      LastRollback(t, call, end);
    } else {
      StepTo(t, call, k - 1);
      Idles(t, call);
      hide *;
      Ended(t, call, k - 1, end);
    }
  }

  lemma Idles(t: Tables, call: Call)
    requires call.pc.Returned? || call.pc.Failing? || call.pc.Failed?
    ensures LoneNext(t, call) == call
  {
  }

  lemma LastRollback(t: Tables, call: Call, end: Result<nat, Error>)
    requires call.attempt == 0
    requires match end
             case Success(n) => call.pc == Returned(n) && call.open.None?
             case Failure(e) => call.pc == Failing(e, false) || (call.pc == Failed(e) && call.open.None?)
    ensures EndsAs(Run(Lone(t, call), Steps(0, [Rollback(0, true)])), (end, t))
  {
    var s := Lone(t, call);
    StepsNone([Rollback(0, true)]);
    assert [Rollback(0, true)] + [] == [Rollback(0, true)];
    RunCons(s, Rollback(0, true), []);
    RunNothing(Apply(s, Rollback(0, true)));
    hide Run, Steps;
    LoneUpdate(t, call, call.(pc := if end.Failure? then Failed(end.error) else call.pc, open := None));
  }

  lemma LoneReplay(t: Tables, q: Request, machine: Bytes)
    requires Inv(t) && 4 <= q.width <= 18 && MachineOf(q) == Some(machine)
    ensures EndsAs(Run(Lone(t, Call(q, Begun, 0, 1, None)), Steps(6, [Rollback(0, true)])), A.Alone(t, q))
  {
    hide *;
    var begun := Call(q, Begun, 0, 1, None);
    BegunCases(t, q, machine);
    A.AloneCases(t, q);
    NextCases(t, begun);
    StepTo(t, begun, 5);
    if Replay(t, q.key, machine).Some? {
      var n := Replay(t, q.key, machine).value;
      var b := t.bindings[Slot(q.key, n)];
      A.FoundReplay(t, q, Slot(q.key, n), machine);
      if b.prefix == q.prefix && b.width == q.width {
        var replayed := Call(q, Replayed(n), 0, 1, None);
        ReplayedStatement(t, q, n);
        NextCases(t, replayed);
        StepTo(t, replayed, 4);
        Ended(t, Call(q, Returned(n), 0, 1, None), 4, Success(n));
      } else {
        Ended(t, Call(q, Failing(InvalidAllocationPolicy, false), 0, 1, None), 5, Failure(InvalidAllocationPolicy));
      }
    } else {
      LoneUpsert(t, q, machine);
    }
  }

  lemma BegunCases(t: Tables, q: Request, machine: Bytes)
    requires MachineOf(q) == Some(machine)
    ensures match Replay(t, q.key, machine)
            case None => Statement(t, q, Begun, None) == (Absent, None)
            case Some(n) =>
              Slot(q.key, n) in t.bindings
              && Statement(t, q, Begun, None)
                 == (if t.bindings[Slot(q.key, n)].prefix == q.prefix && t.bindings[Slot(q.key, n)].width == q.width
                     then Replayed(n) else Failing(InvalidAllocationPolicy, false), None)
  {
    hide MachineOf, Replay;
  }

  lemma ReplayedStatement(t: Tables, q: Request, n: nat)
    ensures Statement(t, q, Replayed(n), None) == (Returned(n), None)
  {
  }

  lemma LoneUpsert(t: Tables, q: Request, machine: Bytes)
    requires Inv(t) && 4 <= q.width <= 18 && MachineOf(q) == Some(machine) && Replay(t, q.key, machine).None?
    ensures EndsAs(Run(Lone(t, Call(q, Absent, 0, 1, None)), Steps(5, [Rollback(0, true)])), A.Alone(t, q))
  {
    hide *;
    var absent := Call(q, Absent, 0, 1, None);
    A.AloneCases(t, q);
    NextCases(t, absent);
    StepTo(t, absent, 4);
    match Upsert(t, q) {
      case None => Ended(t, Call(q, Failing(AllocationConflict, false), 0, 1, None), 4, Failure(AllocationConflict));
      case Some(h) => LoneCounter(t, q, h, machine);
    }
  }

  lemma LoneCounter(t: Tables, q: Request, h: Held, machine: Bytes)
    requires Inv(t) && 4 <= q.width <= 18 && MachineOf(q) == Some(machine) && Replay(t, q.key, machine).None?
    requires Upsert(t, q) == Some(h)
    ensures EndsAs(Run(Lone(t, Call(q, Locked, 0, 1, Some(Open(q, h, Upserted)))), Steps(4, [Rollback(0, true)])), A.Alone(t, q))
  {
    hide *;
    var locked := Call(q, Locked, 0, 1, Some(Open(q, h, Upserted)));
    A.AloneCases(t, q);
    A.ContinuedCases(t, q, h, machine);
    LockedStatement(t, q, h);
    NextCases(t, locked);
    if h.row.prefix != q.prefix || h.row.width != q.width {
      StepTo(t, locked, 3);
      Ended(t, locked.(pc := Failing(InvalidAllocationPolicy, false)), 3, Failure(InvalidAllocationPolicy));
    } else if h.row.last >= Maximum(q.width) {
      StepTo(t, locked, 3);
      Ended(t, locked.(pc := Failing(SequenceOverflow, false)), 3, Failure(SequenceOverflow));
    } else {
      LoneFinish(t, q, h, h.row.last + 1, machine);
    }
  }

  lemma LockedStatement(t: Tables, q: Request, h: Held)
    requires q.width >= 0
    ensures h.row.prefix != q.prefix || h.row.width != q.width ==>
              Statement(t, q, Locked, Some(Open(q, h, Upserted)))
              == (Failing(InvalidAllocationPolicy, false), Some(Open(q, h, Upserted)))
    ensures h.row.prefix == q.prefix && h.row.width == q.width && h.row.last >= Maximum(q.width) ==>
              Statement(t, q, Locked, Some(Open(q, h, Upserted))) == (Failing(SequenceOverflow, false), Some(Open(q, h, Upserted)))
  {
    hide Maximum;
  }

  lemma LoneFinish(t: Tables, q: Request, h: Held, n: nat, machine: Bytes)
    requires Inv(t) && 4 <= q.width <= 18 && MachineOf(q) == Some(machine) && Replay(t, q.key, machine).None?
    requires Upsert(t, q) == Some(h) && Granted(h, q, n)
    ensures EndsAs(Run(Lone(t, Call(q, Locked, 0, 1, Some(Open(q, h, Upserted)))), Steps(4, [Rollback(0, true)])),
                   (Success(n), Committed(t, q, h, n, machine)))
  {
    hide *;
    MakePrepared(t, q, h, n, machine);
    PathIs(q, h, n, 3, 0, 0);
    PathIs(q, h, n, 6, 0, 0);
    StepsSplit(3, 1, [Rollback(0, true)]);
    PathRun(t, q, h, n, machine, 3, 3, 0, 0, Steps(1, [Rollback(0, true)]));
    var written, returned := Call(q, Written(n), 0, 1, Some(Open(q, h, Inserted(n)))), Call(q, Returned(n), 0, 1, None);
    StepsUnfold(1, [Rollback(0, true)]);
    RunCons(Lone(t, written), Step(0), Steps(0, [Rollback(0, true)]));
    CommitStep(t, q, h, n, machine, 0, 0);
    Ended(Committed(t, q, h, n, machine), returned, 0, Success(n));
  }

  /** A call whose MID was bound by another call after its replay read is refused at the insert, and does not
      try again. */
  lemma LateInsertEnds(s: State, c: nat, works: bool)
    requires c in s.calls && s.calls[c].pc.Stepped? && MachineOf(s.calls[c].q).Some?
    requires exists k: nat :: Bound(s.tables, s.calls[c].q.key, k, MachineOf(s.calls[c].q).value)
    ensures var next := Apply(Apply(s, Step(c)), Rollback(c, works));
            c in next.calls && next.calls[c].pc == Failed(AllocationConflict) && next.tables == s.tables
  {
    hide *;
    var call := s.calls[c];
    var k: nat :| Bound(s.tables, call.q.key, k, MachineOf(call.q).value);
    Refused(s.tables, call.q, call.pc.n, MachineOf(call.q).value, k);
    InsertRefused(s, c);
    RollsBack(Apply(s, Step(c)), c, works);
    RollbackCallIs(Apply(s, Step(c)), c, works);
  }

  lemma InsertRefused(s: State, c: nat)
    requires c in s.calls && s.calls[c].pc.Stepped? && MachineOf(s.calls[c].q).Some?
    requires !InsertFits(s.tables, s.calls[c].q, s.calls[c].pc.n, MachineOf(s.calls[c].q).value)
    ensures Apply(s, Step(c)) == s.(calls := s.calls[c := s.calls[c].(pc := Failing(AllocationConflict, false))])
  {
    hide InsertFits, MachineOf;
    StepsStatement(s, c);
  }

  lemma StepsStatement(s: State, c: nat)
    requires c in s.calls && s.calls[c].pc.Stepped?
    ensures var call := s.calls[c];
            var (pc, open) := Statement(s.tables, call.q, call.pc, call.open);
            Apply(s, Step(c)) == s.(calls := s.calls[c := call.(pc := pc, open := open)])
  {
    hide Statement, Flush, Blocked;
  }

  lemma RollsBack(s: State, c: nat, works: bool)
    requires c in s.calls
    ensures Apply(s, Rollback(c, works)) == RollbackCall(s, c, works)
  {
    hide RollbackCall;
  }

  lemma Refused(t: Tables, q: Request, n: nat, machine: Bytes, k: nat)
    requires Bound(t, q.key, k, machine)
    ensures !InsertFits(t, q, n, machine)
  {
    assert Slot(q.key, k) in t.bindings;
  }

  // ----- answers that are lost

  /** A call whose COMMIT takes effect but reports a transient error, and whose next attempt is undisturbed. */
  function LostCommitRun(q: Request, works: bool): seq<Action>
  {
    [Invoke(0, q)] + Steps(6, [Fault(0, true, true)] + ([Rollback(0, works)] + Steps(3, [])))
  }

  lemma LostCommitRunIs(q: Request, works: bool)
    ensures LostCommitRun(q, works)
            == [Invoke(0, q)] + Steps(6, [Fault(0, true, true)] + ([Rollback(0, works)] + Steps(3, [])))
  {
    hide Steps;
  }

  /** A COMMIT took effect but reported a transient error: the next attempt finds the number and returns it. */
  lemma LostCommitReplayed(t: Tables, q: Request, h: Held, n: nat, machine: Bytes, works: bool)
    requires q.width >= 0 && Prepared(t, q, h, n, machine)
    ensures Run(Start(t), LostCommitRun(q, works)) == Lone(Committed(t, q, h, n, machine), Call(q, Returned(n), 1, 2, None))
  {
    hide *;
    LostCommitRunIs(q, works);
    PreparedParts(t, q, h, n, machine);
    Invoked0(t, q);
    var lost := [Fault(0, true, true)] + ([Rollback(0, works)] + Steps(3, []));
    RunCons(Start(t), Invoke(0, q), Steps(6, lost));
    PathIs(q, h, n, 0, 0, 0);
    PathIs(q, h, n, 6, 0, 0);
    PathRun(t, q, h, n, machine, 0, 6, 0, 0, lost);
    var written := Call(q, Written(n), 0, 1, Some(Open(q, h, Inserted(n))));
    var after := Committed(t, q, h, n, machine);
    RunCons(Lone(t, written), Fault(0, true, true), [Rollback(0, works)] + Steps(3, []));
    LostCommit(t, q, h, n, machine, true, works);
    RunCons(Apply(Lone(t, written), Fault(0, true, true)), Rollback(0, works), Steps(3, []));
    Replayed3(after, q, n, machine, h, t);
  }

  lemma LostCommit(t: Tables, q: Request, h: Held, n: nat, machine: Bytes, transient: bool, works: bool)
    requires q.width >= 0 && MachineOf(q) == Some(machine)
    ensures var written := Call(q, Written(n), 0, 1, Some(Open(q, h, Inserted(n))));
            Apply(Apply(Lone(t, written), Fault(0, transient, true)), Rollback(0, works))
            == Lone(Committed(t, q, h, n, machine),
                    if transient then Call(q, Ready, 1, 1, None) else Call(q, Failed(AllocationConflict), 0, 1, None))
  {
    hide *;
    var written := Call(q, Written(n), 0, 1, Some(Open(q, h, Inserted(n))));
    FlushedInserted(t, q, h, n, machine);
    LostIs(t, written, transient);
    FlushCases(t, written.open);
    RolledBackLone(Committed(t, q, h, n, machine), Call(q, Failing(AllocationConflict, transient), 0, 1, None), works);
  }

  lemma LostIs(t: Tables, call: Call, transient: bool)
    requires call.pc.Written?
    ensures Apply(Lone(t, call), Fault(0, transient, true))
            == Lone(Flush(t, call.open), Call(call.q, Failing(AllocationConflict, transient), call.attempt, call.begun, None))
  {
    hide Flush;
    LoneUpdate(t, call, Call(call.q, Failing(AllocationConflict, transient), call.attempt, call.begun, None));
  }

  lemma RolledBackLone(t: Tables, call: Call, works: bool)
    requires call.pc.Failing? && call.open.None? && call.attempt == 0
    ensures Apply(Lone(t, call), Rollback(0, works))
            == Lone(t, if call.pc.transient then Call(call.q, Ready, 1, call.begun, None)
                       else Call(call.q, Failed(call.pc.e), 0, call.begun, None))
  {
    LoneUpdate(t, call, if call.pc.transient then Call(call.q, Ready, 1, call.begun, None)
                        else Call(call.q, Failed(call.pc.e), 0, call.begun, None));
  }

  lemma Replayed3(after: Tables, q: Request, n: nat, machine: Bytes, h: Held, t: Tables)
    requires q.width >= 0 && Prepared(t, q, h, n, machine) && after == Committed(t, q, h, n, machine)
    ensures Run(Lone(after, Call(q, Ready, 1, 1, None)), Steps(3, [])) == Lone(after, Call(q, Returned(n), 1, 2, None))
  {
    hide *;
    PreparedParts(t, q, h, n, machine);
    CommittedSettled(t, q, h, n, machine);
    CommitGrows(t, q, h, n, machine);
    InvUnique(after);
    A.SettledBound(after, q, n);
    ReplayIs(after, q.key, machine, n);
    BegunCases(after, q, machine);
    PolicyIs(after.bindings[Slot(q.key, n)].prefix, after.bindings[Slot(q.key, n)].width, q);
    ReplayedStatement(after, q, n);
    var ready, begun, replayed := Call(q, Ready, 1, 1, None), Call(q, Begun, 1, 2, None), Call(q, Replayed(n), 1, 2, None);
    NextCases(after, ready);
    NextCases(after, begun);
    NextCases(after, replayed);
    Moves(after, ready, 2);
    Moves(after, begun, 1);
    Moves(after, replayed, 0);
    StepsNone([]);
    RunNothing(Lone(after, Call(q, Returned(n), 1, 2, None)));
  }

  lemma PolicyIs(prefix: string, width: nat, q: Request)
    ensures SamePolicy(prefix, width, q) <==> prefix == q.prefix && width == q.width
  {
  }

  lemma Moves(t: Tables, call: Call, k: nat)
    requires !call.pc.Written? && (call.pc.Ready? || call.pc.Absent? ==> call.open.None?)
    ensures Run(Lone(t, call), Steps(k + 1, [])) == Run(Lone(t, LoneNext(t, call)), Steps(k, []))
  {
    hide *;
    StepsUnfold(k + 1, []);
    RunCons(Lone(t, call), Step(0), Steps(k, []));
    LoneUpdate(t, call, LoneNext(t, call));
    ApplyStep(Lone(t, call), 0);
    NextIs(t, call);
  }

  /** START TRANSACTION took effect but reported an error: what an earlier call left open is committed. */
  lemma LostStartFlushes(s: State, c: nat, transient: bool)
    requires c in s.calls && s.calls[c].pc.Ready? && s.calls[c].open.Some? && MachineOf(s.calls[c].q).Some?
    ensures var next := Apply(s, Fault(c, transient, true));
            next.tables == Flushed(s.tables, s.calls[c].open.value) && c in next.calls
            && next.calls[c] == s.calls[c].(pc := Failing(AllocationConflict, transient), open := None,
                                            begun := s.calls[c].begun + 1)
  {
    hide MachineOf, Flushed;
  }

  // ----- calls do not disturb each other

  /** Whatever the other connections do, and whatever is invoked, a running call goes on as it was. */
  lemma RunningUndisturbed(s: State, a: Action, c: nat)
    requires c in s.calls && !s.calls[c].pc.Returned? && !s.calls[c].pc.Failed?
    requires a.Reserve? || a.c != c || a.Invoke?
    ensures c in Apply(s, a).calls && Apply(s, a).calls[c] == s.calls[c]
  {
    hide Statement, Upsert, Flush, Blocked, MachineOf, Reservation, Invoked;
  }

  /** Where none runs, a call begins, with what an earlier one left open on the connection. */
  lemma InvokedExactly(s: State, c: nat, q: Request)
    requires c in s.calls ==> s.calls[c].pc.Returned? || s.calls[c].pc.Failed?
    ensures Apply(s, Invoke(c, q)).tables == s.tables
    ensures var call := Apply(s, Invoke(c, q)).calls[c];
            call.q == q && call.attempt == 0 && call.begun == 0
            && call.pc == (if q.width < 4 || q.width > 18 then Failed(InvalidAllocationPolicy) else Ready)
            && call.open == if c in s.calls then s.calls[c].open else None
  {
  }
}
