/** Any number of MySQL connections allocating at once under row locks: the replay read comes before
    the counter lock, a bounded retry sits on top, and a transaction whose ROLLBACK failed stays open
    until the connection's next START TRANSACTION commits what it wrote. */
module MySqlProtocol {
  import opened Wrappers
  import opened Errors
  import opened Tables
  import opened MySqlRows

  const ATTEMPTS := 5

  /** Where a call stands: the statement it executed last, or its outcome. */
  datatype Pc =
    | Ready | Begun | Absent | Replayed(n: nat) | Locked | Approved(n: nat) | Stepped(n: nat) | Written(n: nat)
    | Failing(e: Error, transient: bool) | Returned(n: nat) | Failed(e: Error)

  /** The latest call on a connection, and the rows its open transaction has written. */
  datatype Call = Call(q: Request, pc: Pc, attempt: nat, begun: nat, open: Option<Open>)

  /** The committed tables, and the connections. */
  datatype State = State(tables: Tables, calls: map<nat, Call>)

  datatype Action =
    | Invoke(c: nat, q: Request)                              // a call on a connection that has none running
    | Step(c: nat)                                            // the next statement succeeds
    | Fault(c: nat, transient: bool, applied: bool)           // it fails; it may take effect all the same
    | Rollback(c: nat, works: bool)
    | Reserve(reference: string, row: Mapping)

  function Start(t: Tables): State { State(t, map[]) }

  ghost predicate Blocked(s: State, c: nat, o: Open)
  {
    exists d :: d in s.calls && d != c && s.calls[d].open.Some? && !OpenApart(o, s.calls[d].open.value)
  }

  /** One statement of a transaction that reads rows, or writes them under a lock it has; START
      TRANSACTION, the upsert and COMMIT stand apart. */
  ghost function Statement(t: Tables, q: Request, pc: Pc, open: Option<Open>): (Pc, Option<Open>)
  {
    match pc
    case Begun =>
      (match MachineOf(q)
       case None => (Failing(AllocationConflict, false), open)
       case Some(machine) =>
         match Replay(t, q.key, machine)
         case None => (Absent, open)
         case Some(n) =>
           if SamePolicy(t.bindings[Slot(q.key, n)].prefix, t.bindings[Slot(q.key, n)].width, q) then (Replayed(n), open)
           else (Failing(InvalidAllocationPolicy, false), open))
    case Locked =>
      if open.None? then (Failing(InvalidAllocationPolicy, false), open)
      else
        var row := open.value.held.row;
        if !SamePolicy(row.prefix, row.width, q) then (Failing(InvalidAllocationPolicy, false), open)
        else if row.last >= Maximum(row.width) then (Failing(SequenceOverflow, false), open)
        else (Approved(row.last + 1), open)
    case Approved(n) =>
      if open.None? then (Failing(AllocationConflict, false), open)
      else (Stepped(n), Some(open.value.(done := Updated(n))))
    case Stepped(n) =>
      if open.None? || MachineOf(q).None? || !InsertFits(t, q, n, MachineOf(q).value)
      then (Failing(AllocationConflict, false), open)
      else (Written(n), Some(open.value.(done := Inserted(n))))
    case Replayed(n) => (Returned(n), open)
    case _ => (pc, open)
  }

  predicate Active(pc: Pc)
  {
    !pc.Failing? && !pc.Returned? && !pc.Failed?
  }

  /** START TRANSACTION, which commits whatever the connection still has open, and COMMIT. */
  predicate Permanent(call: Call)
  {
    call.pc.Written? || (call.pc.Ready? && MachineOf(call.q).Some?)
  }

  /** The transactions begun once START TRANSACTION took effect. */
  function Begins(call: Call): nat
  {
    if call.pc.Ready? then call.begun + 1 else call.begun
  }

  ghost function StepCall(s: State, c: nat): State
    requires c in s.calls
  {
    var call := s.calls[c];
    match call.pc
    case Ready =>
      if MachineOf(call.q).None? then s.(calls := s.calls[c := call.(pc := Failing(AllocationConflict, false))])
      else State(Flush(s.tables, call.open), s.calls[c := call.(pc := Begun, begun := call.begun + 1, open := None)])
    case Absent =>
      (match Upsert(s.tables, call.q)
       case None => s.(calls := s.calls[c := call.(pc := Failing(AllocationConflict, false))])
       case Some(h) =>
         var o := Open(call.q, h, Upserted);
         if Blocked(s, c, o) then s else s.(calls := s.calls[c := call.(pc := Locked, open := Some(o))]))
    case Written(n) =>
      State(Flush(s.tables, call.open), s.calls[c := call.(pc := Returned(n), open := None)])
    case _ =>
      var (pc, open) := Statement(s.tables, call.q, call.pc, call.open);
      s.(calls := s.calls[c := call.(pc := pc, open := open)])
  }

  function FaultCall(s: State, c: nat, transient: bool, applied: bool): State
    requires c in s.calls
  {
    var call := s.calls[c];
    var failing := Failing(AllocationConflict, transient);
    if !Active(call.pc) then s
    else if applied && Permanent(call) then
      State(Flush(s.tables, call.open), s.calls[c := call.(pc := failing, open := None, begun := Begins(call))])
    else s.(calls := s.calls[c := call.(pc := failing)])
  }

  /** ROLLBACK, whose errors are ignored, discards the rows if it works; a transient error starts over,
      at most four times. */
  function RollbackCall(s: State, c: nat, works: bool): State
    requires c in s.calls
  {
    var call := s.calls[c];
    var open := if works then None else call.open;
    if !call.pc.Failing? then s
    else if call.pc.transient && call.attempt < ATTEMPTS - 1 then
      s.(calls := s.calls[c := call.(pc := Ready, attempt := call.attempt + 1, open := open)])
    else s.(calls := s.calls[c := call.(pc := Failed(call.pc.e), open := open)])
  }

  /** A call; the connection keeps what an earlier one left open. */
  function Invoked(s: State, c: nat, q: Request): Call
  {
    Call(q, if 4 <= q.width <= 18 then Ready else Failed(InvalidAllocationPolicy), 0, 0,
         if c in s.calls then s.calls[c].open else None)
  }

  ghost function Apply(s: State, a: Action): State
  {
    match a
    case Invoke(c, q) =>
      if c in s.calls && !s.calls[c].pc.Returned? && !s.calls[c].pc.Failed? then s
      else s.(calls := s.calls[c := Invoked(s, c, q)])
    case Reserve(reference, row) => s.(tables := Reservation(s.tables, reference, row).1)
    case Step(c) => if c in s.calls then StepCall(s, c) else s
    case Fault(c, transient, applied) => if c in s.calls then FaultCall(s, c, transient, applied) else s
    case Rollback(c, works) => if c in s.calls then RollbackCall(s, c, works) else s
  }

  ghost function Run(s: State, actions: seq<Action>): State
    decreases |actions|
  {
    if actions == [] then s else Run(Apply(s, actions[0]), actions[1..])
  }

  // ----- the invariant

  ghost predicate Stage(t: Tables, q: Request, pc: Pc, open: Option<Open>)
  {
    match pc
    case Begun => open.None?
    case Absent => open.None?
    case Replayed(n) => open.None? && Settled(t, q, n)
    case Locked => open.Some? && open.value.q == q && open.value.done == Upserted
    case Approved(n) => open.Some? && open.value.q == q && open.value.done == Upserted && Granted(open.value.held, q, n)
    case Stepped(n) => open.Some? && open.value.q == q && open.value.done == Updated(n)
    case Written(n) => open.Some? && open.value.q == q && open.value.done == Inserted(n)
    case Returned(n) => open.None? && Settled(t, q, n)
    case _ => true
  }

  ghost predicate CallOk(t: Tables, call: Call)
  {
    (!call.pc.Failed? ==> 4 <= call.q.width <= 18) && Stage(t, call.q, call.pc, call.open)
    && (call.open.Some? ==> OpenOk(t, call.open.value))
    && call.attempt < ATTEMPTS && call.begun <= call.attempt + 1 && (call.pc.Ready? ==> call.begun <= call.attempt)
  }

  ghost predicate LocksApart(s: State)
  {
    forall c, d :: c in s.calls && d in s.calls && c != d && s.calls[c].open.Some? && s.calls[d].open.Some? ==>
      OpenApart(s.calls[c].open.value, s.calls[d].open.value)
  }

  ghost predicate CallsOk(s: State)
  {
    forall c :: c in s.calls ==> CallOk(s.tables, s.calls[c])
  }

  ghost predicate Invariant(s: State)
  {
    Inv(s.tables) && CallsOk(s) && LocksApart(s)
  }

  lemma StartInvariant(t: Tables)
    requires Inv(t)
    ensures Invariant(Start(t))
  {
    hide Inv;
  }

  // ----- changes to one connection

  lemma InvariantParts(s: State, c: nat)
    requires Invariant(s)
    ensures Inv(s.tables) && LocksApart(s) && CallsOk(s)
    ensures c in s.calls ==> CallOk(s.tables, s.calls[c])
    ensures c in s.calls && s.calls[c].open.Some? ==> OpenOk(s.tables, s.calls[c].open.value)
  {
    hide Inv, LocksApart, OpenOk, Stage;
  }

  lemma HoldersApart(s: State, c: nat, d: nat)
    requires Invariant(s) && c in s.calls && d in s.calls && c != d && s.calls[c].open.Some? && s.calls[d].open.Some?
    ensures OpenApart(s.calls[c].open.value, s.calls[d].open.value)
  {
    hide Inv, CallsOk, OpenApart;
  }

  lemma MakeInvariant(s: State)
    requires Inv(s.tables)
    requires forall c :: c in s.calls ==> CallOk(s.tables, s.calls[c])
    requires forall i, j :: i in s.calls && j in s.calls && i != j && s.calls[i].open.Some? && s.calls[j].open.Some? ==>
               OpenApart(s.calls[i].open.value, s.calls[j].open.value)
    ensures Invariant(s)
  {
    hide Inv, CallOk, OpenApart;
  }

  lemma NewApart(s: State, c: nat, o: Open, d: nat)
    requires Invariant(s) && d in s.calls && d != c && s.calls[d].open.Some?
    requires (c in s.calls && s.calls[c].open.Some? && SameRows(o, s.calls[c].open.value)) || !Blocked(s, c, o)
    ensures OpenApart(o, s.calls[d].open.value) && OpenApart(s.calls[d].open.value, o)
  {
    if c in s.calls && s.calls[c].open.Some? && SameRows(o, s.calls[c].open.value) {
      HoldersApart(s, c, d);
      OpenApartIs(o, s.calls[d].open.value);
      OpenApartIs(s.calls[c].open.value, s.calls[d].open.value);
    }
    hide Invariant, Apart;
    OpenApartIs(o, s.calls[d].open.value);
  }

  /** The same locked row, however far it is written. */
  predicate SameRows(o: Open, p: Open)
  {
    o.q == p.q && o.held == p.held
  }

  /** A change to one connection only. */
  lemma ChangeCall(s: State, c: nat, call: Call)
    requires Invariant(s) && CallOk(s.tables, call)
    requires call.open.Some? ==>
               (c in s.calls && s.calls[c].open.Some? && SameRows(call.open.value, s.calls[c].open.value))
               || !Blocked(s, c, call.open.value)
    ensures Invariant(s.(calls := s.calls[c := call]))
  {
    hide *;
    var t := s.(calls := s.calls[c := call]);
    InvariantParts(s, c);
    forall d | d in t.calls ensures CallOk(t.tables, t.calls[d]) {
      InvariantParts(s, d);
    }
    forall i, j | i in t.calls && j in t.calls && i != j && t.calls[i].open.Some? && t.calls[j].open.Some?
      ensures OpenApart(t.calls[i].open.value, t.calls[j].open.value)
    {
      if i == c {
        NewApart(s, c, call.open.value, j);
      } else if j == c {
        NewApart(s, c, call.open.value, i);
      } else {
        HoldersApart(s, i, j);
      }
    }
    MakeInvariant(t);
  }

  /** The rows of one connection are committed: it releases its locks, the others keep their views. */
  lemma FlushCall(s: State, c: nat, call: Call)
    requires Invariant(s) && c in s.calls && s.calls[c].open.Some?
    requires call.open.None? && CallOk(Flushed(s.tables, s.calls[c].open.value), call)
    ensures Invariant(State(Flushed(s.tables, s.calls[c].open.value), s.calls[c := call]))
    ensures Ascended(s.tables, Flushed(s.tables, s.calls[c].open.value))
  {
    hide *;
    var o := s.calls[c].open.value;
    var after := Flushed(s.tables, o);
    var t := State(after, s.calls[c := call]);
    InvariantParts(s, c);
    FlushGrows(s.tables, o);
    KeptBindings(s.tables, after);
    InvUnique(s.tables);
    forall d | d in t.calls ensures CallOk(after, t.calls[d]) {
      if d != c {
        InvariantParts(s, d);
        if s.calls[d].open.Some? {
          HoldersApart(s, d, c);
          OpenStable(s.tables, s.calls[d].open.value, o);
        }
        OtherCall(s.tables, after, s.calls[d]);
      }
    }
    forall i, j | i in t.calls && j in t.calls && i != j && t.calls[i].open.Some? && t.calls[j].open.Some?
      ensures OpenApart(t.calls[i].open.value, t.calls[j].open.value)
    {
      HoldersApart(s, i, j);
    }
    MakeInvariant(t);
  }

  lemma KeptBindings(a: Tables, b: Tables)
    requires Ascended(a, b)
    ensures BindingsKept(a, b) && ReferencesKept(a, b)
  {
    hide ReferencesKept, BindingsKept, Ascending;
  }

  lemma OtherCall(t: Tables, after: Tables, call: Call)
    requires CallOk(t, call) && BindingsKept(t, after)
    requires call.open.Some? ==> OpenOk(after, call.open.value)
    ensures CallOk(after, call)
  {
    if call.pc.Returned? || call.pc.Replayed? { SettledForever(t, after, call.q, call.pc.n); }
    hide OpenOk, Settled, BindingsKept, Granted;
  }

  // ----- one statement of one call

  lemma BegunOk(t: Tables, call: Call)
    requires CallOk(t, call) && call.pc.Begun?
    ensures var (pc, open) := Statement(t, call.q, Begun, call.open); CallOk(t, call.(pc := pc, open := open))
  {
    hide Inv, OpenOk, Granted, MachineOf, Replay;
  }

  lemma LockedOk(t: Tables, call: Call)
    requires CallOk(t, call) && call.pc.Locked?
    ensures var (pc, open) := Statement(t, call.q, Locked, call.open);
            CallOk(t, call.(pc := pc, open := open)) && open == call.open
  {
    hide Inv, OpenOk, MachineOf, Replay, Maximum, Settled;
  }

  lemma ApprovedOk(t: Tables, call: Call, n: nat)
    requires CallOk(t, call) && call.pc == Approved(n)
    ensures var (pc, open) := Statement(t, call.q, Approved(n), call.open);
            CallOk(t, call.(pc := pc, open := open)) && open.Some? && SameRows(open.value, call.open.value)
  {
    hide Inv, HeldOk, MachineOf, Replay, Granted, Settled;
  }

  lemma SteppedOk(t: Tables, call: Call, n: nat)
    requires Inv(t) && CallOk(t, call) && call.pc == Stepped(n)
    ensures var (pc, open) := Statement(t, call.q, Stepped(n), call.open);
            CallOk(t, call.(pc := pc, open := open)) && open.Some? && SameRows(open.value, call.open.value)
  {
    hide *;
    SteppedHeld(t, call, n);
    SelfRows(call);
    SteppedCases(t, call.q, n, call.open.value);
    if MachineOf(call.q).Some? && InsertFits(t, call.q, n, MachineOf(call.q).value) {
      InsertFitsExactly(t, call.q, call.open.value.held, n, MachineOf(call.q).value);
      MakeOpenOk(t, call.open.value.(done := Inserted(n)));
      WrittenOk(t, call, n);
    } else {
      ActiveIs(call.pc);
      FailingOk(t, call, false);
    }
  }

  lemma SteppedCases(t: Tables, q: Request, n: nat, o: Open)
    ensures Statement(t, q, Stepped(n), Some(o))
            == if MachineOf(q).Some? && InsertFits(t, q, n, MachineOf(q).value)
               then (Written(n), Some(o.(done := Inserted(n)))) else (Failing(AllocationConflict, false), Some(o))
  {
    hide MachineOf, InsertFits;
  }

  lemma WrittenOk(t: Tables, call: Call, n: nat)
    requires CallOk(t, call) && call.pc == Stepped(n) && call.open.Some? && call.open.value.q == call.q
    requires OpenOk(t, call.open.value.(done := Inserted(n)))
    ensures CallOk(t, call.(pc := Written(n), open := Some(call.open.value.(done := Inserted(n)))))
    ensures SameRows(call.open.value.(done := Inserted(n)), call.open.value)
  {
    hide OpenOk;
  }

  lemma SteppedHeld(t: Tables, call: Call, n: nat)
    requires CallOk(t, call) && call.pc == Stepped(n)
    ensures call.open.Some? && call.open.value.q == call.q && 4 <= call.q.width <= 18
    ensures HeldOk(t, call.q, call.open.value.held) && Granted(call.open.value.held, call.q, n)
  {
    hide HeldOk, Granted;
  }

  lemma ReplayedOk(t: Tables, call: Call, n: nat)
    requires CallOk(t, call) && call.pc == Replayed(n)
    ensures var (pc, open) := Statement(t, call.q, Replayed(n), call.open); CallOk(t, call.(pc := pc, open := open))
  {
    hide MachineOf, Settled, OpenOk;
  }

  lemma StatementOk(t: Tables, call: Call)
    requires Inv(t) && CallOk(t, call) && Active(call.pc) && !call.pc.Absent? && !call.pc.Written? && !call.pc.Ready?
    ensures var (pc, open) := Statement(t, call.q, call.pc, call.open);
            CallOk(t, call.(pc := pc, open := open))
            && (open.Some? ==> call.open.Some? && SameRows(open.value, call.open.value))
  {
    match call.pc {
      case Begun => BegunOk(t, call); BegunOpen(t, call);
      case Locked => LockedOk(t, call);
      case Approved(n) => ApprovedOk(t, call, n); OpenBefore(t, call);
      case Stepped(n) => SteppedOk(t, call, n); OpenBefore(t, call);
      case Replayed(n) => ReplayedOk(t, call, n); BegunOpen(t, call);
    }
    hide CallOk, Statement, Inv;
  }

  lemma OpenBefore(t: Tables, call: Call)
    requires CallOk(t, call) && (call.pc.Approved? || call.pc.Stepped?)
    ensures call.open.Some?
  {
    hide OpenOk, Granted;
  }

  lemma BegunOpen(t: Tables, call: Call)
    requires CallOk(t, call) && (call.pc.Begun? || call.pc.Replayed?)
    ensures call.open.None? && Statement(t, call.q, call.pc, call.open).1.None?
  {
    hide OpenOk, Settled, MachineOf, Replay, SamePolicy;
  }

  lemma AbsentOk(t: Tables, call: Call)
    requires CallOk(t, call) && call.pc.Absent?
    ensures CallOk(t, call.(pc := Failing(AllocationConflict, false)))
    ensures forall h :: HeldOk(t, call.q, h) ==> CallOk(t, call.(pc := Locked, open := Some(Open(call.q, h, Upserted))))
  {
    hide HeldOk;
  }

  /** After START TRANSACTION or COMMIT took effect, with an answer or without. */
  lemma PermanentOk(t: Tables, call: Call)
    requires CallOk(t, call) && Permanent(call)
    ensures var after := Flush(t, call.open);
            (forall transient :: CallOk(after, call.(pc := Failing(AllocationConflict, transient), open := None, begun := Begins(call))))
            && (call.pc.Ready? ==> CallOk(after, call.(pc := Begun, begun := call.begun + 1, open := None)))
            && (call.pc.Written? ==>
                  CallOk(after, call.(pc := Returned(call.pc.n), open := None)) && call.open.Some?)
  {
    hide *;
    PermanentIs(call);
    var after := Flush(t, call.open);
    forall transient ensures CallOk(after, call.(pc := Failing(AllocationConflict, transient), open := None, begun := Begins(call))) {
      ClearedFailing(t, after, call, transient);
    }
    if call.pc.Ready? {
      ClearedBegun(t, after, call);
    } else {
      WrittenFlushed(t, call);
      FlushCases(t, call.open);
      CommittedSettled(t, call.q, call.open.value.held, call.pc.n, MachineOf(call.q).value);
      ClearedReturned(t, after, call);
    }
  }

  lemma ClearedFailing(t: Tables, after: Tables, call: Call, transient: bool)
    requires CallOk(t, call) && (call.pc.Ready? || call.pc.Written?)
    ensures CallOk(after, call.(pc := Failing(AllocationConflict, transient), open := None, begun := Begins(call)))
  {
    hide OpenOk, Settled, Granted;
  }

  lemma ClearedBegun(t: Tables, after: Tables, call: Call)
    requires CallOk(t, call) && call.pc.Ready?
    ensures CallOk(after, call.(pc := Begun, begun := call.begun + 1, open := None))
  {
    hide OpenOk, Settled, Granted;
  }

  lemma ClearedReturned(t: Tables, after: Tables, call: Call)
    requires CallOk(t, call) && call.pc.Written? && Settled(after, call.q, call.pc.n)
    ensures CallOk(after, call.(pc := Returned(call.pc.n), open := None))
  {
    hide OpenOk, Settled, Granted;
  }

  lemma WrittenFlushed(t: Tables, call: Call)
    requires CallOk(t, call) && call.pc.Written?
    ensures call.open.Some? && call.open.value.q == call.q && call.open.value.done == Inserted(call.pc.n)
    ensures 4 <= call.q.width <= 18 && MachineOf(call.q).Some?
    ensures Flushed(t, call.open.value)
            == Committed(t, call.q, call.open.value.held, call.pc.n, MachineOf(call.q).value)
  {
    hide HeldOk, Granted, MachineOf, Replay, Committed;
  }

  lemma FailingOk(t: Tables, call: Call, transient: bool)
    requires CallOk(t, call) && Active(call.pc)
    ensures CallOk(t, call.(pc := Failing(AllocationConflict, transient)))
  {
    hide OpenOk, Settled;
  }

  lemma RolledBackOk(t: Tables, call: Call, open: Option<Open>)
    requires CallOk(t, call) && call.pc.Failing? && (open.None? || open == call.open)
    ensures CallOk(t, call.(pc := Failed(call.pc.e), open := open))
    ensures call.attempt < ATTEMPTS - 1 ==> CallOk(t, call.(pc := Ready, attempt := call.attempt + 1, open := open))
  {
    hide OpenOk, Settled;
  }

  lemma InvokedOk(s: State, c: nat, q: Request)
    requires c in s.calls ==> CallOk(s.tables, s.calls[c])
    ensures CallOk(s.tables, Invoked(s, c, q))
  {
    hide OpenOk, Settled;
  }

  // ----- runs

  lemma StepCallIs(s: State, c: nat)
    requires c in s.calls
    ensures var call := s.calls[c];
            var next := Statement(s.tables, call.q, call.pc, call.open);
            var h := Upsert(s.tables, call.q);
            StepCall(s, c)
            == if call.pc.Ready? then
                 if MachineOf(call.q).None? then s.(calls := s.calls[c := call.(pc := Failing(AllocationConflict, false))])
                 else State(Flush(s.tables, call.open), s.calls[c := call.(pc := Begun, begun := call.begun + 1, open := None)])
               else if call.pc.Absent? then
                 if h.None? then s.(calls := s.calls[c := call.(pc := Failing(AllocationConflict, false))])
                 else if Blocked(s, c, Open(call.q, h.value, Upserted)) then s
                 else s.(calls := s.calls[c := call.(pc := Locked, open := Some(Open(call.q, h.value, Upserted)))])
               else if call.pc.Written? then
                 State(Flush(s.tables, call.open), s.calls[c := call.(pc := Returned(call.pc.n), open := None)])
               else s.(calls := s.calls[c := call.(pc := next.0, open := next.1)])
    ensures !Active(s.calls[c].pc) ==> StepCall(s, c) == s.(calls := s.calls[c := s.calls[c]])
  {
    hide Upsert, Blocked, Flush, MachineOf, Replay, SamePolicy, Maximum, InsertFits;
  }

  lemma FlushCases(t: Tables, open: Option<Open>)
    ensures Flush(t, open) == if open.None? then t else Flushed(t, open.value)
  {
    hide Flushed;
  }

  /** START TRANSACTION or COMMIT took effect. */
  lemma PermanentCall(s: State, c: nat, call: Call)
    requires Invariant(s) && c in s.calls && call.open.None?
    requires CallOk(Flush(s.tables, s.calls[c].open), call)
    ensures Invariant(State(Flush(s.tables, s.calls[c].open), s.calls[c := call]))
    ensures Ascended(s.tables, Flush(s.tables, s.calls[c].open))
  {
    hide *;
    FlushCases(s.tables, s.calls[c].open);
    AscendedReflexive(s.tables);
    if s.calls[c].open.Some? { FlushCall(s, c, call); } else { ChangeCall(s, c, call); }
  }

  lemma StepCallInvariant(s: State, c: nat)
    requires Invariant(s) && c in s.calls
    ensures Invariant(StepCall(s, c)) && Ascended(s.tables, StepCall(s, c).tables)
  {
    hide *;
    var call := s.calls[c];
    InvariantParts(s, c);
    AscendedReflexive(s.tables);
    StepCallIs(s, c);
    PermanentIs(call);
    SelfRows(call);
    if call.pc.Ready? {
      if MachineOf(call.q).None? {
        ActiveIs(call.pc);
        FailingOk(s.tables, call, false);
        ChangeCall(s, c, call.(pc := Failing(AllocationConflict, false)));
      } else {
        PermanentOk(s.tables, call);
        PermanentCall(s, c, call.(pc := Begun, begun := call.begun + 1, open := None));
      }
    } else if call.pc.Absent? {
      UpsertOk(s.tables, call.q);
      var h := Upsert(s.tables, call.q);
      AbsentOk(s.tables, call);
      if h.None? {
        ChangeCall(s, c, call.(pc := Failing(AllocationConflict, false)));
      } else if !Blocked(s, c, Open(call.q, h.value, Upserted)) {
        ChangeCall(s, c, call.(pc := Locked, open := Some(Open(call.q, h.value, Upserted))));
      }
    } else if call.pc.Written? {
      PermanentOk(s.tables, call);
      PermanentCall(s, c, call.(pc := Returned(call.pc.n), open := None));
    } else if Active(call.pc) {
      StatementOk(s.tables, call);
      var (pc, open) := Statement(s.tables, call.q, call.pc, call.open);
      ChangeCall(s, c, call.(pc := pc, open := open));
    } else {
      ChangeCall(s, c, call);
    }
  }

  lemma PermanentIs(call: Call)
    ensures Permanent(call) <==> call.pc.Written? || (call.pc.Ready? && MachineOf(call.q).Some?)
    ensures Permanent(call) ==> Active(call.pc)
  {
    hide MachineOf;
  }

  lemma ActiveIs(pc: Pc)
    ensures Active(pc) <==> !pc.Failing? && !pc.Returned? && !pc.Failed?
  {
  }

  lemma SelfRows(call: Call)
    ensures call.open.Some? ==> SameRows(call.open.value, call.open.value)
  {
  }

  lemma FaultCallIs(s: State, c: nat, transient: bool, applied: bool)
    requires c in s.calls
    ensures var call := s.calls[c];
            var failing := Failing(AllocationConflict, transient);
            FaultCall(s, c, transient, applied)
            == if !Active(call.pc) then s
               else if applied && Permanent(call) then
                 State(Flush(s.tables, call.open), s.calls[c := call.(pc := failing, open := None, begun := Begins(call))])
               else s.(calls := s.calls[c := call.(pc := failing)])
  {
    hide Flush, Permanent, Active, Begins;
  }

  lemma FaultCallInvariant(s: State, c: nat, transient: bool, applied: bool)
    requires Invariant(s) && c in s.calls
    ensures Invariant(FaultCall(s, c, transient, applied))
    ensures Ascended(s.tables, FaultCall(s, c, transient, applied).tables)
  {
    hide *;
    var call := s.calls[c];
    InvariantParts(s, c);
    AscendedReflexive(s.tables);
    FaultCallIs(s, c, transient, applied);
    SelfRows(call);
    if Active(call.pc) {
      if applied && Permanent(call) {
        PermanentOk(s.tables, call);
        PermanentCall(s, c, call.(pc := Failing(AllocationConflict, transient), open := None, begun := Begins(call)));
      } else {
        FailingOk(s.tables, call, transient);
        ChangeCall(s, c, call.(pc := Failing(AllocationConflict, transient)));
      }
    }
  }

  lemma RollbackCallIs(s: State, c: nat, works: bool)
    requires c in s.calls
    ensures var call := s.calls[c];
            var open := if works then None else call.open;
            RollbackCall(s, c, works)
            == if !call.pc.Failing? then s
               else if call.pc.transient && call.attempt < ATTEMPTS - 1 then
                 s.(calls := s.calls[c := call.(pc := Ready, attempt := call.attempt + 1, open := open)])
               else s.(calls := s.calls[c := call.(pc := Failed(call.pc.e), open := open)])
  {
  }

  lemma RollbackCallInvariant(s: State, c: nat, works: bool)
    requires Invariant(s) && c in s.calls
    ensures Invariant(RollbackCall(s, c, works)) && RollbackCall(s, c, works).tables == s.tables
  {
    hide *;
    var call := s.calls[c];
    InvariantParts(s, c);
    RollbackCallIs(s, c, works);
    SelfRows(call);
    if call.pc.Failing? {
      var open := if works then None else call.open;
      RolledBackOk(s.tables, call, open);
      if call.pc.transient && call.attempt < ATTEMPTS - 1 {
        ChangeCall(s, c, call.(pc := Ready, attempt := call.attempt + 1, open := open));
      } else {
        ChangeCall(s, c, call.(pc := Failed(call.pc.e), open := open));
      }
    }
  }

  lemma ReserveInvariant(s: State, reference: string, row: Mapping)
    requires Invariant(s)
    ensures Invariant(s.(tables := Reservation(s.tables, reference, row).1))
    ensures PrefixGrown(s.tables, Reservation(s.tables, reference, row).1)
  {
    hide *;
    var after := Reservation(s.tables, reference, row).1;
    InvariantParts(s, 0);
    ReservationKeeps(s.tables, reference, row);
    ReservationShape(s.tables, reference, row);
    forall c | c in s.calls ensures CallOk(after, s.calls[c]) {
      InvariantParts(s, c);
      SameRowsOk(s.tables, after, s.calls[c]);
    }
    forall i, j | i in s.calls && j in s.calls && i != j && s.calls[i].open.Some? && s.calls[j].open.Some?
      ensures OpenApart(s.calls[i].open.value, s.calls[j].open.value)
    {
      HoldersApart(s, i, j);
    }
    MakeInvariant(s.(tables := after));
    InvUnique(s.tables);
    SameRowsGrown(s.tables, after);
  }

  lemma SameRowsOk(a: Tables, b: Tables, call: Call)
    requires CallOk(a, call) && a.counters == b.counters && a.bindings == b.bindings
    ensures CallOk(b, call)
  {
    if call.open.Some? { SameRowsOpen(a, b, call.open.value); }
    hide OpenOk, Granted, MachineOf;
  }

  lemma SameRowsOpen(a: Tables, b: Tables, o: Open)
    requires OpenOk(a, o) && a.counters == b.counters && a.bindings == b.bindings
    ensures OpenOk(b, o)
  {
    if o.done.Inserted? { SameReplay(a, b, o.q.key, MachineOf(o.q).value); }
    hide MachineOf, Replay, Granted, CounterRowOk;
  }

  lemma SameReplay(a: Tables, b: Tables, key: Key, machine: Bytes)
    requires a.bindings == b.bindings && Replay(a, key, machine).None?
    ensures Replay(b, key, machine).None?
  {
    hide Replay;
    assert forall k: nat :: Bound(b, key, k, machine) ==> Bound(a, key, k, machine);
  }

  lemma SameRowsGrown(a: Tables, b: Tables)
    requires PrefixesUnique(a) && a.counters == b.counters && a.bindings == b.bindings && ReferencesKept(a, b)
    ensures PrefixGrown(a, b)
  {
    hide *;
    forall p, scope ensures Ascending(a, b, p, scope) && NumbersGrown(a, b, p, scope) {
      SamePrefixLast(a, b, p, scope);
      forall n: nat ensures Numbered(a, p, scope, n) <==> Numbered(b, p, scope, n) {
        SameNumbered(a, b, p, scope, n);
      }
      AscendingIs(a, b, p, scope);
    }
    SameKept(a, b);
    MakePrefixGrown(a, b);
  }

  lemma SameKept(a: Tables, b: Tables)
    requires a.bindings == b.bindings
    ensures BindingsKept(a, b)
  {
  }

  lemma InvokeInvariant(s: State, c: nat, q: Request)
    requires Invariant(s)
    ensures Invariant(s.(calls := s.calls[c := Invoked(s, c, q)]))
  {
    InvariantParts(s, c);
    InvokedOk(s, c, q);
    InvokedOpen(s, c, q);
    hide Invariant, CallOk, Invoked, SameRows, Blocked;
    ChangeCall(s, c, Invoked(s, c, q));
  }

  lemma InvokedOpen(s: State, c: nat, q: Request)
    ensures Invoked(s, c, q).open.Some? ==>
              c in s.calls && s.calls[c].open.Some? && SameRows(Invoked(s, c, q).open.value, s.calls[c].open.value)
  {
  }

  lemma StepInvariant(s: State, a: Action)
    requires Invariant(s)
    ensures Invariant(Apply(s, a)) && Ascended(s.tables, Apply(s, a).tables)
  {
    AscendedReflexive(s.tables);
    hide Invariant, Ascended, StepCall, FaultCall, RollbackCall, Reservation, Invoked;
    match a {
      case Invoke(c, q) => InvokeInvariant(s, c, q);
      case Reserve(reference, row) =>
        ReserveInvariant(s, reference, row);
        GrownParts(s.tables, Reservation(s.tables, reference, row).1);
      case Step(c) => if c in s.calls { StepCallInvariant(s, c); }
      case Fault(c, transient, applied) => if c in s.calls { FaultCallInvariant(s, c, transient, applied); }
      case Rollback(c, works) => if c in s.calls { RollbackCallInvariant(s, c, works); }
    }
  }

  /** Over every interleaving of any number of transactions, with faults, lost answers, and rollbacks that
      work or fail anywhere: the keys hold, no row is lost, and new numbers lie between the old and the
      new counter of their prefix and scope. */
  lemma {:induction false} RunInvariant(s: State, actions: seq<Action>)
    requires Invariant(s)
    ensures Invariant(Run(s, actions)) && Ascended(s.tables, Run(s, actions).tables)
    decreases |actions|
  {
    hide Invariant, Ascended, Apply;
    if actions == [] {
      AscendedReflexive(s.tables);
    } else {
      var next := Apply(s, actions[0]);
      StepInvariant(s, actions[0]);
      RunInvariant(next, actions[1..]);
      AscendedTransitive(s.tables, next.tables, Run(next, actions[1..]).tables);
    }
  }

  /** The rows an action makes permanent: those of a call that commits, or those a failed ROLLBACK left
      to the START TRANSACTION after it. */
  function MadePermanent(s: State, a: Action): Option<Open>
  {
    if a.Reserve? || a.c !in s.calls || !Permanent(s.calls[a.c]) then None
    else if a.Step? || (a.Fault? && a.applied) then s.calls[a.c].open
    else None
  }

  /** The committed tables change only by a reservation, or by rows made permanent. */
  lemma TablesAfter(s: State, a: Action)
    ensures Apply(s, a).tables
            == if a.Reserve? then Reservation(s.tables, a.reference, a.row).1 else Flush(s.tables, MadePermanent(s, a))
  {
    if !a.Reserve? && a.c in s.calls {
      StepCallIs(s, a.c);
      PermanentIs(s.calls[a.c]);
      FlushCases(s.tables, None);
    }
    hide StepCall, Upsert, Blocked, MachineOf, Statement, Reservation, Flush, Permanent;
  }

  lemma MadePermanentOk(s: State, a: Action)
    requires Invariant(s) && MadePermanent(s, a).Some?
    ensures OpenOk(s.tables, MadePermanent(s, a).value)
  {
    InvariantParts(s, a.c);
    hide Invariant, OpenOk, Permanent;
  }

  // ----- what calls return

  /** No call ever opens more than five transactions. */
  lemma FiveTransactions(s: State, actions: seq<Action>, c: nat)
    requires Invariant(s) && c in Run(s, actions).calls
    ensures Run(s, actions).calls[c].begun <= 5
  {
    hide *;
    RunInvariant(s, actions);
    InvariantParts(Run(s, actions), c);
    BegunBound(Run(s, actions).tables, Run(s, actions).calls[c]);
  }

  lemma BegunBound(t: Tables, call: Call)
    requires CallOk(t, call)
    ensures call.begun <= 5
  {
    hide Stage, OpenOk;
  }

  /** A returned number is bound to the requested MID then and in every later state; two returned
      calls for one key have the same number exactly when they asked for the same MID. */
  lemma ReturnsAgree(s: State, actions: seq<Action>, c: nat, d: nat)
    requires Invariant(s) && c in s.calls && s.calls[c].pc.Returned?
    requires var t := Run(s, actions); d in t.calls && t.calls[d].pc.Returned? && t.calls[d].q.key == s.calls[c].q.key
    ensures Settled(Run(s, actions).tables, s.calls[c].q, s.calls[c].pc.n)
    ensures s.calls[c].pc.n == Run(s, actions).calls[d].pc.n
            <==> MachineOf(s.calls[c].q) == MachineOf(Run(s, actions).calls[d].q)
  {
    hide *;
    var t := Run(s, actions);
    RunInvariant(s, actions);
    InvariantParts(s, c);
    InvariantParts(t, d);
    ReturnedSettled(s.tables, s.calls[c]);
    ReturnedSettled(t.tables, t.calls[d]);
    KeptBindings(s.tables, t.tables);
    SettledForever(s.tables, t.tables, s.calls[c].q, s.calls[c].pc.n);
    InvUnique(t.tables);
    SettledAgree(t.tables, s.calls[c].q, s.calls[c].pc.n, t.calls[d].q, t.calls[d].pc.n);
  }

  lemma ReturnedSettled(t: Tables, call: Call)
    requires CallOk(t, call) && call.pc.Returned?
    ensures Settled(t, call.q, call.pc.n)
  {
    hide Settled, OpenOk;
  }

  /** Once bound — by a returned call, or by a COMMIT whose outcome was lost — the number is what the
      next transaction for that key and MID finds and returns; another prefix or width is refused. */
  lemma BoundReplays(t: Tables, q: Request, n: nat, machine: Bytes)
    requires Inv(t) && MachineOf(q) == Some(machine) && Bound(t, q.key, n, machine)
    ensures Statement(t, q, Begun, None)
            == (if SamePolicy(t.bindings[Slot(q.key, n)].prefix, t.bindings[Slot(q.key, n)].width, q) then Replayed(n)
                else Failing(InvalidAllocationPolicy, false), None)
  {
    hide CountersOk, PrefixesUnique, BindingsOk, MachineOf, Replay;
    ReplayIs(t, q.key, machine, n);
  }
}
