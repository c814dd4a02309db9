/** The MySQL adapter on one connection: the transaction statement by statement, the retry loop around
    it with its rollbacks, and the gate around both. */
module MySqlAdapter {
  import opened Wrappers
  import opened Errors
  import opened Tables
  import opened Gate
  import M = MySqlRows
  import C = MySqlConservation
  import A = SqliteAllocator

  datatype Statement =
    | StartTransaction | SelectBinding | UpsertCounter | SelectCounter | UpdateCounter | InsertBinding | Commit

  /** The statement that fails in one attempt; START TRANSACTION and COMMIT may take effect all the same. */
  datatype Fault = Fault(statement: Statement, transient: bool, applied: bool)

  /** What goes wrong in one attempt: a statement, and the ROLLBACK behind an error. */
  datatype Trouble = Trouble(fault: Option<Fault>, rollbackFails: bool)

  datatype Outcome = Value(n: nat) | Thrown(e: Error, transient: bool)

  predicate Fails(fault: Option<Fault>, statement: Statement)
  {
    fault.Some? && fault.value.statement == statement
  }

  // ----- an undisturbed transaction, in one step

  ghost function Alone(t: Tables, q: Request): (Result<nat, Error>, Tables)
  {
    match M.MachineOf(q)
    case None => (Failure(AllocationConflict), t)
    case Some(machine) =>
      match Replay(t, q.key, machine)
      case Some(n) =>
        if SamePolicy(t.bindings[Slot(q.key, n)].prefix, t.bindings[Slot(q.key, n)].width, q) then (Success(n), t)
        else (Failure(InvalidAllocationPolicy), t)
      case None =>
        match M.Upsert(t, q)
        case None => (Failure(AllocationConflict), t)
        case Some(h) => Continued(t, q, h, machine)
  }

  /** What follows the upsert. */
  function Continued(t: Tables, q: Request, h: M.Held, machine: Bytes): (Result<nat, Error>, Tables)
  {
    if !SamePolicy(h.row.prefix, h.row.width, q) then (Failure(InvalidAllocationPolicy), t)
    else if h.row.last >= Maximum(h.row.width) then (Failure(SequenceOverflow), t)
    else (Success(h.row.last + 1), M.Committed(t, q, h, h.row.last + 1, machine))
  }

  lemma AloneCases(t: Tables, q: Request)
    ensures M.MachineOf(q).None? ==> Alone(t, q) == (Failure(AllocationConflict), t)
    ensures M.MachineOf(q).Some? && Replay(t, q.key, M.MachineOf(q).value).Some? ==>
              var slot := Slot(q.key, Replay(t, q.key, M.MachineOf(q).value).value);
              slot in t.bindings && t.bindings[slot].machine == M.MachineOf(q).value
              && Alone(t, q) == (if SamePolicy(t.bindings[slot].prefix, t.bindings[slot].width, q) then Success(slot.sequence)
                                 else Failure(InvalidAllocationPolicy), t)
    ensures M.MachineOf(q).Some? && Replay(t, q.key, M.MachineOf(q).value).None? ==>
              Alone(t, q) == match M.Upsert(t, q)
                             case None => (Failure(AllocationConflict), t)
                             case Some(h) => Continued(t, q, h, M.MachineOf(q).value)
  {
    hide M.MachineOf, M.Upsert, Continued, Replay, SamePolicy;
  }

  lemma ContinuedCases(t: Tables, q: Request, h: M.Held, machine: Bytes)
    requires 4 <= q.width <= 18
    ensures h.row.prefix != q.prefix || h.row.width != q.width ==>
              Continued(t, q, h, machine) == (Failure(InvalidAllocationPolicy), t)
    ensures h.row.prefix == q.prefix && h.row.width == q.width ==>
              Continued(t, q, h, machine)
              == if h.row.last >= Maximum(q.width) then (Failure(SequenceOverflow), t)
                 else (Success(h.row.last + 1), M.Committed(t, q, h, h.row.last + 1, machine))
    ensures h.row.prefix == q.prefix && h.row.width == q.width && h.row.last < Maximum(q.width) ==>
              M.Granted(h, q, h.row.last + 1)
  {
    hide Maximum, M.Committed;
  }

  /** An undisturbed transaction keeps the keys, changes nothing or adds one binding with its counter
      step, and binds the number it returns to the MID. */
  lemma AloneKeeps(t: Tables, q: Request)
    requires Inv(t) && 4 <= q.width <= 18
    ensures var (result, after) := Alone(t, q);
            Inv(after) && M.PrefixGrown(t, after) && (result.Failure? ==> after == t)
            && (result.Success? ==> M.Settled(after, q, result.value))
  {
    hide *;
    M.AscendedReflexive(t);
    AloneCases(t, q);
    var bytes := M.MachineOf(q);
    if bytes.Some? {
      var machine := bytes.value;
      if Replay(t, q.key, machine).Some? {
        ReplaySettled(t, q, Slot(q.key, Replay(t, q.key, machine).value), machine);
      } else if M.Upsert(t, q).Some? {
        var h := M.Upsert(t, q).value;
        M.UpsertOk(t, q);
        ContinuedCases(t, q, h, machine);
        if h.row.prefix == q.prefix && h.row.width == q.width && h.row.last < Maximum(q.width) {
          M.CommitGrows(t, q, h, h.row.last + 1, machine);
          M.CommittedSettled(t, q, h, h.row.last + 1, machine);
        }
      }
    }
  }

  lemma ReplaySettled(t: Tables, q: Request, slot: Slot, machine: Bytes)
    requires slot in t.bindings && t.bindings[slot].machine == machine && slot.key == q.key
    requires M.MachineOf(q) == Some(machine) && 4 <= q.width <= 18
    ensures SamePolicy(t.bindings[slot].prefix, t.bindings[slot].width, q) ==> M.Settled(t, q, slot.sequence)
  {
    hide M.MachineOf;
  }

  /** After a success the same call replays: same number, same tables. */
  lemma AloneAgain(t: Tables, q: Request)
    requires Inv(t) && 4 <= q.width <= 18 && Alone(t, q).0.Success?
    ensures Alone(Alone(t, q).1, q) == Alone(t, q)
  {
    hide *;
    var (result, after) := Alone(t, q);
    AloneKeeps(t, q);
    SettledBound(after, q, result.value);
    AloneCases(after, q);
    M.InvUnique(after);
    ReplayIs(after, q.key, M.MachineOf(q).value, result.value);
  }

  lemma SettledBound(t: Tables, q: Request, n: nat)
    requires M.Settled(t, q, n)
    ensures M.MachineOf(q).Some? && Bound(t, q.key, n, M.MachineOf(q).value)
    ensures SamePolicy(t.bindings[Slot(q.key, n)].prefix, t.bindings[Slot(q.key, n)].width, q)
  {
    hide M.MachineOf;
  }

  lemma FoundReplay(t: Tables, q: Request, slot: Slot, machine: Bytes)
    requires Inv(t) && M.MachineOf(q) == Some(machine)
    requires slot in t.bindings && slot.key == q.key && t.bindings[slot].machine == machine
    ensures Alone(t, q) == (if t.bindings[slot].prefix == q.prefix && t.bindings[slot].width == q.width
                            then Success(slot.sequence) else Failure(InvalidAllocationPolicy), t)
  {
    hide M.MachineOf, Replay, CountersOk, PrefixesUnique, BindingsOk, MachinesUnique, M.Upsert, Continued;
    A.SlotIs(slot);
    ReplayIs(t, q.key, machine, slot.sequence);
  }

  lemma NotFound(t: Tables, q: Request, machine: Bytes)
    requires M.MachineOf(q) == Some(machine)
    requires forall slot :: slot in t.bindings && slot.key == q.key ==> t.bindings[slot].machine != machine
    ensures Replay(t, q.key, machine).None?
    ensures Alone(t, q) == match M.Upsert(t, q)
                           case None => (Failure(AllocationConflict), t)
                           case Some(h) => Continued(t, q, h, machine)
  {
    hide M.MachineOf, M.Upsert, Continued, Replay;
    assert forall k: nat :: Bound(t, q.key, k, machine) ==> Slot(q.key, k) in t.bindings;
  }

  lemma UpsertCases(t: Tables, q: Request)
    ensures !CounterRowOk(q.key, q.prefix, q.width) ==> M.Upsert(t, q).None?
    ensures CounterRowOk(q.key, q.prefix, q.width) && q.key in t.counters ==>
              M.Upsert(t, q) == Some(M.Held(Some(q.key), t.counters[q.key]))
  {
    hide CounterRowOk, M.HasBindings;
  }

  lemma UpsertMoves(t: Tables, q: Request, k: Key)
    requires Inv(t) && CounterRowOk(q.key, q.prefix, q.width) && q.key !in t.counters
    requires k in t.counters && k.scope == q.key.scope && t.counters[k].prefix == q.prefix && k != q.key
    ensures M.Upsert(t, q) == if exists s :: s in t.bindings && s.key == k then None else Some(M.Held(Some(k), t.counters[k]))
  {
    hide CounterRowOk, CountersOk, BindingsOk, MachinesUnique;
  }

  lemma UpsertInserts(t: Tables, q: Request)
    requires CounterRowOk(q.key, q.prefix, q.width) && q.key !in t.counters
    requires forall k :: k in t.counters && k.scope == q.key.scope && t.counters[k].prefix == q.prefix ==> k == q.key
    ensures M.Upsert(t, q) == Some(M.Held(None, Counter(q.prefix, q.width, 0)))
  {
    hide CounterRowOk, M.HasBindings;
  }

  // ----- a transaction that meets a fault

  /** The connection's own view of the tables when a statement is about to execute: what a commit at
      that point would make permanent. */
  ghost function Written(t: Tables, q: Request, statement: Statement): Tables
  {
    if M.MachineOf(q).None? || Replay(t, q.key, M.MachineOf(q).value).Some? || M.Upsert(t, q).None? || q.width < 0 then t
    else
      var h := M.Upsert(t, q).value;
      match statement
      case SelectCounter => M.Recounted(t, q, h, h.row.last)
      case UpdateCounter => M.Recounted(t, q, h, h.row.last)
      case InsertBinding => M.Recounted(t, q, h, h.row.last + 1)
      case Commit => M.Committed(t, q, h, h.row.last + 1, M.MachineOf(q).value)
      case _ => t
  }

  /** Whether an undisturbed transaction executes the statement. */
  ghost predicate Reaches(t: Tables, q: Request, statement: Statement)
  {
    M.MachineOf(q).Some? &&
    match statement
    case StartTransaction => false
    case SelectBinding => true
    case Commit => Alone(t, q).0.Success?
    case UpsertCounter => Replay(t, q.key, M.MachineOf(q).value).None?
    case SelectCounter => Replay(t, q.key, M.MachineOf(q).value).None? && M.Upsert(t, q).Some?
    case UpdateCounter => Replay(t, q.key, M.MachineOf(q).value).None? && Alone(t, q).0.Success?
    case InsertBinding => Replay(t, q.key, M.MachineOf(q).value).None? && Alone(t, q).0.Success?
  }

  /** A transaction on the tables `t`, once started: its outcome, the committed tables, and the view it
      leaves when it is not committed. */
  ghost function Transaction(t: Tables, q: Request, fault: Option<Fault>): (Outcome, Tables, Option<Tables>)
  {
    if fault.Some? && Reaches(t, q, fault.value.statement) then
      var thrown := Thrown(AllocationConflict, fault.value.transient);
      var view := Written(t, q, fault.value.statement);
      if fault.value.statement == Commit && fault.value.applied then (thrown, view, None) else (thrown, t, Some(view))
    else match Alone(t, q).0
      case Success(n) => (Value(n), Alone(t, q).1, None)
      case Failure(e) => (Thrown(e, false), t, Some(Written(t, q, SelectCounter)))
  }

  /** START TRANSACTION takes effect, which commits what the connection has open. */
  predicate Starts(q: Request, fault: Option<Fault>)
  {
    M.MachineOf(q).Some? && (Fails(fault, StartTransaction) ==> fault.value.applied)
  }

  function Settle(t: Tables, open: Option<Tables>): Tables
  {
    if open.Some? then open.value else t
  }

  /** One attempt on a connection that may have a transaction open. */
  ghost function Attempt(t: Tables, open: Option<Tables>, q: Request, fault: Option<Fault>): (Outcome, Tables, Option<Tables>)
  {
    if M.MachineOf(q).None? then (Thrown(AllocationConflict, false), t, open)
    else if Fails(fault, StartTransaction) then
      if fault.value.applied then (Thrown(AllocationConflict, fault.value.transient), Settle(t, open), None)
      else (Thrown(AllocationConflict, fault.value.transient), t, open)
    else Transaction(Settle(t, open), q, fault)
  }

  /** The committed tables after each statement of an attempt that commits something. */
  ghost function AttemptStates(t: Tables, open: Option<Tables>, q: Request, fault: Option<Fault>): seq<Tables>
  {
    if !Starts(q, fault) then []
    else if Fails(fault, StartTransaction) then [Settle(t, open)]
    else
      var ended := Transaction(Settle(t, open), q, fault);
      [Settle(t, open)] + if ended.2.None? then [ended.1] else []
  }

  /** The view that is left after the ROLLBACK behind an error. */
  function RolledBack(open: Option<Tables>, fails: bool): Option<Tables>
  {
    if fails then open else None
  }

  predicate Retries(o: Outcome, troubles: seq<Trouble>)
  {
    o.Thrown? && o.transient && |troubles| > 1
  }

  /** The attempts that are left: the result, the committed tables and the view left open. */
  ghost function Attempts(t: Tables, open: Option<Tables>, q: Request, troubles: seq<Trouble>)
    : (Result<nat, Error>, Tables, Option<Tables>)
    requires troubles != []
    decreases |troubles|
  {
    var (o, after, left) := Attempt(t, open, q, troubles[0].fault);
    match o
    case Value(n) => (Success(n), after, left)
    case Thrown(e, _) =>
      if Retries(o, troubles) then Attempts(after, RolledBack(left, troubles[0].rollbackFails), q, troubles[1..])
      else (Failure(e), after, RolledBack(left, troubles[0].rollbackFails))
  }

  ghost function States(t: Tables, open: Option<Tables>, q: Request, troubles: seq<Trouble>): seq<Tables>
    requires troubles != []
    decreases |troubles|
  {
    var (o, after, left) := Attempt(t, open, q, troubles[0].fault);
    AttemptStates(t, open, q, troubles[0].fault)
    + if Retries(o, troubles) then States(after, RolledBack(left, troubles[0].rollbackFails), q, troubles[1..]) else []
  }

  // ----- the statements, one by one

  lemma ReplayCases(t: Tables, q: Request, machine: Bytes, statement: Statement)
    requires M.MachineOf(q) == Some(machine) && Replay(t, q.key, machine).Some?
    ensures Written(t, q, statement) == t
    ensures Reaches(t, q, statement) <==> statement == SelectBinding || (statement == Commit && Alone(t, q).0.Success?)
  {
    hide M.MachineOf, Replay, M.Upsert, Alone;
  }

  lemma RefusedCases(t: Tables, q: Request, machine: Bytes, statement: Statement)
    requires M.MachineOf(q) == Some(machine) && Replay(t, q.key, machine).None? && M.Upsert(t, q).None?
    ensures Written(t, q, statement) == t && Alone(t, q) == (Failure(AllocationConflict), t)
    ensures Reaches(t, q, statement) <==> statement == SelectBinding || statement == UpsertCounter
  {
    hide M.MachineOf, Replay, M.Upsert;
  }

  lemma LockedCases(t: Tables, q: Request, h: M.Held, machine: Bytes, statement: Statement)
    requires M.MachineOf(q) == Some(machine) && Replay(t, q.key, machine).None? && M.Upsert(t, q) == Some(h) && q.width >= 0
    ensures Written(t, q, statement)
            == match statement
               case SelectCounter => M.Recounted(t, q, h, h.row.last)
               case UpdateCounter => M.Recounted(t, q, h, h.row.last)
               case InsertBinding => M.Recounted(t, q, h, h.row.last + 1)
               case Commit => M.Committed(t, q, h, h.row.last + 1, machine)
               case _ => t
    ensures Alone(t, q) == Continued(t, q, h, machine)
    ensures Reaches(t, q, statement)
            <==> statement != StartTransaction
                 && (statement == UpdateCounter || statement == InsertBinding || statement == Commit ==> Alone(t, q).0.Success?)
  {
    hide M.MachineOf, Replay, M.Upsert, Continued, M.Recounted, M.Committed;
  }

  lemma TransactionCases(t: Tables, q: Request, fault: Option<Fault>)
    ensures fault.Some? && Reaches(t, q, fault.value.statement) ==>
              Transaction(t, q, fault)
              == (Thrown(AllocationConflict, fault.value.transient),
                  if fault.value.statement == Commit && fault.value.applied then Written(t, q, Commit) else t,
                  if fault.value.statement == Commit && fault.value.applied then None
                  else Some(Written(t, q, fault.value.statement)))
    ensures !(fault.Some? && Reaches(t, q, fault.value.statement)) ==>
              Transaction(t, q, fault)
              == match Alone(t, q).0
                 case Success(n) => (Value(n), Alone(t, q).1, None)
                 case Failure(e) => (Thrown(e, false), t, Some(Written(t, q, SelectCounter)))
  {
    hide Reaches, Written, Alone;
  }

  lemma AttemptCases(t: Tables, open: Option<Tables>, q: Request, fault: Option<Fault>)
    ensures M.MachineOf(q).None? ==> Attempt(t, open, q, fault) == (Thrown(AllocationConflict, false), t, open)
    ensures M.MachineOf(q).Some? && Fails(fault, StartTransaction) ==>
              Attempt(t, open, q, fault)
              == (Thrown(AllocationConflict, fault.value.transient),
                  if fault.value.applied then Settle(t, open) else t, if fault.value.applied then None else open)
    ensures M.MachineOf(q).Some? && !Fails(fault, StartTransaction) ==>
              Attempt(t, open, q, fault) == Transaction(Settle(t, open), q, fault)
    ensures AttemptStates(t, open, q, fault)
            == if M.MachineOf(q).None? || (Fails(fault, StartTransaction) && !fault.value.applied) then []
               else if Fails(fault, StartTransaction) then [Settle(t, open)]
               else [Settle(t, open)] + if Transaction(Settle(t, open), q, fault).2.None?
                                        then [Transaction(Settle(t, open), q, fault).1] else []
    ensures Starts(q, fault) <==> M.MachineOf(q).Some? && (Fails(fault, StartTransaction) ==> fault.value.applied)
  {
    hide M.MachineOf, Transaction, Settle;
  }

  lemma SettleIs(t: Tables, open: Option<Tables>)
    ensures Settle(t, open) == if open.Some? then open.value else t
  {
  }

  lemma FaultIs(fault: Option<Fault>, statement: Statement)
    ensures Fails(fault, statement) <==> fault.Some? && fault.value.statement == statement
  {
  }

  lemma RowsWritten(t: Tables, q: Request, h: M.Held, n: nat, machine: Bytes)
    requires q.width >= 0
    ensures M.Recounted(t, q, h, n)
            == t.(counters := (if h.source.Some? then t.counters - {h.source.value} else t.counters)[q.key := h.row.(last := n)])
    ensures M.Committed(t, q, h, n, machine)
            == M.Recounted(t, q, h, n).(bindings := t.bindings[Slot(q.key, n) := Binding(machine, q.prefix, q.width)])
    ensures h.row.(last := h.row.last) == h.row
  {
  }

  // ----- what every attempt keeps

  /** A view is consistent, and loses nothing. */
  ghost predicate ViewOk(t: Tables, open: Option<Tables>)
  {
    open.Some? ==> Inv(open.value) && M.Ascended(t, open.value)
  }

  lemma WrittenOk(t: Tables, q: Request, statement: Statement)
    requires Inv(t) && 4 <= q.width <= 18
    requires statement == SelectCounter || Reaches(t, q, statement)
    ensures Inv(Written(t, q, statement)) && M.Ascended(t, Written(t, q, statement))
  {
    hide *;
    M.AscendedReflexive(t);
    if M.MachineOf(q).None? || Replay(t, q.key, M.MachineOf(q).value).Some? || M.Upsert(t, q).None? {
      NothingWritten(t, q, statement);
    } else {
      var h, machine := M.Upsert(t, q).value, M.MachineOf(q).value;
      LockedCases(t, q, h, machine, statement);
      M.UpsertOk(t, q);
      ContinuedCases(t, q, h, machine);
      if statement == SelectCounter || statement == UpdateCounter {
        M.MakeOpenOk(t, M.Open(q, h, M.Upserted));
        M.OpenParts(t, M.Open(q, h, M.Upserted));
        M.FlushGrows(t, M.Open(q, h, M.Upserted));
      } else if statement == InsertBinding {
        M.MakeOpenOk(t, M.Open(q, h, M.Updated(h.row.last + 1)));
        M.OpenParts(t, M.Open(q, h, M.Updated(h.row.last + 1)));
        M.FlushGrows(t, M.Open(q, h, M.Updated(h.row.last + 1)));
      } else if statement == Commit {
        M.CommitGrows(t, q, h, h.row.last + 1, machine);
        M.GrownParts(t, M.Committed(t, q, h, h.row.last + 1, machine));
      }
    }
  }

  lemma NothingWritten(t: Tables, q: Request, statement: Statement)
    requires M.MachineOf(q).None? || Replay(t, q.key, M.MachineOf(q).value).Some? || M.Upsert(t, q).None?
    ensures Written(t, q, statement) == t
  {
    hide M.MachineOf, Replay, M.Upsert;
  }

  lemma TransactionKeeps(t: Tables, q: Request, fault: Option<Fault>)
    requires Inv(t) && 4 <= q.width <= 18
    ensures var (o, after, left) := Transaction(t, q, fault);
            Inv(after) && M.Ascended(t, after) && ViewOk(after, left) && (o.Value? ==> M.Settled(after, q, o.n))
  {
    hide *;
    TransactionCases(t, q, fault);
    AloneKeeps(t, q);
    M.GrownParts(t, Alone(t, q).1);
    M.AscendedReflexive(t);
    WrittenOk(t, q, SelectCounter);
    var (o, after, left) := Transaction(t, q, fault);
    if fault.Some? && Reaches(t, q, fault.value.statement) {
      WrittenOk(t, q, fault.value.statement);
    }
    ViewIs(after, left);
  }

  lemma ViewIs(t: Tables, open: Option<Tables>)
    ensures ViewOk(t, open) <==> (open.Some? ==> Inv(open.value) && M.Ascended(t, open.value))
  {
    hide Inv, M.Ascended;
  }

  lemma AttemptKeeps(t: Tables, open: Option<Tables>, q: Request, fault: Option<Fault>)
    requires Inv(t) && ViewOk(t, open) && 4 <= q.width <= 18
    ensures var (o, after, left) := Attempt(t, open, q, fault);
            Inv(after) && M.Ascended(t, after) && ViewOk(after, left) && (o.Value? ==> M.Settled(after, q, o.n))
  {
    hide *;
    AttemptCases(t, open, q, fault);
    SettleIs(t, open);
    ViewIs(t, open);
    M.AscendedReflexive(t);
    var base := Settle(t, open);
    TransactionKeeps(base, q, fault);
    var (o, after, left) := Attempt(t, open, q, fault);
    if M.Ascended(base, after) { M.AscendedTransitive(t, base, after); }
    ViewIs(after, left);
  }

  /** Under every pattern of faults and failing rollbacks: the keys hold, so there are never two bindings
      for the MID; no row is lost; and a returned number is bound to the MID. */
  lemma {:induction false} AttemptsKeep(t: Tables, open: Option<Tables>, q: Request, troubles: seq<Trouble>)
    requires Inv(t) && ViewOk(t, open) && 4 <= q.width <= 18 && troubles != []
    ensures var (r, after, left) := Attempts(t, open, q, troubles);
            Inv(after) && M.Ascended(t, after) && ViewOk(after, left) && (r.Success? ==> M.Settled(after, q, r.value))
    decreases |troubles|
  {
    hide Inv, ViewOk, Attempt, M.Ascended, M.Settled, RolledBack, Retries;
    AttemptKeeps(t, open, q, troubles[0].fault);
    var (o, after, left) := Attempt(t, open, q, troubles[0].fault);
    var kept := RolledBack(left, troubles[0].rollbackFails);
    RolledBackOk(after, left, troubles[0].rollbackFails);
    if Retries(o, troubles) {
      RetriesIs(o, troubles);
      AttemptsKeep(after, kept, q, troubles[1..]);
      M.AscendedTransitive(t, after, Attempts(after, kept, q, troubles[1..]).1);
    }
  }

  lemma RolledBackOk(t: Tables, open: Option<Tables>, fails: bool)
    requires ViewOk(t, open)
    ensures ViewOk(t, RolledBack(open, fails))
  {
    hide Inv, M.Ascended;
  }

  lemma RetriesIs(o: Outcome, troubles: seq<Trouble>)
    ensures Retries(o, troubles) <==> o.Thrown? && o.transient && |troubles| > 1
  {
  }

  // ----- when nothing but whole allocations happens

  /** A view that has a counter row written, inserted or moved, and no binding with it. */
  predicate Unfinished(t: Tables, view: Tables)
  {
    view.counters != t.counters && view.bindings == t.bindings
  }

  /** Some START TRANSACTION takes effect while such a view is open: an earlier attempt failed behind the
      upsert and in front of COMMIT, and every ROLLBACK since then failed. */
  ghost predicate Torn(t: Tables, open: Option<Tables>, q: Request, troubles: seq<Trouble>)
    requires troubles != []
    decreases |troubles|
  {
    var (o, after, left) := Attempt(t, open, q, troubles[0].fault);
    (Starts(q, troubles[0].fault) && open.Some? && Unfinished(t, open.value))
    || (Retries(o, troubles) && Torn(after, RolledBack(left, troubles[0].rollbackFails), q, troubles[1..]))
  }

  /** `t` is `t0`, or `t0` with the whole allocation. */
  ghost predicate Whole(t0: Tables, q: Request, t: Tables)
  {
    t == t0 || t == Alone(t0, q).1
  }

  ghost predicate AllWhole(t0: Tables, q: Request, states: seq<Tables>)
  {
    forall i :: 0 <= i < |states| ==> Whole(t0, q, states[i])
  }

  /** The views a connection can have open, relative to the tables it started from. */
  ghost predicate ViewOf(t0: Tables, q: Request, t: Tables, open: Option<Tables>)
  {
    open.Some? ==> (Whole(t0, q, open.value) && !Unfinished(t, open.value))
                   || (Unfinished(t, open.value) && !Whole(t0, q, open.value))
  }

  /** A view of `t` is `t`, the whole allocation, or unfinished. */
  lemma WrittenWhole(t: Tables, q: Request, statement: Statement)
    requires Inv(t) && 4 <= q.width <= 18 && (statement == SelectCounter || Reaches(t, q, statement))
    ensures var view := Written(t, q, statement);
            if Unfinished(t, view) then view != t && view != Alone(t, q).1 else view == t || view == Alone(t, q).1
    ensures statement == Commit ==> Written(t, q, statement) == Alone(t, q).1
  {
    hide *;
    var view := Written(t, q, statement);
    if M.MachineOf(q).None? || Replay(t, q.key, M.MachineOf(q).value).Some? || M.Upsert(t, q).None? {
      NothingWritten(t, q, statement);
      NotUnfinished(t);
      if M.MachineOf(q).Some? { AloneCases(t, q); } else { NoMachine(t, q, statement); }
    } else {
      var h, machine := M.Upsert(t, q).value, M.MachineOf(q).value;
      LockedCases(t, q, h, machine, statement);
      M.UpsertOk(t, q);
      ContinuedCases(t, q, h, machine);
      NotUnfinished(t);
      if statement == SelectCounter || statement == UpdateCounter {
        var o := M.Open(q, h, M.Upserted);
        M.MakeOpenOk(t, o);
        M.OpenParts(t, o);
        CounterView(t, q, h, machine, o);
      } else if statement == InsertBinding {
        var o := M.Open(q, h, M.Updated(h.row.last + 1));
        M.MakeOpenOk(t, o);
        M.OpenParts(t, o);
        CounterView(t, q, h, machine, o);
      } else if statement == Commit {
        M.InvUnique(t);
        M.FreshSlot(t, q, h, h.row.last + 1);
        C.CommittedBinds(t, q, h, h.row.last + 1, machine);
        BindingsDiffer(t, view, Slot(q.key, h.row.last + 1));
      }
    }
  }

  lemma NoMachine(t: Tables, q: Request, statement: Statement)
    requires M.MachineOf(q).None?
    ensures Alone(t, q).1 == t && !Reaches(t, q, statement)
  {
    hide M.MachineOf;
  }

  lemma NotUnfinished(t: Tables)
    ensures !Unfinished(t, t)
  {
  }

  lemma BindingsDiffer(t: Tables, view: Tables, slot: Slot)
    requires slot !in t.bindings && slot in view.bindings
    ensures !Unfinished(t, view) && view != t
  {
  }

  /** A counter row alone: unchanged when it was the key's own and not yet updated, unfinished otherwise. */
  lemma CounterView(t: Tables, q: Request, h: M.Held, machine: Bytes, o: M.Open)
    requires Inv(t) && M.OpenOk(t, o) && o.q == q && o.held == h && !o.done.Inserted?
    requires Alone(t, q) == Continued(t, q, h, machine) && 4 <= q.width <= 18
    ensures var view := M.Flushed(t, o);
            if Unfinished(t, view) then view != t && view != Alone(t, q).1 else view == t
  {
    hide *;
    C.UnfinishedIs(o);
    NotUnfinished(t);
    M.InvUnique(t);
    M.OpenParts(t, o);
    if C.Unfinished(o) {
      C.TornCounters(t, o);
      UnfinishedView(t, M.Flushed(t, o));
      ContinuedCases(t, q, h, machine);
      ContinuedBinds(t, q, h, machine);
    } else {
      C.OwnRowUnchanged(t, o);
    }
  }

  lemma UnfinishedView(t: Tables, view: Tables)
    ensures Unfinished(t, view) <==> view.counters != t.counters && view.bindings == t.bindings
    ensures Unfinished(t, view) ==> view != t
  {
  }

  lemma ContinuedBinds(t: Tables, q: Request, h: M.Held, machine: Bytes)
    requires BindingsOk(t) && M.HeldOk(t, q, h) && 4 <= q.width <= 18
    ensures Continued(t, q, h, machine).1 == t || Continued(t, q, h, machine).1.bindings != t.bindings
  {
    hide *;
    ContinuedCases(t, q, h, machine);
    if h.row.prefix == q.prefix && h.row.width == q.width && h.row.last < Maximum(q.width) {
      M.FreshSlot(t, q, h, h.row.last + 1);
      C.CommittedBinds(t, q, h, h.row.last + 1, machine);
    }
  }

  /** The tables so far are whole, so an undisturbed transaction on them ends as one on the first ones. */
  lemma WholeAlone(t0: Tables, q: Request, t: Tables)
    requires Inv(t0) && 4 <= q.width <= 18 && Whole(t0, q, t)
    ensures Inv(t) && Alone(t, q).0 == Alone(t0, q).0 && Alone(t, q).1 == Alone(t0, q).1
  {
    hide *;
    AloneKeeps(t0, q);
    WholeIs(t0, q, t);
    if Alone(t0, q).0.Success? { AloneAgain(t0, q); }
  }

  lemma WholeIs(t0: Tables, q: Request, t: Tables)
    ensures Whole(t0, q, t) <==> t == t0 || t == Alone(t0, q).1
  {
    hide Alone;
  }

  lemma WrittenFrom(t0: Tables, q: Request, t: Tables, statement: Statement)
    requires Inv(t0) && 4 <= q.width <= 18 && Whole(t0, q, t) && (statement == SelectCounter || Reaches(t, q, statement))
    ensures ViewOf(t0, q, t, Some(Written(t, q, statement)))
    ensures statement == Commit ==> Whole(t0, q, Written(t, q, statement))
  {
    hide *;
    var view := Written(t, q, statement);
    WholeAlone(t0, q, t);
    WrittenWhole(t, q, statement);
    WholeIs(t0, q, t);
    WholeIs(t0, q, view);
    ViewOfIs(t0, q, t, view);
    if t != t0 {
      AloneKeeps(t0, q);
      SuccessReplays(t0, q, statement);
    }
  }

  /** After the allocation the views of a replay are the tables themselves. */
  lemma SuccessReplays(t0: Tables, q: Request, statement: Statement)
    requires Inv(t0) && 4 <= q.width <= 18 && Alone(t0, q).0.Success?
    ensures Written(Alone(t0, q).1, q, statement) == Alone(t0, q).1 && !Unfinished(Alone(t0, q).1, Alone(t0, q).1)
  {
    hide *;
    var after := Alone(t0, q).1;
    AloneKeeps(t0, q);
    SettledBound(after, q, Alone(t0, q).0.value);
    M.InvUnique(after);
    ReplayIs(after, q.key, M.MachineOf(q).value, Alone(t0, q).0.value);
    NothingWritten(after, q, statement);
    NotUnfinished(after);
  }

  lemma ViewOfIs(t0: Tables, q: Request, t: Tables, view: Tables)
    ensures ViewOf(t0, q, t, Some(view))
            <==> (Whole(t0, q, view) && !Unfinished(t, view)) || (Unfinished(t, view) && !Whole(t0, q, view))
    ensures ViewOf(t0, q, t, None)
  {
    hide Whole, Unfinished;
  }

  lemma TransactionWhole(t0: Tables, q: Request, t: Tables, fault: Option<Fault>)
    requires Inv(t0) && 4 <= q.width <= 18 && Whole(t0, q, t)
    ensures var (o, after, left) := Transaction(t, q, fault);
            Whole(t0, q, after) && ViewOf(t0, q, after, left)
            && (o.Value? ==> (Success(o.n), after) == Alone(t0, q))
            && (o.Thrown? ==> o.e == AllocationConflict || Alone(t0, q).0 == Failure(o.e))
            && (fault.None? && Alone(t0, q).0.Success? ==> o.Value?)
            && (o.Thrown? && Alone(t0, q).0.Success? ==> fault.Some? && o.transient == fault.value.transient)
  {
    hide *;
    TransactionCases(t, q, fault);
    WholeAlone(t0, q, t);
    WrittenFrom(t0, q, t, SelectCounter);
    WholeIs(t0, q, Alone(t, q).1);
    var (o, after, left) := Transaction(t, q, fault);
    ViewOfIs(t0, q, after, t);
    if fault.Some? && Reaches(t, q, fault.value.statement) {
      WrittenFrom(t0, q, t, fault.value.statement);
    }
  }

  /** The main step: an attempt on whole tables with such a view. */
  lemma AttemptWhole(t0: Tables, t: Tables, open: Option<Tables>, q: Request, fault: Option<Fault>)
    requires Inv(t0) && 4 <= q.width <= 18 && Whole(t0, q, t) && ViewOf(t0, q, t, open)
    ensures AllWhole(t0, q, AttemptStates(t, open, q, fault))
            || (Starts(q, fault) && open.Some? && Unfinished(t, open.value))
    ensures Starts(q, fault) && open.Some? && Unfinished(t, open.value) ==> !AllWhole(t0, q, AttemptStates(t, open, q, fault))
    ensures !(Starts(q, fault) && open.Some? && Unfinished(t, open.value)) ==>
              var (o, after, left) := Attempt(t, open, q, fault);
              Whole(t0, q, after) && ViewOf(t0, q, after, left)
              && (o.Value? ==> (Success(o.n), after) == Alone(t0, q))
              && (o.Thrown? ==> o.e == AllocationConflict || Alone(t0, q).0 == Failure(o.e))
              && (fault.None? && Alone(t0, q).0.Success? ==> o.Value?)
              && (o.Thrown? && Alone(t0, q).0.Success? ==> fault.Some? && o.transient == fault.value.transient)
  {
    hide *;
    AttemptCases(t, open, q, fault);
    SettleIs(t, open);
    FaultIs(fault, StartTransaction);
    ViewOfIs(t0, q, t, t);
    if open.Some? { ViewOfIs(t0, q, t, open.value); }
    var base := Settle(t, open);
    ViewOfIs(t0, q, base, base);
    AllWholeIs(t0, q, AttemptStates(t, open, q, fault));
    if Starts(q, fault) && open.Some? { assert AttemptStates(t, open, q, fault)[0] == open.value; }
    if Whole(t0, q, base) {
      TransactionWhole(t0, q, base, fault);
    }
    if M.MachineOf(q).None? {
      NoMachine(t0, q, Commit);
      AloneCases(t0, q);
    }
  }

  lemma AllWholeIs(t0: Tables, q: Request, states: seq<Tables>)
    ensures AllWhole(t0, q, states) <==> forall i :: 0 <= i < |states| ==> Whole(t0, q, states[i])
  {
    hide Whole;
  }

  /** Whatever goes wrong in the attempts: every committed state is the first one or the one with exactly
      the whole allocation, if and only if no START TRANSACTION takes effect while an unfinished counter
      row is open. When that is so, success returns the allocation, and comes whenever some attempt is
      undisturbed and only transient errors precede it. */
  lemma {:induction false} AttemptsWholeExactly(
    t0: Tables, t: Tables, open: Option<Tables>, q: Request, troubles: seq<Trouble>)
    requires Inv(t0) && 4 <= q.width <= 18 && troubles != [] && Whole(t0, q, t) && ViewOf(t0, q, t, open)
    ensures AllWhole(t0, q, States(t, open, q, troubles)) <==> !Torn(t, open, q, troubles)
    ensures !Torn(t, open, q, troubles) ==>
              var (r, after, left) := Attempts(t, open, q, troubles);
              Whole(t0, q, after) && ViewOf(t0, q, after, left)
              && (r.Success? ==> (r, after) == Alone(t0, q))
              && (r.Failure? ==> r.error == AllocationConflict || r == Alone(t0, q).0)
              && (Alone(t0, q).0.Success? && Recovers(troubles) ==> r.Success?)
    decreases |troubles|
  {
    hide Inv, Whole, ViewOf, Attempt, AttemptStates, AllWhole, Alone, Unfinished, Starts, RolledBack, Retries, Recovers;
    AttemptWhole(t0, t, open, q, troubles[0].fault);
    var (o, after, left) := Attempt(t, open, q, troubles[0].fault);
    var kept := RolledBack(left, troubles[0].rollbackFails);
    RetriesIs(o, troubles);
    RecoversFirst(troubles);
    if !(Starts(q, troubles[0].fault) && open.Some? && Unfinished(t, open.value)) {
      ViewOfRolledBack(t0, q, after, left, troubles[0].rollbackFails);
      if Retries(o, troubles) {
        AttemptsWholeExactly(t0, after, kept, q, troubles[1..]);
        AllWholeConcat(t0, q, AttemptStates(t, open, q, troubles[0].fault), States(after, kept, q, troubles[1..]));
      } else {
        AllWholeConcat(t0, q, AttemptStates(t, open, q, troubles[0].fault), []);
        AllWholeNothing(t0, q);
      }
    } else {
      var rest := if Retries(o, troubles) then States(after, kept, q, troubles[1..]) else [];
      AllWholeConcat(t0, q, AttemptStates(t, open, q, troubles[0].fault), rest);
    }
  }

  lemma AllWholeConcat(t0: Tables, q: Request, a: seq<Tables>, b: seq<Tables>)
    ensures AllWhole(t0, q, a + b) <==> AllWhole(t0, q, a) && AllWhole(t0, q, b)
  {
    hide Whole;
    if AllWhole(t0, q, a + b) {
      forall i | 0 <= i < |a| ensures Whole(t0, q, a[i]) { assert (a + b)[i] == a[i]; }
      forall i | 0 <= i < |b| ensures Whole(t0, q, b[i]) { assert (a + b)[|a| + i] == b[i]; }
    }
  }

  lemma AllWholeNothing(t0: Tables, q: Request)
    ensures AllWhole(t0, q, [])
  {
  }

  lemma ViewOfRolledBack(t0: Tables, q: Request, t: Tables, open: Option<Tables>, fails: bool)
    requires ViewOf(t0, q, t, open)
    ensures ViewOf(t0, q, t, RolledBack(open, fails))
  {
    hide Whole, Unfinished;
  }

  /** Some attempt meets no fault, and every attempt before it failed with a transient error at worst. */
  predicate Recovers(troubles: seq<Trouble>)
    decreases |troubles|
  {
    troubles != []
    && (troubles[0].fault.None? || (troubles[0].fault.value.transient && Recovers(troubles[1..])))
  }

  lemma RecoversFirst(troubles: seq<Trouble>)
    requires troubles != []
    ensures Recovers(troubles) <==>
              troubles[0].fault.None? || (troubles[0].fault.value.transient && |troubles| > 1 && Recovers(troubles[1..]))
  {
  }

  /** Rollbacks that work are enough: then no attempt sequence is torn. */
  lemma {:induction false} WorkingRollbacks(t: Tables, q: Request, troubles: seq<Trouble>)
    requires troubles != [] && forall i :: 0 <= i < |troubles| ==> !troubles[i].rollbackFails
    ensures !Torn(t, None, q, troubles)
    decreases |troubles|
  {
    hide Attempt, Starts, Retries;
    var (o, after, left) := Attempt(t, None, q, troubles[0].fault);
    RetriesIs(o, troubles);
    if Retries(o, troubles) {
      assert forall i :: 0 <= i < |troubles[1..]| ==> troubles[1..][i] == troubles[i + 1];
      WorkingRollbacks(after, q, troubles[1..]);
    }
  }

  // ----- the same, read off the troubles

  /** What an attempt at a new number leaves open: nothing that matters, a counter row alone, or the
      whole allocation. */
  datatype Leftover = Nothing | CounterAlone | Everything

  /** What is written when a statement fails; `unseen` says that the key had no counter row. */
  function LeftBy(statement: Statement, unseen: bool): Leftover
  {
    match statement
    case SelectCounter => if unseen then CounterAlone else Nothing
    case UpdateCounter => if unseen then CounterAlone else Nothing
    case InsertBinding => CounterAlone
    case Commit => Everything
    case _ => Nothing
  }

  predicate NewKey(t: Tables, q: Request) { q.key !in t.counters }

  predicate Started(fault: Option<Fault>)
  {
    Fails(fault, StartTransaction) ==> fault.value.applied
  }

  /** What is open behind an attempt that failed. */
  function NowLeft(left: Leftover, unseen: bool, trouble: Trouble): Leftover
  {
    if trouble.fault.None? || !trouble.rollbackFails then Nothing
    else if Started(trouble.fault) then LeftBy(trouble.fault.value.statement, unseen)
    else left
  }

  /** Nothing is committed until some attempt fails, transiently, behind a counter write; and from there to
      the next START TRANSACTION that takes effect every ROLLBACK fails. */
  predicate TornBy(left: Leftover, unseen: bool, troubles: seq<Trouble>)
    requires troubles != []
    decreases |troubles|
  {
    var fault := troubles[0].fault;
    if Started(fault) && left != Nothing then left == CounterAlone
    else
      fault.Some? && fault.value.transient && |troubles| > 1 && !(fault.value.statement == Commit && fault.value.applied)
      && TornBy(NowLeft(left, unseen, troubles[0]), unseen, troubles[1..])
  }

  ghost predicate LeftIs(t: Tables, q: Request, open: Option<Tables>, left: Leftover)
  {
    match left
    case Nothing => open.None? || open == Some(t)
    case CounterAlone => open.Some? && Unfinished(t, open.value)
    case Everything => open == Some(Alone(t, q).1)
  }

  /** A request that is due a new number. */
  ghost predicate Due(t: Tables, q: Request)
  {
    Inv(t) && 4 <= q.width <= 18 && Alone(t, q).0.Success? && Alone(t, q).1 != t
  }

  lemma DueCases(t: Tables, q: Request, statement: Statement)
    requires Due(t, q)
    ensures M.MachineOf(q).Some? && (statement != StartTransaction ==> Reaches(t, q, statement))
    ensures LeftIs(t, q, Some(Written(t, q, statement)), LeftBy(statement, NewKey(t, q)))
    ensures statement == Commit ==> Written(t, q, statement) == Alone(t, q).1
    ensures !Unfinished(t, Alone(t, q).1) && !Unfinished(t, t)
  {
    hide *;
    DueIs(t, q);
    NewKeyIs(t, q);
    NotUnfinished(t);
    if M.MachineOf(q).None? { NoMachine(t, q, Commit); }
    AloneCases(t, q);
    var h, machine := M.Upsert(t, q).value, M.MachineOf(q).value;
    LockedCases(t, q, h, machine, statement);
    LockedCases(t, q, h, machine, Commit);
    WrittenWhole(t, q, Commit);
    RowsWritten(t, q, h, h.row.last, machine);
    RowsWritten(t, q, h, h.row.last + 1, machine);
    UpsertCases(t, q);
    CounterWritten(t, q, h);
    LeftIsCases(t, q, statement, Written(t, q, statement));
  }

  lemma NewKeyIs(t: Tables, q: Request)
    ensures NewKey(t, q) <==> q.key !in t.counters
  {
  }

  lemma DueIs(t: Tables, q: Request)
    ensures Due(t, q) <==> Inv(t) && 4 <= q.width <= 18 && Alone(t, q).0.Success? && Alone(t, q).1 != t
  {
    hide Inv, Alone;
  }

  /** The counter row before and after its update, as an open transaction has it. */
  lemma CounterWritten(t: Tables, q: Request, h: M.Held)
    requires q.key in t.counters ==> h == M.Held(Some(q.key), t.counters[q.key])
    ensures if q.key in t.counters then M.Recounted(t, q, h, h.row.last) == t else Unfinished(t, M.Recounted(t, q, h, h.row.last))
    ensures Unfinished(t, M.Recounted(t, q, h, h.row.last + 1))
  {
    var before, after := M.Recounted(t, q, h, h.row.last), M.Recounted(t, q, h, h.row.last + 1);
    assert q.key in before.counters && before.counters[q.key] == h.row;
    assert q.key in after.counters && after.counters[q.key].last == h.row.last + 1;
    if q.key in t.counters { assert before.counters == t.counters; }
  }

  lemma LeftIsCases(t: Tables, q: Request, statement: Statement, view: Tables)
    requires match statement
             case StartTransaction => view == t
             case SelectBinding => view == t
             case UpsertCounter => view == t
             case Commit => view == Alone(t, q).1
             case InsertBinding => Unfinished(t, view)
             case _ => if q.key in t.counters then view == t else Unfinished(t, view)
    ensures LeftIs(t, q, Some(view), LeftBy(statement, NewKey(t, q)))
  {
    hide Alone, Unfinished;
  }

  /** Once the number is allocated nothing is torn any more. */
  lemma {:induction false} AllocatedNeverTorn(t: Tables, q: Request, open: Option<Tables>, troubles: seq<Trouble>)
    requires Inv(t) && 4 <= q.width <= 18 && Alone(t, q).0.Success? && Alone(t, q).1 == t
    requires troubles != [] && (open.None? || open == Some(t))
    ensures !Torn(t, open, q, troubles)
    decreases |troubles|
  {
    hide *;
    var fault := troubles[0].fault;
    TornIs(t, open, q, troubles);
    AttemptCases(t, open, q, fault);
    SettleIs(t, open);
    NotUnfinished(t);
    TransactionCases(t, q, fault);
    AloneKeeps(t, q);
    if fault.Some? { SuccessReplays(t, q, fault.value.statement); }
    var (o, after, left) := Attempt(t, open, q, fault);
    RetriesIs(o, troubles);
    RolledBackIs(left, troubles[0].rollbackFails);
    if Retries(o, troubles) {
      AllocatedNeverTorn(t, q, RolledBack(left, troubles[0].rollbackFails), troubles[1..]);
    }
  }

  lemma TornIs(t: Tables, open: Option<Tables>, q: Request, troubles: seq<Trouble>)
    requires troubles != []
    ensures var (o, after, left) := Attempt(t, open, q, troubles[0].fault);
            Torn(t, open, q, troubles)
            <==> (Starts(q, troubles[0].fault) && open.Some? && Unfinished(t, open.value))
                 || (Retries(o, troubles) && Torn(after, RolledBack(left, troubles[0].rollbackFails), q, troubles[1..]))
  {
    hide Attempt, Starts, Unfinished, Retries, RolledBack;
  }

  lemma TornByIs(left: Leftover, unseen: bool, troubles: seq<Trouble>)
    requires troubles != []
    ensures var fault := troubles[0].fault;
            TornBy(left, unseen, troubles)
            <==> if Started(fault) && left != Nothing then left == CounterAlone
                 else
                   fault.Some? && fault.value.transient && |troubles| > 1 && !(fault.value.statement == Commit && fault.value.applied)
                   && TornBy(NowLeft(left, unseen, troubles[0]), unseen, troubles[1..])
    ensures Started(troubles[0].fault)
            <==> troubles[0].fault.Some? && troubles[0].fault.value.statement == StartTransaction ==> troubles[0].fault.value.applied
    ensures NowLeft(left, unseen, troubles[0])
            == if troubles[0].fault.None? || !troubles[0].rollbackFails then Nothing
               else if Started(troubles[0].fault) then LeftBy(troubles[0].fault.value.statement, unseen) else left
    ensures LeftBy(StartTransaction, unseen) == Nothing
  {
  }

  lemma LeftOpen(t: Tables, q: Request, open: Option<Tables>, left: Leftover)
    ensures LeftIs(t, q, open, left)
            <==> match left
                 case Nothing => open.None? || open == Some(t)
                 case CounterAlone => open.Some? && Unfinished(t, open.value)
                 case Everything => open == Some(Alone(t, q).1)
  {
    hide Alone, Unfinished;
  }

  lemma {:induction false} TornReads(t: Tables, q: Request, open: Option<Tables>, left: Leftover, troubles: seq<Trouble>)
    requires Due(t, q) && LeftIs(t, q, open, left) && troubles != []
    ensures Torn(t, open, q, troubles) <==> TornBy(left, NewKey(t, q), troubles)
    decreases |troubles|
  {
    hide *;
    var fault, fails := troubles[0].fault, troubles[0].rollbackFails;
    var (o, after, kept) := Attempt(t, open, q, fault);
    var next := NowLeft(left, NewKey(t, q), troubles[0]);
    DueIs(t, q);
    DueCases(t, q, if fault.Some? then fault.value.statement else Commit);
    TornIs(t, open, q, troubles);
    TornByIs(left, NewKey(t, q), troubles);
    LeftOpen(t, q, open, left);
    AttemptCases(t, open, q, fault);
    SettleIs(t, open);
    FaultIs(fault, StartTransaction);
    RetriesIs(o, troubles);
    RolledBackIs(kept, fails);
    LeftOpen(t, q, RolledBack(kept, fails), next);
    LeftOpen(t, q, kept, next);
    if !Starts(q, fault) {
      if Retries(o, troubles) { TornReads(t, q, RolledBack(kept, fails), next, troubles[1..]); }
    } else if left == Everything {
      EverythingLeft(t, q, fault, troubles);
    } else if left == Nothing {
      TransactionCases(t, q, fault);
      if fault.Some? && fault.value.statement == Commit && fault.value.applied {
        AloneKeeps(t, q);
        AloneAgain(t, q);
        if Retries(o, troubles) { AllocatedNeverTorn(after, q, RolledBack(kept, fails), troubles[1..]); }
      } else if Retries(o, troubles) {
        TornReads(t, q, RolledBack(kept, fails), next, troubles[1..]);
      }
    }
  }

  /** START TRANSACTION commits the whole allocation that was open. */
  lemma EverythingLeft(t: Tables, q: Request, fault: Option<Fault>, troubles: seq<Trouble>)
    requires Due(t, q) && troubles != [] && troubles[0].fault == fault && Starts(q, fault)
    ensures !Torn(t, Some(Alone(t, q).1), q, troubles)
  {
    hide *;
    var whole, fails := Alone(t, q).1, troubles[0].rollbackFails;
    var (o, after, kept) := Attempt(t, Some(whole), q, fault);
    DueIs(t, q);
    DueCases(t, q, Commit);
    AloneKeeps(t, q);
    AloneAgain(t, q);
    TornIs(t, Some(whole), q, troubles);
    AttemptCases(t, Some(whole), q, fault);
    SettleIs(t, Some(whole));
    FaultIs(fault, StartTransaction);
    TransactionCases(whole, q, fault);
    if fault.Some? { SuccessReplays(whole, q, fault.value.statement); }
    RetriesIs(o, troubles);
    RolledBackIs(kept, fails);
    if Retries(o, troubles) { AllocatedNeverTorn(whole, q, RolledBack(kept, fails), troubles[1..]); }
  }

  /** For every new allocation the troubles alone decide whether all committed states are whole. */
  lemma TornExactly(t: Tables, q: Request, troubles: seq<Trouble>)
    requires Inv(t) && 4 <= q.width <= 18 && Alone(t, q).0.Success? && Alone(t, q).1 != t && troubles != []
    ensures AllWhole(t, q, States(t, None, q, troubles)) <==> !TornBy(Nothing, NewKey(t, q), troubles)
  {
    hide *;
    DueIs(t, q);
    LeftOpen(t, q, None, Nothing);
    TornReads(t, q, None, Nothing, troubles);
    WholeIs(t, q, t);
    ViewIsNone(t, q);
    AttemptsWholeExactly(t, t, None, q, troubles);
  }

  lemma ViewIsNone(t: Tables, q: Request)
    ensures ViewOf(t, q, t, None)
  {
  }

  /** The insert of the binding meets a transient error and its ROLLBACK fails; the next attempt is
      undisturbed. */
  function SkippingTroubles(): seq<Trouble>
  {
    [Trouble(Some(Fault(InsertBinding, true, false)), true), Trouble(None, false), Trouble(None, false),
     Trouble(None, false), Trouble(None, false)]
  }

  /** That is torn, for every new allocation. */
  lemma SkippingIsTorn(t: Tables, q: Request)
    requires Inv(t) && 4 <= q.width <= 18 && Alone(t, q).0.Success? && Alone(t, q).1 != t
    ensures !AllWhole(t, q, States(t, None, q, SkippingTroubles()))
  {
    hide *;
    SkippingBy(NewKey(t, q));
    TornExactly(t, q, SkippingTroubles());
  }

  lemma SkippingBy(unseen: bool)
    ensures SkippingTroubles() != [] && TornBy(Nothing, unseen, SkippingTroubles())
  {
    var rest := SkippingTroubles()[1..];
    assert rest != [] && rest[0] == Trouble(None, false);
    assert TornBy(CounterAlone, unseen, rest);
  }

  class Adapter {
    const gate: TransactionGate
    var tables: Tables
    var open: Option<Tables>
    var begun: nat
    /** Every committed state of the tables this connection has made. */
    ghost var history: seq<Tables>

    ghost predicate Valid()
      reads this
    {
      Inv(tables) && ViewOk(tables, open)
    }

    constructor ()
      ensures Valid() && tables == Empty() && open.None? && begun == 0 && history == []
      ensures !gate.locked && gate.waiters == [] && fresh(gate)
    {
      gate := new TransactionGate();
      tables, open, begun, history := Empty(), None, 0, [];
      EmptyInv();
    }

    /** The upsert: which row is locked and where it stood, if no constraint refuses. */
    method LockCounter(q: Request) returns (h: Option<M.Held>)
      requires Inv(tables)
      ensures h == M.Upsert(tables, q)
    {
      hide *;
      UpsertCases(tables, q);
      if !CounterRowOk(q.key, q.prefix, q.width) { return None; }
      if q.key in tables.counters { return Some(M.Held(Some(q.key), tables.counters[q.key])); }
      if k :| k in tables.counters && k.scope == q.key.scope && tables.counters[k].prefix == q.prefix && k != q.key {
        UpsertMoves(tables, q, k);
        if exists s :: s in tables.bindings && s.key == k { return None; }
        return Some(M.Held(Some(k), tables.counters[k]));
      }
      UpsertInserts(tables, q);
      h := Some(M.Held(None, Counter(q.prefix, q.width, 0)));
    }

    /** `allocateTransaction`: one transaction, with at most one failing statement. */
    method AllocateTransaction(q: Request, fault: Option<Fault>) returns (o: Outcome)
      requires Valid() && 4 <= q.width <= 18
      modifies this
      ensures (o, tables, open) == Attempt(old(tables), old(open), q, fault)
      ensures history == old(history) + AttemptStates(old(tables), old(open), q, fault)
      ensures begun == old(begun) + if Starts(q, fault) then 1 else 0
    {
      hide *;
      ValidIs();
      AttemptCases(tables, open, q, fault);
      SettleIs(tables, open);
      ViewIs(tables, open);
      FaultIs(fault, StartTransaction);
      var bytes := M.MachineOf(q);
      if bytes.None? { return Thrown(AllocationConflict, false); }
      if Fails(fault, StartTransaction) {
        if fault.value.applied {
          if open.Some? { tables := open.value; }
          open, history := None, history + [tables];
          begun := begun + 1;
        }
        return Thrown(AllocationConflict, fault.value.transient);
      }
      if open.Some? { tables := open.value; }
      open, history := Some(tables), history + [tables];
      begun := begun + 1;
      o := Statements(q, bytes.value, fault);
    }

    /** The statements behind START TRANSACTION. */
    method Statements(q: Request, machine: Bytes, fault: Option<Fault>) returns (o: Outcome)
      requires Inv(tables) && open == Some(tables) && 4 <= q.width <= 18 && M.MachineOf(q) == Some(machine)
      requires !Fails(fault, StartTransaction)
      modifies this`tables, this`open, this`history
      ensures (o, tables, open) == Transaction(old(tables), q, fault)
      ensures history == old(history) + if open.None? then [tables] else []
    {
      hide *;
      ghost var t0 := tables;
      TransactionCases(t0, q, fault);
      FaultIs(fault, SelectBinding); FaultIs(fault, UpsertCounter); FaultIs(fault, SelectCounter);
      FaultIs(fault, UpdateCounter); FaultIs(fault, InsertBinding); FaultIs(fault, Commit); FaultIs(fault, StartTransaction);
      if slot :| slot in tables.bindings && slot.key == q.key && tables.bindings[slot].machine == machine {
        FoundReplay(t0, q, slot, machine);
        FoundSome(t0, q, slot, machine);
        ReplayCases(t0, q, machine, SelectCounter);
        if fault.Some? { ReplayCases(t0, q, machine, fault.value.statement); }
        if Fails(fault, SelectBinding) { return Thrown(AllocationConflict, fault.value.transient); }
        if tables.bindings[slot].prefix != q.prefix || tables.bindings[slot].width != q.width {
          return Thrown(InvalidAllocationPolicy, false);
        }
        o := End(slot.sequence, fault);
        return;
      }
      NotFound(t0, q, machine);
      // A fault in front of the upsert is reported below, where its answer is known; nothing is written yet.
      var locked := LockCounter(q);
      if locked.None? {
        RefusedCases(t0, q, machine, SelectCounter);
        if fault.Some? { RefusedCases(t0, q, machine, fault.value.statement); }
        if Fails(fault, SelectBinding) || Fails(fault, UpsertCounter) { return Thrown(AllocationConflict, fault.value.transient); }
        return Thrown(AllocationConflict, false);
      }
      var h := locked.value;
      ContinuedCases(t0, q, h, machine);
      LockedCases(t0, q, h, machine, SelectCounter);
      if fault.Some? { LockedCases(t0, q, h, machine, fault.value.statement); }
      if Fails(fault, SelectBinding) || Fails(fault, UpsertCounter) { return Thrown(AllocationConflict, fault.value.transient); }
      var row := h.row;
      RowsWritten(t0, q, h, row.last, machine);
      RowsWritten(t0, q, h, row.last + 1, machine);
      var counters := if h.source.Some? then tables.counters - {h.source.value} else tables.counters;
      open := Some(tables.(counters := counters[q.key := row]));
      if Fails(fault, SelectCounter) { return Thrown(AllocationConflict, fault.value.transient); }
      if row.prefix != q.prefix || row.width != q.width { return Thrown(InvalidAllocationPolicy, false); }
      if row.last >= Maximum(q.width) { return Thrown(SequenceOverflow, false); }
      var n := row.last + 1;
      if Fails(fault, UpdateCounter) { return Thrown(AllocationConflict, fault.value.transient); }
      open := Some(tables.(counters := counters[q.key := row.(last := n)]));
      M.UpsertOk(t0, q);
      M.NoClash(t0, q, h, n, machine);
      if Fails(fault, InsertBinding) { return Thrown(AllocationConflict, fault.value.transient); }
      if !M.InsertFits(tables, q, n, machine) { return Thrown(AllocationConflict, false); }
      open := Some(open.value.(bindings := tables.bindings[Slot(q.key, n) := Binding(machine, q.prefix, q.width)]));
      o := End(n, fault);
    }

    /** COMMIT, and the number to return. */
    method End(n: nat, fault: Option<Fault>) returns (o: Outcome)
      requires open.Some?
      modifies this`tables, this`open, this`history
      ensures fault.Some? && fault.value.statement == Commit ==>
                o == Thrown(AllocationConflict, fault.value.transient)
                && if fault.value.applied then tables == old(open).value && open.None? && history == old(history) + [tables]
                   else tables == old(tables) && open == old(open) && history == old(history)
      ensures !(fault.Some? && fault.value.statement == Commit) ==>
                o == Value(n) && tables == old(open).value && open.None? && history == old(history) + [tables]
    {
      if !Fails(fault, Commit) || fault.value.applied {
        tables, open := open.value, None;
        history := history + [tables];
      }
      o := if Fails(fault, Commit) then Thrown(AllocationConflict, fault.value.transient) else Value(n);
    }

    /** `allocateSerially`: five attempts under any faults, each failed one with a ROLLBACK whose error is
        ignored. */
    method AllocateSerially(q: Request, troubles: seq<Trouble>) returns (r: Result<nat, Error>)
      requires Valid() && 4 <= q.width <= 18 && |troubles| == 5
      modifies this
      ensures old(begun) <= begun <= old(begun) + 5
      ensures Valid() && M.Ascended(old(tables), tables) && (r.Success? ==> M.Settled(tables, q, r.value))
      ensures (r, tables, open) == Attempts(old(tables), old(open), q, troubles)
      ensures history == old(history) + States(old(tables), old(open), q, troubles)
      ensures old(open).None? ==>
                (AllWhole(old(tables), q, history[|old(history)|..]) <==> !Torn(old(tables), None, q, troubles))
      ensures old(open).None? && !Torn(old(tables), None, q, troubles) ==>
                Whole(old(tables), q, tables) && (r.Success? ==> (r, tables) == Alone(old(tables), q))
                && (Alone(old(tables), q).0.Success? && Recovers(troubles) ==> r.Success?)
    {
      hide *;
      ghost var t0, open0, history0 := tables, open, history;
      ValidIs();
      AttemptsKeep(t0, open0, q, troubles);
      if open0.None? {
        StartWhole(t0, q);
        AttemptsWholeExactly(t0, t0, None, q, troubles);
      }
      ViewIs(tables, open);
      assert troubles[0..] == troubles;
      assert history0 + States(t0, open0, q, troubles) == history0 + States(t0, open0, q, troubles[0..]);
      for attempt := 0 to 5
        invariant old(begun) <= begun <= old(begun) + attempt
        invariant Valid() && |troubles[attempt..]| > 0
        invariant Attempts(t0, open0, q, troubles) == Attempts(tables, open, q, troubles[attempt..])
        invariant history + States(tables, open, q, troubles[attempt..]) == history0 + States(t0, open0, q, troubles)
      {
        ghost var rest := troubles[attempt..];
        ghost var t, view, before := tables, open, history;
        AttemptsStep(t, view, q, rest);
        ValidIs();
        AttemptKeeps(t, view, q, rest[0].fault);
        var o := AllocateTransaction(q, troubles[attempt].fault);
        RetriesIs(o, rest);
        ValidIs();
        if o.Value? {
          Joined(before, AttemptStates(t, view, q, rest[0].fault), []);
          LastPart(history0, history, States(t0, open0, q, troubles));
          return Success(o.n);
        }
        ghost var left := open;
        if !troubles[attempt].rollbackFails { open := None; }
        RolledBackIs(left, troubles[attempt].rollbackFails);
        RolledBackOk(tables, left, troubles[attempt].rollbackFails);
        ValidIs();
        if !(attempt < 4 && o.transient) {
          Joined(before, AttemptStates(t, view, q, rest[0].fault), []);
          LastPart(history0, history, States(t0, open0, q, troubles));
          return Failure(o.e);
        }
        assert rest[1..] == troubles[attempt + 1..];
        Joined(before, AttemptStates(t, view, q, rest[0].fault), States(tables, open, q, troubles[attempt + 1..]));
      }
      assert false;
      r := Failure(AllocationConflict);
    }

    lemma ValidIs()
      ensures Valid() <==> Inv(tables) && ViewOk(tables, open)
    {
      hide Inv, ViewOk;
    }

    /** `allocate`, entered at an open gate: whatever fails inside, the gate is open again afterwards. */
    method Allocate(c: nat, q: Request, troubles: seq<Trouble>) returns (r: Result<nat, Error>)
      requires Valid() && |troubles| == 5 && !gate.locked && gate.waiters == []
      modifies this, gate
      ensures !gate.locked && gate.waiters == [] && old(begun) <= begun <= old(begun) + 5
      ensures Valid() && M.Ascended(old(tables), tables) && (r.Success? ==> M.Settled(tables, q, r.value))
      ensures !(4 <= q.width <= 18) ==>
                r == Failure(InvalidAllocationPolicy) && tables == old(tables) && open == old(open)
                && begun == old(begun) && history == old(history)
      ensures 4 <= q.width <= 18 ==>
                (r, tables, open) == Attempts(old(tables), old(open), q, troubles)
                && history == old(history) + States(old(tables), old(open), q, troubles)
      ensures 4 <= q.width <= 18 && old(open).None? ==>
                (AllWhole(old(tables), q, history[|old(history)|..]) <==> !Torn(old(tables), None, q, troubles))
    {
      hide *;
      GateCases(c);
      M.AscendedReflexive(tables);
      if q.width < 4 || q.width > 18 {
        return Failure(InvalidAllocationPolicy);
      }
      var entered := gate.Acquire(c);
      r := AllocateSerially(q, troubles);
      var resumed := gate.Release();
    }
  }

  lemma StartWhole(t: Tables, q: Request)
    ensures Whole(t, q, t) && ViewOf(t, q, t, None)
  {
    hide Alone;
  }

  lemma RolledBackIs(open: Option<Tables>, fails: bool)
    ensures RolledBack(open, fails) == if fails then open else None
  {
  }

  lemma AttemptsStep(t: Tables, open: Option<Tables>, q: Request, troubles: seq<Trouble>)
    requires troubles != []
    ensures var (o, after, left) := Attempt(t, open, q, troubles[0].fault);
            var kept := RolledBack(left, troubles[0].rollbackFails);
            Attempts(t, open, q, troubles)
            == (if o.Value? then (Success(o.n), after, left)
                else if Retries(o, troubles) then Attempts(after, kept, q, troubles[1..]) else (Failure(o.e), after, kept))
    ensures var (o, after, left) := Attempt(t, open, q, troubles[0].fault);
            var kept := RolledBack(left, troubles[0].rollbackFails);
            States(t, open, q, troubles)
            == AttemptStates(t, open, q, troubles[0].fault) + if Retries(o, troubles) then States(after, kept, q, troubles[1..]) else []
    ensures var o := Attempt(t, open, q, troubles[0].fault).0; Retries(o, troubles) ==> |troubles| > 1
  {
    hide Attempt, AttemptStates, RolledBack;
  }

  lemma Joined(a: seq<Tables>, b: seq<Tables>, c: seq<Tables>)
    ensures a + (b + c) == (a + b) + c && b + [] == b
  {
  }

  lemma LastPart(a: seq<Tables>, whole: seq<Tables>, b: seq<Tables>)
    ensures whole == a + b ==> whole[|a|..] == b
  {
  }

  lemma FoundSome(t: Tables, q: Request, slot: Slot, machine: Bytes)
    requires slot in t.bindings && slot.key == q.key && t.bindings[slot].machine == machine
    ensures Replay(t, q.key, machine).Some?
  {
    hide Replay;
    A.SlotIs(slot);
    assert Bound(t, q.key, slot.sequence, machine);
  }

  lemma GateCases(c: nat)
    ensures Acquired(false, [], c) == (true, []) && Released(true, []) == (false, [])
  {
  }
}
