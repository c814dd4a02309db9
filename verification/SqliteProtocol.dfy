/** Any number of SQLite connections allocating and reserving at once, interleaved statement by statement.
    A transaction whose ROLLBACK failed stays open on its connection: later reservations and lookups on
    that connection happen inside it, the next BEGIN there fails, and the ROLLBACK behind that discards it. */
module SqliteProtocol {
  import opened Wrappers
  import opened Errors
  import opened StorageText
  import opened Tables
  import A = SqliteAllocator

  /** Where a call stands: the statement it executed last, or its outcome. */
  datatype Pc =
    | Started | Began | NoReplay | Counted | Approved(n: nat) | Stepped(n: nat) | Written(n: nat)
    | Failing(e: Error) | Returned(n: nat) | Failed(e: Error)

  /** The latest call on a connection. */
  datatype Call = Call(q: Request, pc: Pc)

  /** The database file: committed tables, the connection that has the write lock, and the uncommitted
      tables of its transaction; and the connections. */
  datatype State = State(tables: Tables, owner: Option<nat>, pending: Tables, calls: map<nat, Call>)

  datatype Action =
    | Invoke(c: nat, q: Request)                            // a call on a connection that has none running
    | Step(c: nat)                                          // its next statement is executed
    | Fault(c: nat)                                         // its next statement fails
    | LostCommit(c: nat)                                    // COMMIT takes effect but reports an error
    | Rollback(c: nat, works: bool)                         // if it fails, the transaction stays open
    | Reserve(c: nat, reference: string, row: Mapping)      // the insert of a reservation on a connection

  function Start(t: Tables): State { State(t, None, t, map[]) }

  /** One statement inside the transaction, on the owner's tables. */
  ghost function Statement(q: Request, pc: Pc, t: Tables): (Pc, Tables)
  {
    match pc
    case Began =>
      (match MachineIdToBytes(q.machineId)
       case None => (Failing(InvalidMid), t)
       case Some(machine) =>
         match Replay(t, q.key, machine)
         case None => (NoReplay, t)
         case Some(n) =>
           if SamePolicy(t.bindings[Slot(q.key, n)].prefix, t.bindings[Slot(q.key, n)].width, q) then (Written(n), t)
           else (Failing(InvalidAllocationPolicy), t))
    case NoReplay =>
      if !CounterRowOk(q.key, q.prefix, q.width) then (Failing(AllocationConflict), t) else (Counted, WithCounter(t, q))
    case Counted =>
      (match Refusal(t, q)
       case Some(e) => (Failing(e), t)
       case None => (Approved(Last(t, q.key) + 1), t))
    case Approved(n) =>
      if q.key in t.counters then (Stepped(n), WithLast(t, q.key, n)) else (Failing(AllocationConflict), t)
    case Stepped(n) =>
      (match MachineIdToBytes(q.machineId)
       case None => (Failing(InvalidMid), t)
       case Some(machine) =>
         if q.width >= 0 && BindingFits(t, Slot(q.key, n), Binding(machine, q.prefix, q.width))
         then (Written(n), WithBinding(t, Slot(q.key, n), Binding(machine, q.prefix, q.width)))
         else (Failing(AllocationConflict), t))
    case _ => (pc, t)
  }

  predicate Inside(pc: Pc)
  {
    pc.Began? || pc.NoReplay? || pc.Counted? || pc.Approved? || pc.Stepped? || pc.Written?
  }

  /** No call is running on the connection. */
  predicate Idle(s: State, c: nat)
  {
    c in s.calls ==> s.calls[c].pc.Returned? || s.calls[c].pc.Failed?
  }

  /** What a connection between two calls reads: the committed tables, or those of the transaction that
      was left open on it. */
  function View(s: State, c: nat): Tables
  {
    if s.owner == Some(c) then s.pending else s.tables
  }

  /** What a reservation on the connection answers; another connection's transaction keeps it out. */
  function Answer(s: State, c: nat, reference: string, row: Mapping): Result<bool, Error>
  {
    if s.owner.Some? && s.owner != Some(c) then Failure(AllocationConflict) else Reservation(View(s, c), reference, row).0
  }

  /** The effect of an action; an action that is not enabled does nothing. */
  ghost function Apply(s: State, a: Action): State
  {
    match a
    case Invoke(c, q) =>
      if !Idle(s, c) then s
      else s.(calls := s.calls[c := Call(q, if 4 <= q.width <= 18 then Started else Failed(InvalidAllocationPolicy))])
    case Reserve(c, reference, row) =>
      if !Idle(s, c) then s
      else if s.owner.None? then s.(tables := Reservation(s.tables, reference, row).1)
      else if s.owner == Some(c) then s.(pending := Reservation(s.pending, reference, row).1)
      else s
    case _ =>
      if a.c !in s.calls then s
      else
        var call := s.calls[a.c];
        match a
        case Step(c) =>
          if call.pc.Started? then
            if s.owner == Some(c) then s.(calls := s.calls[c := call.(pc := Failing(AllocationConflict))])
            else if s.owner.Some? then s
            else State(s.tables, Some(c), s.tables, s.calls[c := call.(pc := Began)])
          else if call.pc.Written? then
            State(s.pending, None, s.pending, s.calls[c := call.(pc := Returned(call.pc.n))])
          else if Inside(call.pc) then
            var (pc, t) := Statement(call.q, call.pc, s.pending);
            s.(pending := t, calls := s.calls[c := call.(pc := pc)])
          else s
        case Fault(c) =>
          if call.pc.Started? || Inside(call.pc) then s.(calls := s.calls[c := call.(pc := Failing(AllocationConflict))])
          else s
        case LostCommit(c) =>
          if call.pc.Written? then
            State(s.pending, None, s.pending, s.calls[c := call.(pc := Failing(AllocationConflict))])
          else s
        case Rollback(c, works) =>
          if call.pc.Failing? then
            s.(owner := if works && s.owner == Some(c) then None else s.owner,
            calls := s.calls[c := call.(pc := Failed(call.pc.e))])
          else s
        case _ => s
  }

  ghost function Run(s: State, actions: seq<Action>): State
    decreases |actions|
  {
    if actions == [] then s else Run(Apply(s, actions[0]), actions[1..])
  }

  // ----- the invariant

  /** What the owner's tables are, relative to the committed ones, at each point of its transaction. */
  ghost predicate Stage(t: Tables, q: Request, pc: Pc, pending: Tables)
  {
    4 <= q.width <= 18 &&
    match pc
    case Began => pending == t
    case NoReplay => pending == t && Unbound(t, q)
    case Counted => Unbound(t, q) && CounterRowOk(q.key, q.prefix, q.width) && pending == WithCounter(t, q)
    case Approved(n) =>
      Unbound(t, q) && CounterRowOk(q.key, q.prefix, q.width) && pending == WithCounter(t, q)
      && Refusal(pending, q).None? && n == Last(t, q.key) + 1
    case Stepped(n) =>
      Unbound(t, q) && CounterRowOk(q.key, q.prefix, q.width) && Refusal(WithCounter(t, q), q).None?
      && n == Last(t, q.key) + 1 && q.key in WithCounter(t, q).counters && pending == WithLast(WithCounter(t, q), q.key, n)
    case Written(n) => Allocation(t, q) == (Success(n), pending)
    case _ => true
  }

  ghost predicate Unbound(t: Tables, q: Request)
  {
    MachineIdToBytes(q.machineId).Some? && Replay(t, q.key, MachineIdToBytes(q.machineId).value).None?
  }

  /** A returned number is bound, in the committed tables, to the MID it was asked for. */
  ghost predicate Settled(t: Tables, q: Request, n: nat)
  {
    MachineIdToBytes(q.machineId).Some? && Bound(t, q.key, n, MachineIdToBytes(q.machineId).value)
    && SamePolicy(t.bindings[Slot(q.key, n)].prefix, t.bindings[Slot(q.key, n)].width, q) && 4 <= q.width <= 18
  }

  ghost predicate CallOk(s: State, c: nat)
    requires c in s.calls
  {
    var call := s.calls[c];
    (call.pc.Started? ==> 4 <= call.q.width <= 18)
    && (Inside(call.pc) ==> s.owner == Some(c) && Stage(s.tables, call.q, call.pc, s.pending))
    && (call.pc.Returned? ==> Settled(s.tables, call.q, call.pc.n))
  }

  ghost predicate Invariant(s: State)
  {
    Inv(s.tables) && (s.owner.Some? ==> PendingOk(s.tables, s.pending)) && forall c :: c in s.calls ==> CallOk(s, c)
  }

  lemma StartInvariant(t: Tables)
    requires Inv(t)
    ensures Invariant(Start(t))
  {
    hide Inv, PendingOk;
  }

  // ----- one statement

  lemma StatementStage(t: Tables, q: Request, pc: Pc, pending: Tables)
    requires Inv(t) && Inside(pc) && !pc.Written? && Stage(t, q, pc, pending)
    ensures var (next, after) := Statement(q, pc, pending); Stage(t, q, next, after) && (Inside(next) || next.Failing?)
  {
    match pc {
      case Began => BeganStage(t, q);
      case NoReplay => CountedStage(t, q);
      case Counted => ApprovedStage(t, q, pending);
      case Approved(n) => SteppedStage(t, q, n, pending);
      case Stepped(n) => WrittenStage(t, q, n, pending);
    }
  }

  lemma BeganStage(t: Tables, q: Request)
    requires Inv(t) && 4 <= q.width <= 18
    ensures var (next, after) := Statement(q, Began, t); Stage(t, q, next, after) && (Inside(next) || next.Failing?)
  {
    hide Inv, MachineIdToBytes, CounterRowOk, WithCounter, Refusal, Replay, Advanced;
  }

  lemma CountedStage(t: Tables, q: Request)
    requires 4 <= q.width <= 18 && Unbound(t, q)
    ensures var (next, after) := Statement(q, NoReplay, t); Stage(t, q, next, after) && (Inside(next) || next.Failing?)
  {
    hide Inv, Unbound, CounterRowOk, WithCounter, Refusal, Replay;
  }

  lemma ApprovedStage(t: Tables, q: Request, pending: Tables)
    requires Inv(t) && Stage(t, q, Counted, pending)
    ensures var (next, after) := Statement(q, Counted, pending); Stage(t, q, next, after) && (Inside(next) || next.Failing?)
  {
    hide *;
    StageFacts(t, q, 0, pending);
    FreshPrefix(t, q);
    StatementFacts(q, 0, pending);
    match Refusal(pending, q) {
      case Some(e) => StageFailing(t, q, e, pending);
      case None => StageFacts(t, q, Last(t, q.key) + 1, pending);
    }
  }

  lemma SteppedStage(t: Tables, q: Request, n: nat, pending: Tables)
    requires Inv(t) && Stage(t, q, Approved(n), pending)
    ensures var (next, after) := Statement(q, Approved(n), pending); Stage(t, q, next, after) && (Inside(next) || next.Failing?)
  {
    hide *;
    StageFacts(t, q, n, pending);
    NoRefusal(pending, q);
    StatementFacts(q, n, pending);
    StageFacts(t, q, n, WithLast(pending, q.key, n));
  }

  lemma StageFacts(t: Tables, q: Request, n: nat, pending: Tables)
    ensures Stage(t, q, Counted, pending) <==>
              (4 <= q.width <= 18 && Unbound(t, q) && CounterRowOk(q.key, q.prefix, q.width) && pending == WithCounter(t, q))
    ensures Stage(t, q, Approved(n), pending) <==>
              (Stage(t, q, Counted, pending) && Refusal(pending, q).None? && n == Last(t, q.key) + 1)
    ensures Stage(t, q, Stepped(n), pending) <==>
              (4 <= q.width <= 18 && Stage(t, q, Approved(n), WithCounter(t, q)) && q.key in WithCounter(t, q).counters
               && pending == WithLast(WithCounter(t, q), q.key, n))
    ensures Inside(Approved(n)) && Inside(Stepped(n))
  {
    hide Allocation, Unbound, CounterRowOk, WithCounter, WithLast, Refusal, Last;
  }

  lemma StageFailing(t: Tables, q: Request, e: Error, pending: Tables)
    requires 4 <= q.width <= 18
    ensures Stage(t, q, Failing(e), pending)
  {
  }

  lemma StatementFacts(q: Request, n: nat, t: Tables)
    ensures Statement(q, Counted, t)
            == match Refusal(t, q)
               case Some(e) => (Failing(e), t)
               case None => (Approved(Last(t, q.key) + 1), t)
    ensures q.key in t.counters ==> Statement(q, Approved(n), t) == (Stepped(n), WithLast(t, q.key, n))
  {
    hide WithLast, Refusal, Last;
  }

  /** The insert of the binding never violates a key, and completes exactly one allocation. */
  lemma WrittenStage(t: Tables, q: Request, n: nat, pending: Tables)
    requires Inv(t) && Stage(t, q, Stepped(n), pending)
    ensures MachineIdToBytes(q.machineId).Some?
    ensures BindingFits(pending, Slot(q.key, n), Binding(MachineIdToBytes(q.machineId).value, q.prefix, q.width))
    ensures Statement(q, Stepped(n), pending).0 == Written(n)
    ensures Allocation(t, q) == (Success(n), Statement(q, Stepped(n), pending).1)
  {
    hide *;
    var machine := SteppedFacts(t, q, n, pending);
    A.RowsFit(t, q, machine);
    UnboundAllocation(t, q, machine);
    A.SteppedIs(WithCounter(t, q), q, machine);
    FreshPrefix(t, q);
    AdvancedUnfold(t, q, machine);
    StatementWrites(q, n, pending, machine);
  }

  lemma SteppedFacts(t: Tables, q: Request, n: nat, pending: Tables) returns (machine: Bytes)
    requires Stage(t, q, Stepped(n), pending)
    ensures MachineIdToBytes(q.machineId) == Some(machine) && Replay(t, q.key, machine).None? && 4 <= q.width <= 18
    ensures CounterRowOk(q.key, q.prefix, q.width) && Refusal(WithCounter(t, q), q).None? && n == Last(t, q.key) + 1
    ensures q.key in WithCounter(t, q).counters && pending == WithLast(WithCounter(t, q), q.key, n)
  {
    hide Inv, MachineIdToBytes, CounterRowOk, WithCounter, Refusal, Replay, Last, WithLast;
    machine := MachineIdToBytes(q.machineId).value;
  }

  lemma UnboundAllocation(t: Tables, q: Request, machine: Bytes)
    requires MachineIdToBytes(q.machineId) == Some(machine) && Replay(t, q.key, machine).None? && 4 <= q.width <= 18
    requires CounterRowOk(q.key, q.prefix, q.width) && Refusal(WithCounter(t, q), q).None?
    ensures Allocation(t, q) == (Success(Last(t, q.key) + 1), Advanced(t, q, machine))
  {
    hide Inv, MachineIdToBytes, CounterRowOk, WithCounter, Refusal, Replay, Last, Advanced;
  }

  lemma StatementWrites(q: Request, n: nat, t: Tables, machine: Bytes)
    requires MachineIdToBytes(q.machineId) == Some(machine) && q.width >= 0
    requires BindingFits(t, Slot(q.key, n), Binding(machine, q.prefix, q.width))
    ensures Statement(q, Stepped(n), t)
            == (Written(n), t.(bindings := t.bindings[Slot(q.key, n) := Binding(machine, q.prefix, q.width)]))
  {
    hide MachineIdToBytes, BindingFits;
  }

  // ----- every interleaving

  /** How the committed tables may change in one step: not at all, by one whole allocation of a call
      about to commit, or by one reservation. */
  ghost predicate AtomicStep(s: State, a: Action, t: Tables)
  {
    t == s.tables
    || ((a.Step? || a.LostCommit?) && a.c in s.calls && s.calls[a.c].pc.Written?
        && (Success(s.calls[a.c].pc.n), t) == Allocation(s.tables, s.calls[a.c].q))
    || (a.Reserve? && t == Reservation(s.tables, a.reference, a.row).1)
  }

  lemma EveryStepAtomic(s: State, a: Action)
    requires Invariant(s)
    ensures AtomicStep(s, a, Apply(s, a).tables)
  {
    hide Inv, PendingOk, Statement, Settled;
    if (a.Step? || a.LostCommit?) && a.c in s.calls { assert CallOk(s, a.c); }
  }

  lemma AtomicGrows(s: State, a: Action, t: Tables)
    requires Inv(s.tables) && AtomicStep(s, a, t)
    ensures Inv(t) && Grown(s.tables, t)
  {
    hide Inv, Grown, Allocation, Reservation;
    GrownReflexive(s.tables);
    if a.Reserve? { ReservationKeeps(s.tables, a.reference, a.row); }
    if (a.Step? || a.LostCommit?) && a.c in s.calls { AllocationKeeps(s.tables, s.calls[a.c].q); }
  }

  lemma SettledForever(a: Tables, b: Tables, q: Request, n: nat)
    requires Grown(a, b) && Settled(a, q, n)
    ensures Settled(b, q, n)
  {
    hide MachineIdToBytes, Conserved, CountersKept, ReferencesKept;
  }

  lemma StepInvariant(s: State, a: Action)
    requires Invariant(s)
    ensures Invariant(Apply(s, a)) && Grown(s.tables, Apply(s, a).tables)
  {
    hide *;
    var t := Apply(s, a);
    InvariantTables(s);
    EveryStepAtomic(s, a);
    AtomicGrows(s, a, t.tables);
    PendingKept(s, a);
    forall c | c in t.calls ensures CallOk(t, c) {
      if !a.Reserve? && c == a.c {
        ActingCall(s, a);
      } else {
        OtherCall(s, a, c);
      }
    }
    MakeInvariant(t);
  }

  lemma InvariantTables(s: State)
    requires Invariant(s)
    ensures Inv(s.tables)
  {
  }

  lemma MakeInvariant(s: State)
    requires Inv(s.tables) && (s.owner.Some? ==> PendingOk(s.tables, s.pending)) && forall c :: c in s.calls ==> CallOk(s, c)
    ensures Invariant(s)
  {
    hide Inv, PendingOk, CallOk;
  }

  /** The tables of a running transaction are consistent at every point. */
  lemma StagePending(t: Tables, q: Request, pc: Pc, pending: Tables)
    requires Inv(t) && Inside(pc) && Stage(t, q, pc, pending)
    ensures PendingOk(t, pending)
  {
    hide *;
    StageIs(t, q, pc, pending);
    if pc.Began? || pc.NoReplay? {
      PendingSame(t);
    } else if pc.Written? {
      AllocationKeeps(t, q);
      PendingGrown(t, pending);
    } else {
      PendingCounter(t, q);
    }
  }

  lemma StageIs(t: Tables, q: Request, pc: Pc, pending: Tables)
    requires Inside(pc) && Stage(t, q, pc, pending)
    ensures 4 <= q.width <= 18
    ensures pc.Began? || pc.NoReplay? ==> pending == t
    ensures pc.Written? ==> Allocation(t, q) == (Success(pc.n), pending)
    ensures pc.Counted? || pc.Approved? || pc.Stepped? ==> CounterRowOk(q.key, q.prefix, q.width)
    ensures pc.Counted? || pc.Approved? ==> pending == WithCounter(t, q)
    ensures pc.Stepped? ==>
              q.key in WithCounter(t, q).counters && Refusal(WithCounter(t, q), q).None?
              && pending == WithLast(WithCounter(t, q), q.key, Last(t, q.key) + 1)
    ensures pc.Began? || pc.NoReplay? || pc.Written? || pc.Counted? || pc.Approved? || pc.Stepped?
  {
    hide Allocation, Unbound, CounterRowOk, WithCounter, WithLast, Refusal, Last;
  }

  lemma StatementPending(t: Tables, q: Request, pc: Pc, pending: Tables)
    requires Inv(t) && Inside(pc) && !pc.Written? && Stage(t, q, pc, pending)
    ensures PendingOk(t, Statement(q, pc, pending).1)
  {
    hide *;
    var (next, after) := Statement(q, pc, pending);
    StatementStage(t, q, pc, pending);
    StatementFails(q, pc, pending);
    StagePending(t, q, pc, pending);
    if Inside(next) { StagePending(t, q, next, after); }
  }

  lemma StatementFails(q: Request, pc: Pc, t: Tables)
    ensures Statement(q, pc, t).0.Failing? ==> Statement(q, pc, t).1 == t
  {
    hide MachineIdToBytes, Replay, CounterRowOk, WithCounter, Refusal, Last, WithLast, BindingFits, WithBinding;
  }

  lemma PendingKept(s: State, a: Action)
    requires Invariant(s)
    ensures var t := Apply(s, a); t.owner.Some? ==> PendingOk(t.tables, t.pending)
  {
    PendingSame(s.tables);
    if a.Reserve? && s.owner.Some? { PendingReservation(s.tables, s.pending, a.reference, a.row); }
    if a.Step? && a.c in s.calls {
      assert CallOk(s, a.c);
      var call := s.calls[a.c];
      if Inside(call.pc) && !call.pc.Written? { StatementPending(s.tables, call.q, call.pc, s.pending); }
    }
    hide Inv, PendingOk, Statement, Stage, Settled, Reservation;
  }

  /** A step of one call leaves every other call in order: nobody else is inside a transaction. */
  lemma OtherCall(s: State, a: Action, c: nat)
    requires Invariant(s) && c in Apply(s, a).calls && (a.Reserve? || c != a.c)
    requires Grown(s.tables, Apply(s, a).tables)
    ensures CallOk(Apply(s, a), c)
  {
    hide Inv, Grown, Stage, Settled, Statement, Reservation;
    assert CallOk(s, c);
    if !a.Reserve? && a.c in s.calls { assert CallOk(s, a.c); }
    if s.calls[c].pc.Returned? { SettledForever(s.tables, Apply(s, a).tables, s.calls[c].q, s.calls[c].pc.n); }
  }

  lemma ActingCall(s: State, a: Action)
    requires Invariant(s) && !a.Reserve? && a.c in Apply(s, a).calls
    requires Grown(s.tables, Apply(s, a).tables)
    ensures CallOk(Apply(s, a), a.c)
  {
    if a.c in s.calls {
      assert CallOk(s, a.c);
      var call := s.calls[a.c];
      hide Inv, Grown, Settled, Statement, Stage;
      if call.pc.Returned? { SettledForever(s.tables, Apply(s, a).tables, call.q, call.pc.n); }
      if a.Step? {
        if call.pc.Started? {
          BeganIs(s.tables, call.q);
        } else if call.pc.Written? {
          WrittenSettles(s.tables, call.q, call.pc.n, s.pending);
        } else if Inside(call.pc) {
          StatementStage(s.tables, call.q, call.pc, s.pending);
        }
      }
    }
  }

  lemma BeganIs(t: Tables, q: Request)
    requires 4 <= q.width <= 18
    ensures Stage(t, q, Began, t)
  {
  }

  lemma WrittenSettles(t: Tables, q: Request, n: nat, after: Tables)
    requires Inv(t) && Stage(t, q, Written(n), after)
    ensures Settled(after, q, n)
  {
    hide *;
    WrittenIs(t, q, n, after);
    SettlesFrom(t, q, n);
  }

  lemma WrittenIs(t: Tables, q: Request, n: nat, after: Tables)
    requires Stage(t, q, Written(n), after)
    ensures Allocation(t, q) == (Success(n), after) && 4 <= q.width <= 18
  {
    hide Allocation;
  }

  lemma SettlesFrom(t: Tables, q: Request, n: nat)
    requires Inv(t) && 4 <= q.width <= 18 && Allocation(t, q).0 == Success(n)
    ensures Settled(Allocation(t, q).1, q, n)
  {
    hide *;
    var machine := SuccessMid(t, q);
    if Replay(t, q.key, machine).Some? {
      var slot := Slot(q.key, Replay(t, q.key, machine).value);
      BoundSlot(t, slot, machine);
      A.ReplayAllocation(t, q, machine, slot);
      MakeSettled(t, q, slot, machine);
    } else {
      AdvancedUnfold(t, q, machine);
      MakeSettled(Advanced(t, q, machine), q, Slot(q.key, n), machine);
    }
  }

  lemma SuccessMid(t: Tables, q: Request) returns (machine: Bytes)
    requires 4 <= q.width <= 18 && Allocation(t, q).0.Success?
    ensures MachineIdToBytes(q.machineId) == Some(machine)
    ensures Replay(t, q.key, machine).None? ==>
              Refusal(WithCounter(t, q), q).None? && Allocation(t, q) == (Success(Last(t, q.key) + 1), Advanced(t, q, machine))
  {
    hide MachineIdToBytes, CounterRowOk, WithCounter, Refusal, Replay, Last, Advanced;
    machine := MachineIdToBytes(q.machineId).value;
  }

  lemma BoundSlot(t: Tables, slot: Slot, machine: Bytes)
    requires Bound(t, slot.key, slot.sequence, machine)
    ensures slot in t.bindings && t.bindings[slot].machine == machine
  {
  }

  lemma MakeSettled(t: Tables, q: Request, slot: Slot, machine: Bytes)
    requires MachineIdToBytes(q.machineId) == Some(machine) && slot.key == q.key && 4 <= q.width <= 18
    requires slot in t.bindings && t.bindings[slot] == Binding(machine, q.prefix, q.width)
    ensures Settled(t, q, slot.sequence)
  {
    hide MachineIdToBytes;
  }

  /** Over every run, from any tables that satisfy the invariant: it is kept, nothing committed is
      ever lost, and each counter grows by exactly the numbers newly bound. */
  lemma {:induction false} RunInvariant(s: State, actions: seq<Action>)
    requires Invariant(s)
    ensures Invariant(Run(s, actions)) && Grown(s.tables, Run(s, actions).tables)
    decreases |actions|
  {
    hide Invariant, Grown, Apply;
    if actions == [] {
      GrownReflexive(s.tables);
    } else {
      var next := Apply(s, actions[0]);
      StepInvariant(s, actions[0]);
      RunInvariant(next, actions[1..]);
      GrownTransitive(s.tables, next.tables, Run(next, actions[1..]).tables);
    }
  }

  /** From empty tables, after any interleaving, the committed bindings of a key are a bijection
      between MIDs and exactly the numbers from 1 to the counter. */
  lemma EveryRunBijective(actions: seq<Action>, key: Key)
    ensures var t := Run(Start(Empty()), actions).tables;
            (forall n: nat :: Taken(t, key, n) <==> 1 <= n <= Last(t, key))
            && (forall n: nat, k: nat, m :: Bound(t, key, n, m) && Bound(t, key, k, m) ==> n == k)
            && |Machines(t, key)| == |Sequences(t, key)| == Last(t, key)
            && (key in t.counters ==> Last(t, key) <= Maximum(t.counters[key].width))
            && BindingsOk(t)
  {
    hide *;
    EmptyInv();
    StartInvariant(Empty());
    RunInvariant(Start(Empty()), actions);
    var t := Run(Start(Empty()), actions).tables;
    InvariantTables(Run(Start(Empty()), actions));
    StartTables(Empty());
    Bijection(t, key);
    LastFits(t, key);
    InvParts(t);
  }

  lemma StartTables(t: Tables)
    ensures Start(t).tables == t
  {
  }

  lemma InvParts(t: Tables)
    requires Inv(t)
    ensures BindingsOk(t)
  {
    hide CountersOk, PrefixesUnique, BindingsOk, MachinesUnique;
  }

  /** Two returned calls for one key got the same number exactly when they asked for the same MID. */
  lemma ReturnsAgree(s: State, c: nat, d: nat)
    requires Invariant(s) && c in s.calls && d in s.calls && s.calls[c].q.key == s.calls[d].q.key
    requires s.calls[c].pc.Returned? && s.calls[d].pc.Returned?
    ensures s.calls[c].pc.n == s.calls[d].pc.n
            <==> MachineIdToBytes(s.calls[c].q.machineId) == MachineIdToBytes(s.calls[d].q.machineId)
  {
    hide CountersOk, PrefixesUnique, BindingsOk, Stage, MachineIdToBytes, MachinesUnique;
    assert CallOk(s, c) && CallOk(s, d);
    var t, key, n, k := s.tables, s.calls[c].q.key, s.calls[c].pc.n, s.calls[d].pc.n;
    if MachineIdToBytes(s.calls[c].q.machineId) == MachineIdToBytes(s.calls[d].q.machineId) {
      OneNumber(t, key, n, k, MachineIdToBytes(s.calls[c].q.machineId).value);
    }
  }

  /** Once a call returned, in every later state an allocation with its key and MID returns the same
      number and changes nothing, and one with another prefix or width is refused and changes nothing. */
  lemma ReturnedForever(s: State, actions: seq<Action>, c: nat, q: Request)
    requires Invariant(s) && c in s.calls && s.calls[c].pc.Returned? && 4 <= q.width <= 18
    requires q.key == s.calls[c].q.key && MachineIdToBytes(q.machineId) == MachineIdToBytes(s.calls[c].q.machineId)
    ensures var t := Run(s, actions).tables;
            Allocation(t, q) == (if q.prefix == s.calls[c].q.prefix && q.width == s.calls[c].q.width then Success(s.calls[c].pc.n)
                                 else Failure(InvalidAllocationPolicy), t)
  {
    hide *;
    RunInvariant(s, actions);
    InvariantTables(s);
    InvariantTables(Run(s, actions));
    ReturnedSettled(s, c);
    SettledPolicy(s.tables, s.calls[c].q, s.calls[c].pc.n);
    ReplayForever(s.tables, Run(s, actions).tables, q, s.calls[c].pc.n);
    PolicyOf(s.tables.counters[q.key].prefix, s.tables.counters[q.key].width, q);
  }

  /** A COMMIT that took effect but reported an error stored the whole allocation: the caller gets an error,
      and in every later state the same request gets the number. */
  lemma LostCommitReplays(s: State, c: nat, actions: seq<Action>)
    requires Invariant(s) && c in s.calls && s.calls[c].pc.Written?
    ensures var call := s.calls[c];
            var lost := Apply(s, LostCommit(c));
            lost.owner.None? && c in lost.calls && lost.calls[c].pc == Failing(AllocationConflict)
            && Allocation(s.tables, call.q) == (Success(call.pc.n), lost.tables)
            && Allocation(Run(lost, actions).tables, call.q) == (Success(call.pc.n), Run(lost, actions).tables)
  {
    hide *;
    var q, n := s.calls[c].q, s.calls[c].pc.n;
    var lost := Apply(s, LostCommit(c));
    InvariantTables(s);
    LostCommitIs(s, c);
    StepInvariant(s, LostCommit(c));
    InvariantTables(lost);
    RunInvariant(lost, actions);
    InvariantTables(Run(lost, actions));
    SettlesFrom(s.tables, q, n);
    SettledPolicy(lost.tables, q, n);
    ReplayForever(lost.tables, Run(lost, actions).tables, q, n);
    PolicyOf(lost.tables.counters[q.key].prefix, lost.tables.counters[q.key].width, q);
  }

  lemma LostCommitIs(s: State, c: nat)
    requires Invariant(s) && c in s.calls && s.calls[c].pc.Written?
    ensures var lost := Apply(s, LostCommit(c));
            lost.owner.None? && c in lost.calls && lost.calls[c].pc == Failing(AllocationConflict)
            && Allocation(s.tables, s.calls[c].q) == (Success(s.calls[c].pc.n), lost.tables) && 4 <= s.calls[c].q.width <= 18
  {
    hide Inv, PendingOk, Allocation, Settled;
    assert CallOk(s, c);
  }

  lemma ReturnedSettled(s: State, c: nat)
    requires Invariant(s) && c in s.calls && s.calls[c].pc.Returned?
    ensures Settled(s.tables, s.calls[c].q, s.calls[c].pc.n)
  {
    hide Inv, Settled, Stage;
    assert CallOk(s, c);
  }

  lemma SettledPolicy(t: Tables, q: Request, n: nat)
    requires Inv(t) && Settled(t, q, n)
    ensures MachineIdToBytes(q.machineId).Some? && Bound(t, q.key, n, MachineIdToBytes(q.machineId).value)
    ensures q.key in t.counters && t.counters[q.key].prefix == q.prefix && t.counters[q.key].width == q.width
  {
    hide CountersOk, PrefixesUnique, MachinesUnique, MachineIdToBytes;
  }

  lemma PolicyOf(prefix: string, width: nat, q: Request)
    ensures SamePolicy(prefix, width, q) <==> prefix == q.prefix && width == q.width
  {
  }

  /** In any state of any run, a call about to insert its binding violates no key. */
  lemma NoKeyViolation(actions: seq<Action>, start: Tables, c: nat)
    requires Inv(start)
    requires var s := Run(Start(start), actions); c in s.calls && s.calls[c].pc.Stepped?
    ensures var s := Run(Start(start), actions);
            var q := s.calls[c].q;
            MachineIdToBytes(q.machineId).Some? && q.width >= 0
            && BindingFits(s.pending, Slot(q.key, s.calls[c].pc.n), Binding(MachineIdToBytes(q.machineId).value, q.prefix, q.width))
  {
    hide *;
    var s := Run(Start(start), actions);
    StartInvariant(start);
    RunInvariant(Start(start), actions);
    InvariantTables(s);
    SteppedCall(s, c);
    WrittenStage(s.tables, s.calls[c].q, s.calls[c].pc.n, s.pending);
  }

  lemma SteppedCall(s: State, c: nat)
    requires Invariant(s) && c in s.calls && s.calls[c].pc.Stepped?
    ensures Stage(s.tables, s.calls[c].q, Stepped(s.calls[c].pc.n), s.pending) && 4 <= s.calls[c].q.width
  {
    hide Inv, Unbound, CounterRowOk, Refusal, WithCounter, WithLast, Settled;
    assert CallOk(s, c);
  }

  // ----- a transaction left open

  /** The connection reads the row. */
  predicate Reads(s: State, c: nat, reference: string, row: Mapping)
  {
    reference in View(s, c).references && View(s, c).references[reference] == row
  }

  ghost predicate ReadsAfter(s: State, actions: seq<Action>, c: nat, reference: string, row: Mapping)
  {
    Reads(Run(s, actions), c, reference, row)
  }

  /** It reads the row whatever happens next. */
  ghost predicate Durable(s: State, c: nat, reference: string, row: Mapping)
  {
    forall actions :: ReadsAfter(s, actions, c, reference, row)
  }

  /** A reservation that was answered with true is durable, on every connection, if and only if no
      transaction was open on its own. */
  lemma ReservationDurableExactly(s: State, c: nat, reference: string, row: Mapping)
    requires Invariant(s) && Idle(s, c) && Answer(s, c, reference, row) == Success(true)
    ensures Reads(Apply(s, Reserve(c, reference, row)), c, reference, row)
    ensures (forall d: nat :: Durable(Apply(s, Reserve(c, reference, row)), d, reference, row)) <==> s.owner != Some(c)
    ensures Durable(Apply(s, Reserve(c, reference, row)), c, reference, row) <==> s.owner != Some(c)
  {
    hide *;
    var next := Apply(s, Reserve(c, reference, row));
    ReserveStores(s, c, reference, row);
    StepInvariant(s, Reserve(c, reference, row));
    if s.owner == Some(c) {
      var q := Request([], Key([], []), [], 4);
      var actions := [Invoke(c, q), Step(c), Rollback(c, true)];
      LeftDiscarded(next, c, q);
      Unread(Run(next, actions), c, reference, row);
      NotDurable(next, c, reference, row, actions);
    } else {
      forall d: nat ensures Durable(next, d, reference, row) {
        StoredDurable(next, d, reference, row);
      }
    }
  }

  lemma ReserveStores(s: State, c: nat, reference: string, row: Mapping)
    requires Invariant(s) && Idle(s, c) && Answer(s, c, reference, row) == Success(true)
    ensures var next := Apply(s, Reserve(c, reference, row));
            Reads(next, c, reference, row) && Idle(next, c) && next.owner == s.owner
            && if s.owner == Some(c) then reference !in next.tables.references
               else s.owner.None? && reference in next.tables.references && next.tables.references[reference] == row
  {
    ReservationShape(View(s, c), reference, row);
    ReservedRow(View(s, c), reference, row);
    hide Inv, CallOk, Reservation, BindingsKept;
  }

  lemma ReservedRow(t: Tables, reference: string, row: Mapping)
    requires Reservation(t, reference, row).0 == Success(true)
    ensures reference !in t.references
    ensures reference in Reservation(t, reference, row).1.references
            && Reservation(t, reference, row).1.references[reference] == row
  {
    hide ReferenceRowOk;
  }

  /** A committed row is read on every connection, for ever. */
  lemma StoredDurable(s: State, d: nat, reference: string, row: Mapping)
    requires Invariant(s) && reference in s.tables.references && s.tables.references[reference] == row
    ensures Durable(s, d, reference, row)
  {
    hide Invariant, Run, Grown, ReadsAfter, Reads;
    forall actions ensures ReadsAfter(s, actions, d, reference, row) {
      RunInvariant(s, actions);
      StoredReads(s.tables, Run(s, actions), d, reference, row);
      ReadsAfterIs(s, actions, d, reference, row);
    }
  }

  lemma StoredReads(t: Tables, s: State, d: nat, reference: string, row: Mapping)
    requires Invariant(s) && Grown(t, s.tables) && reference in t.references && t.references[reference] == row
    ensures Reads(s, d, reference, row)
  {
    hide Inv, CallOk, CountersKept, BindingsKept, Conserved;
  }

  lemma ReadsAfterIs(s: State, actions: seq<Action>, d: nat, reference: string, row: Mapping)
    ensures ReadsAfter(s, actions, d, reference, row) <==> Reads(Run(s, actions), d, reference, row)
  {
    hide Reads, Run;
  }

  lemma NotDurable(s: State, d: nat, reference: string, row: Mapping, actions: seq<Action>)
    requires !Reads(Run(s, actions), d, reference, row)
    ensures !Durable(s, d, reference, row)
  {
    hide Reads, Run;
    assert !ReadsAfter(s, actions, d, reference, row);
  }

  lemma Unread(s: State, c: nat, reference: string, row: Mapping)
    requires s.owner.None? && reference !in s.tables.references
    ensures !Reads(s, c, reference, row)
  {
  }

  lemma RunThree(s: State, a: Action, b: Action, c: Action)
    ensures Run(s, [a, b, c]) == Apply(Apply(Apply(s, a), b), c)
  {
    hide Apply;
    assert [a, b, c][1..] == [b, c] && [b, c][1..] == [c] && [c][1..] == [];
    var next := Apply(s, a);
    assert Run(s, [a, b, c]) == Run(next, [b, c]);
    assert Run(next, [b, c]) == Run(Apply(next, b), [c]);
    assert Run(Apply(next, b), [c]) == Run(Apply(Apply(next, b), c), []);
  }

  /** Behind a failed ROLLBACK the next allocation on the connection fails at BEGIN; its own ROLLBACK
      discards what was left and frees the write lock. */
  lemma LeftDiscarded(s: State, c: nat, q: Request)
    requires Idle(s, c) && s.owner == Some(c) && 4 <= q.width <= 18
    ensures Run(s, [Invoke(c, q), Step(c), Rollback(c, true)])
            == State(s.tables, None, s.pending, s.calls[c := Call(q, Failed(AllocationConflict))])
  {
    RunThree(s, Invoke(c, q), Step(c), Rollback(c, true));
    hide Run, Statement;
    var s1 := Apply(s, Invoke(c, q));
    var s2 := Apply(s1, Step(c));
    assert s1 == s.(calls := s.calls[c := Call(q, Started)]);
    assert s2.calls == s.calls[c := Call(q, Failing(AllocationConflict))];
  }

  /** The reference is in no committed row, and not among the rows of a transaction that may yet commit. */
  predicate Absent(s: State, reference: string)
  {
    reference !in s.tables.references
    && (s.owner.Some? && s.owner.value in s.calls && Inside(s.calls[s.owner.value].pc) ==> reference !in s.pending.references)
  }

  /** A reservation inside a transaction that was left open is never committed: unless the reference is
      reserved anew, no continuation has it in the committed tables. */
  lemma LeftNeverCommitted(s: State, c: nat, reference: string, row: Mapping, actions: seq<Action>)
    requires Invariant(s) && Idle(s, c) && s.owner == Some(c) && Answer(s, c, reference, row) == Success(true)
    requires forall a :: a in actions && a.Reserve? ==> a.reference != reference
    ensures reference !in Run(Apply(s, Reserve(c, reference, row)), actions).tables.references
  {
    hide *;
    var next := Apply(s, Reserve(c, reference, row));
    ReserveStores(s, c, reference, row);
    StepInvariant(s, Reserve(c, reference, row));
    IdleAbsent(next, c, reference);
    StaysAbsent(next, reference, actions);
  }

  lemma IdleAbsent(s: State, c: nat, reference: string)
    requires Idle(s, c) && s.owner == Some(c) && reference !in s.tables.references
    ensures Absent(s, reference)
  {
  }

  lemma {:induction false} StaysAbsent(s: State, reference: string, actions: seq<Action>)
    requires Invariant(s) && Absent(s, reference)
    requires forall a :: a in actions && a.Reserve? ==> a.reference != reference
    ensures reference !in Run(s, actions).tables.references
    decreases |actions|
  {
    hide Invariant, Apply, Absent;
    if actions == [] {
      AbsentIs(s, reference);
    } else {
      StepInvariant(s, actions[0]);
      StepAbsent(s, reference, actions[0]);
      StaysAbsent(Apply(s, actions[0]), reference, actions[1..]);
    }
  }

  lemma AbsentIs(s: State, reference: string)
    requires Absent(s, reference)
    ensures reference !in s.tables.references
  {
  }

  lemma StepAbsent(s: State, reference: string, a: Action)
    requires Invariant(s) && Absent(s, reference) && (a.Reserve? ==> a.reference != reference)
    ensures Absent(Apply(s, a), reference)
  {
    hide Inv, PendingOk, Statement, Stage, Settled, Reservation;
    if a.Reserve? {
      OtherReference(s.tables, a.reference, a.row, reference);
      OtherReference(s.pending, a.reference, a.row, reference);
    } else if a.c in s.calls {
      assert CallOk(s, a.c);
      StatementReferences(s.calls[a.c].q, s.calls[a.c].pc, s.pending);
    }
  }

  lemma OtherReference(t: Tables, reference: string, row: Mapping, other: string)
    requires reference != other
    ensures other in Reservation(t, reference, row).1.references <==> other in t.references
  {
    hide ReferenceRowOk;
  }

  lemma StatementReferences(q: Request, pc: Pc, t: Tables)
    ensures Statement(q, pc, t).1.references == t.references
  {
    hide MachineIdToBytes, Replay, CounterRowOk, Refusal, Last, BindingFits, PrefixTaken;
  }

  /** Every open transaction belongs to a running call. */
  predicate NoneLeft(s: State)
  {
    s.owner.Some? ==> !Idle(s, s.owner.value)
  }

  /** A step in which no ROLLBACK fails leaves no transaction open on an idle connection. */
  lemma WorkingStep(s: State, a: Action)
    requires NoneLeft(s) && (a.Rollback? ==> a.works)
    ensures NoneLeft(Apply(s, a))
  {
    hide Statement, Reservation;
    if a.Step? && a.c in s.calls { StatementRuns(s.calls[a.c].q, s.calls[a.c].pc, s.pending); }
  }

  lemma StatementRuns(q: Request, pc: Pc, t: Tables)
    ensures Inside(pc) ==> Inside(Statement(q, pc, t).0) || Statement(q, pc, t).0.Failing?
  {
    hide MachineIdToBytes, Replay, CounterRowOk, WithCounter, Refusal, Last, WithLast, BindingFits, WithBinding;
  }

  // ----- what an action leaves alone

  lemma KeepsCalls(s: State, a: Action)
    requires !a.Invoke?
    ensures forall c :: c in s.calls ==> c in Apply(s, a).calls && Apply(s, a).calls[c].q == s.calls[c].q
    ensures forall c: nat :: Idle(s, c) ==> Idle(Apply(s, a), c)
  {
    hide Statement, Reservation;
  }

  lemma InvokeEffect(s: State, c: nat, q: Request)
    requires Idle(s, c)
    ensures Apply(s, Invoke(c, q))
            == s.(calls := s.calls[c := Call(q, if 4 <= q.width <= 18 then Started else Failed(InvalidAllocationPolicy))])
  {
  }

  lemma ReserveEffect(s: State, c: nat, reference: string, row: Mapping)
    requires Idle(s, c)
    ensures var next := Apply(s, Reserve(c, reference, row));
            next.calls == s.calls && next.owner == s.owner
            && if Answer(s, c, reference, row) != Success(true) then next == s
               else if s.owner == Some(c) then
                 reference !in s.pending.references
                 && next == s.(pending := s.pending.(references := s.pending.references[reference := row]))
               else
                 s.owner.None? && reference !in s.tables.references
                 && next == s.(tables := s.tables.(references := s.tables.references[reference := row]))
  {
    hide ReferenceRowOk;
  }

  lemma PendingReferences(s: State, a: Action)
    requires !a.Invoke? && !a.Reserve?
    ensures Apply(s, a).owner.Some? ==>
              Apply(s, a).pending.references == if s.owner.Some? then s.pending.references else s.tables.references
  {
    if a.c in s.calls { StatementReferences(s.calls[a.c].q, s.calls[a.c].pc, s.pending); }
    hide Statement;
  }

  lemma AtomicIs(s: State, a: Action, t: Tables)
    requires AtomicStep(s, a, t) && !a.Invoke? && !a.Reserve?
    ensures t != s.tables ==>
              a.c in s.calls && s.calls[a.c].pc.Written? && (Success(s.calls[a.c].pc.n), t) == Allocation(s.tables, s.calls[a.c].q)
  {
    hide Allocation;
  }

  /** A call about to commit is running, for a width in range. */
  lemma WrittenRuns(s: State, c: nat)
    requires Invariant(s) && c in s.calls && s.calls[c].pc.Written?
    ensures !Idle(s, c) && 4 <= s.calls[c].q.width <= 18
  {
    hide Inv, PendingOk, Allocation, Settled;
    assert CallOk(s, c);
  }

  // ----- an undisturbed call

  /** The next `k` statements of call 0 succeed. */
  ghost function Steps(s: State, k: nat): State
    decreases k
  {
    if k == 0 then s else Steps(Apply(s, Step(0)), k - 1)
  }

  /** Call 0 ended with this result and left these tables, without the write lock. */
  ghost predicate EndsAs(s: State, end: (Result<nat, Error>, Tables))
  {
    s.tables == end.1 && s.owner.None? && 0 in s.calls
    && s.calls[0].pc == match end.0 case Success(n) => Returned(n) case Failure(e) => Failed(e)
  }

  /** Call 0 alone, inside its transaction. */
  function Alone(t: Tables, pending: Tables, q: Request, pc: Pc): State
  {
    State(t, Some(0), pending, map[0 := Call(q, pc)])
  }

  lemma AloneStep(t: Tables, pending: Tables, q: Request, pc: Pc, k: nat)
    requires Inside(pc) && !pc.Written? && k > 0
    ensures var (next, after) := Statement(q, pc, pending);
            Steps(Alone(t, pending, q, pc), k) == Steps(Alone(t, after, q, next), k - 1)
  {
    var (next, after) := Statement(q, pc, pending);
    hide Statement, Steps;
    StepsUnfold(Alone(t, pending, q, pc), k);
    assert map[0 := Call(q, pc)][0 := Call(q, next)] == map[0 := Call(q, next)];
  }

  lemma StepsUnfold(s: State, k: nat)
    requires k > 0
    ensures Steps(s, k) == Steps(Apply(s, Step(0)), k - 1)
  {
    hide Apply;
  }

  lemma {:induction false} Stopped(s: State, k: nat)
    requires 0 in s.calls && !s.calls[0].pc.Started? && !Inside(s.calls[0].pc)
    ensures Steps(s, k) == s
    decreases k
  {
    if k > 0 {
      hide Statement;
      Stopped(s, k - 1);
    }
  }

  /** A refused call stops, and its rollback frees the lock. */
  lemma AloneFails(t: Tables, pending: Tables, q: Request, e: Error, k: nat)
    ensures var s := Apply(Steps(Alone(t, pending, q, Failing(e)), k), Rollback(0, true));
            EndsAs(s, (Failure(e), t))
  {
    Stopped(Alone(t, pending, q, Failing(e)), k);
    hide Steps;
  }

  lemma AloneCommits(t: Tables, pending: Tables, q: Request, n: nat, k: nat)
    requires k > 0
    ensures var s := Apply(Steps(Alone(t, pending, q, Written(n)), k), Rollback(0, true));
            EndsAs(s, (Success(n), pending))
  {
    hide Steps;
    var done := State(pending, None, pending, map[0 := Call(q, Returned(n))]);
    StepsUnfold(Alone(t, pending, q, Written(n)), k);
    assert map[0 := Call(q, Written(n))][0 := Call(q, Returned(n))] == map[0 := Call(q, Returned(n))];
    assert Apply(Alone(t, pending, q, Written(n)), Step(0)) == done;
    Stopped(done, k - 1);
  }

  /** An undisturbed call ends with exactly the result and the tables of the atomic step. */
  lemma LoneCall(t: Tables, q: Request)
    requires Inv(t)
    ensures var s := Apply(Steps(Apply(Start(t), Invoke(0, q)), 7), Rollback(0, true));
            EndsAs(s, Allocation(t, q))
  {
    hide *;
    if q.width < 4 || q.width > 18 {
      A.WidthRefused(t, q);
      NarrowCall(t, q);
    } else {
      LoneBegin(t, q, 7);
      if MachineIdToBytes(q.machineId).None? {
        A.MidRefused(t, q);
        BeganCases(t, q);
        AloneFails(t, t, q, InvalidMid, 5);
      } else {
        LoneReplay(t, q, MachineIdToBytes(q.machineId).value);
      }
    }
  }

  lemma NarrowCall(t: Tables, q: Request)
    requires q.width < 4 || q.width > 18
    ensures var s := Apply(Steps(Apply(Start(t), Invoke(0, q)), 7), Rollback(0, true));
            EndsAs(s, (Failure(InvalidAllocationPolicy), t))
  {
    Stopped(Apply(Start(t), Invoke(0, q)), 7);
    hide Steps;
  }

  lemma LoneBegin(t: Tables, q: Request, k: nat)
    requires 4 <= q.width <= 18 && k >= 2
    ensures Steps(Apply(Start(t), Invoke(0, q)), k)
            == Steps(Alone(t, Statement(q, Began, t).1, q, Statement(q, Began, t).0), k - 2)
  {
    hide Steps, Statement;
    var s := Apply(Start(t), Invoke(0, q));
    StepsUnfold(s, k);
    assert map[][0 := Call(q, Started)][0 := Call(q, Began)] == map[0 := Call(q, Began)];
    assert Apply(s, Step(0)) == Alone(t, t, q, Began);
    AloneStep(t, t, q, Began, k - 1);
  }

  lemma BeganCases(t: Tables, q: Request)
    ensures MachineIdToBytes(q.machineId).None? ==> Statement(q, Began, t) == (Failing(InvalidMid), t)
    ensures MachineIdToBytes(q.machineId).Some? ==>
              var replay := Replay(t, q.key, MachineIdToBytes(q.machineId).value);
              if replay.None? then Statement(q, Began, t) == (NoReplay, t)
              else Slot(q.key, replay.value) in t.bindings
                   && t.bindings[Slot(q.key, replay.value)].machine == MachineIdToBytes(q.machineId).value
                   && Statement(q, Began, t)
                      == (if t.bindings[Slot(q.key, replay.value)].prefix == q.prefix
                             && t.bindings[Slot(q.key, replay.value)].width == q.width then Written(replay.value)
                          else Failing(InvalidAllocationPolicy), t)
  {
    hide MachineIdToBytes, Replay;
  }

  lemma LoneReplay(t: Tables, q: Request, machine: Bytes)
    requires Inv(t) && 4 <= q.width <= 18 && MachineIdToBytes(q.machineId) == Some(machine)
    ensures var s := Apply(Steps(Alone(t, Statement(q, Began, t).1, q, Statement(q, Began, t).0), 5), Rollback(0, true));
            EndsAs(s, Allocation(t, q))
  {
    hide *;
    BeganCases(t, q);
    var replay := Replay(t, q.key, machine);
    if replay.Some? {
      A.ReplayAllocation(t, q, machine, Slot(q.key, replay.value));
      AloneCommits(t, t, q, replay.value, 5);
      AloneFails(t, t, q, InvalidAllocationPolicy, 5);
    } else {
      LoneCounter(t, q, machine);
    }
  }

  lemma LoneCounter(t: Tables, q: Request, machine: Bytes)
    requires Inv(t) && 4 <= q.width <= 18 && MachineIdToBytes(q.machineId) == Some(machine) && Replay(t, q.key, machine).None?
    ensures var s := Apply(Steps(Alone(t, t, q, NoReplay), 5), Rollback(0, true));
            EndsAs(s, Allocation(t, q))
  {
    hide *;
    FreshCases(t, q, machine);
    InsidePcs(0);
    AloneStep(t, t, q, NoReplay, 5);
    if !CounterRowOk(q.key, q.prefix, q.width) {
      AloneFails(t, t, q, AllocationConflict, 4);
    } else {
      var t1 := WithCounter(t, q);
      StatementFacts(q, 0, t1);
      AloneStep(t, t1, q, Counted, 4);
      match Refusal(t1, q) {
        case Some(e) => AloneFails(t, t1, q, e, 3);
        case None =>
          LoneAdvance(t, q, machine, 3);
          AloneCommits(t, Allocation(t, q).1, q, Last(t, q.key) + 1, 1);
      }
    }
  }

  lemma InsidePcs(n: nat)
    ensures Inside(NoReplay) && Inside(Counted) && Inside(Approved(n)) && Inside(Stepped(n))
  {
  }

  lemma FreshCases(t: Tables, q: Request, machine: Bytes)
    requires 4 <= q.width <= 18 && MachineIdToBytes(q.machineId) == Some(machine) && Replay(t, q.key, machine).None?
    ensures Statement(q, NoReplay, t)
            == if !CounterRowOk(q.key, q.prefix, q.width) then (Failing(AllocationConflict), t) else (Counted, WithCounter(t, q))
    ensures !CounterRowOk(q.key, q.prefix, q.width) ==> Allocation(t, q) == (Failure(AllocationConflict), t)
    ensures CounterRowOk(q.key, q.prefix, q.width) ==>
              match Refusal(WithCounter(t, q), q)
              case Some(e) => Allocation(t, q) == (Failure(e), t)
              case None => true
  {
    hide MachineIdToBytes, CounterRowOk, WithCounter, Refusal, Replay, Last, Advanced;
  }

  lemma LoneAdvance(t: Tables, q: Request, machine: Bytes, k: nat)
    requires Inv(t) && 4 <= q.width <= 18 && MachineIdToBytes(q.machineId) == Some(machine) && Replay(t, q.key, machine).None?
    requires CounterRowOk(q.key, q.prefix, q.width) && Refusal(WithCounter(t, q), q).None? && k >= 2
    ensures var t1 := WithCounter(t, q);
            var n := Last(t, q.key) + 1;
            n == Last(t1, q.key) + 1 && Allocation(t, q).0 == Success(n)
            && Steps(Alone(t, t1, q, Approved(n)), k) == Steps(Alone(t, Allocation(t, q).1, q, Written(n)), k - 2)
  {
    hide *;
    var t1 := WithCounter(t, q);
    FreshPrefix(t, q);
    NoRefusal(t1, q);
    var n := Last(t, q.key) + 1;
    InsidePcs(n);
    StatementFacts(q, n, t1);
    AloneStep(t, t1, q, Approved(n), k);
    var t2 := WithLast(t1, q.key, n);
    UnboundIs(t, q, machine);
    StageFacts(t, q, n, t1);
    StageFacts(t, q, n, t2);
    WrittenStage(t, q, n, t2);
    AloneStep(t, t2, q, Stepped(n), k - 1);
  }

  lemma UnboundIs(t: Tables, q: Request, machine: Bytes)
    requires MachineIdToBytes(q.machineId) == Some(machine) && Replay(t, q.key, machine).None?
    ensures Unbound(t, q)
  {
    hide MachineIdToBytes, Replay;
  }

  // ----- what a failed ROLLBACK makes possible

  lemma RunFour(s: State, a: Action, b: Action, c: Action, d: Action)
    ensures Run(s, [a, b, c, d]) == Apply(Apply(Apply(Apply(s, a), b), c), d)
  {
    assert [a, b, c, d][1..] == [b, c, d];
    assert Run(s, [a, b, c, d]) == Run(Apply(s, a), [b, c, d]);
    hide *;
    RunThree(Apply(s, a), b, c, d);
  }

  /** From any tables: an allocation fails and so does its ROLLBACK; a reservation on the connection is
      answered with true; the next allocation discards it; and the reference goes to another MID. */
  lemma VoidedReservation(t: Tables, q: Request, reference: string, first: Mapping, second: Mapping)
    requires Inv(t) && 4 <= q.width <= 18
    requires Reservation(t, reference, first).0 == Reservation(t, reference, second).0 == Success(true)
    ensures var left := Run(Start(t), [Invoke(0, q), Step(0), Fault(0), Rollback(0, false)]);
            var voided := Run(Apply(left, Reserve(0, reference, first)), [Invoke(0, q), Step(0), Rollback(0, true)]);
            var again := Apply(voided, Reserve(0, reference, second));
            Idle(left, 0) && Answer(left, 0, reference, first) == Success(true)
            && Idle(voided, 0) && Answer(voided, 0, reference, second) == Success(true)
            && reference in again.tables.references && again.tables.references[reference] == second
  {
    hide *;
    LeftBehind(t, q);
    var left := Run(Start(t), [Invoke(0, q), Step(0), Fault(0), Rollback(0, false)]);
    ReserveInside(left, 0, reference, first);
    var inside := Apply(left, Reserve(0, reference, first));
    LeftDiscarded(inside, 0, q);
    ReserveOutside(Run(inside, [Invoke(0, q), Step(0), Rollback(0, true)]), t, 0, reference, second);
  }

  lemma LeftBehind(t: Tables, q: Request)
    requires 4 <= q.width <= 18
    ensures Run(Start(t), [Invoke(0, q), Step(0), Fault(0), Rollback(0, false)])
            == State(t, Some(0), t, map[0 := Call(q, Failed(AllocationConflict))])
  {
    RunFour(Start(t), Invoke(0, q), Step(0), Fault(0), Rollback(0, false));
    hide Run, Statement;
    var failed := Call(q, Failed(AllocationConflict));
    assert map[][0 := Call(q, Started)][0 := Call(q, Began)][0 := Call(q, Failing(AllocationConflict))][0 := failed]
           == map[0 := failed];
  }

  lemma ReserveInside(s: State, c: nat, reference: string, row: Mapping)
    requires c in s.calls && s.calls[c].pc.Failed? && s.owner == Some(c)
    requires Reservation(s.pending, reference, row).0 == Success(true)
    ensures Idle(s, c) && Answer(s, c, reference, row) == Success(true)
    ensures var next := Apply(s, Reserve(c, reference, row));
            Idle(next, c) && next.owner == Some(c) && next.tables == s.tables && next.calls == s.calls
  {
    hide Reservation;
  }

  lemma ReserveOutside(s: State, t: Tables, c: nat, reference: string, row: Mapping)
    requires c in s.calls && s.calls[c].pc.Failed? && s.owner.None? && s.tables == t
    requires Reservation(t, reference, row).0 == Success(true)
    ensures Idle(s, c) && Answer(s, c, reference, row) == Success(true)
    ensures var next := Apply(s, Reserve(c, reference, row));
            reference in next.tables.references && next.tables.references[reference] == row
  {
    ReservedRow(t, reference, row);
    hide Reservation;
  }

  /** Call 0 has failed; its connection reads `pending`, all others read `t`. */
  ghost predicate Split(s: State, t: Tables, pending: Tables)
  {
    Idle(s, 0) && 0 in s.calls && s.calls[0].pc == Failed(AllocationConflict) && View(s, 0) == pending
    && forall d: nat :: d != 0 ==> View(s, d) == t
  }

  /** When COMMIT and then ROLLBACK fail, the connection reads the whole uncommitted allocation, binding
      included; every other connection reads the tables without it. */
  lemma LeftReadable(t: Tables, q: Request)
    requires Inv(t) && Unbound(t, q) && Allocation(t, q).0.Success?
    ensures var s := Apply(Apply(Steps(Apply(Start(t), Invoke(0, q)), 6), Fault(0)), Rollback(0, false));
            Split(s, t, Allocation(t, q).1)
  {
    hide *;
    var machine := UnboundMachine(t, q);
    FreshWritten(t, q, machine);
    LeftWritten(t, Allocation(t, q).1, q, Last(t, q.key) + 1);
  }

  lemma UnboundMachine(t: Tables, q: Request) returns (machine: Bytes)
    requires Unbound(t, q)
    ensures MachineIdToBytes(q.machineId) == Some(machine) && Replay(t, q.key, machine).None?
  {
    hide MachineIdToBytes, Replay;
    machine := MachineIdToBytes(q.machineId).value;
  }

  /** Six statements in, the whole allocation is written. */
  lemma FreshWritten(t: Tables, q: Request, machine: Bytes)
    requires Inv(t) && MachineIdToBytes(q.machineId) == Some(machine) && Replay(t, q.key, machine).None?
    requires Allocation(t, q).0.Success?
    ensures Steps(Apply(Start(t), Invoke(0, q)), 6) == Alone(t, Allocation(t, q).1, q, Written(Last(t, q.key) + 1))
  {
    hide *;
    if q.width < 4 || q.width > 18 { A.WidthRefused(t, q); }
    LoneBegin(t, q, 6);
    BeganCases(t, q);
    FreshCases(t, q, machine);
    InsidePcs(0);
    AloneStep(t, t, q, NoReplay, 4);
    var t1 := WithCounter(t, q);
    StatementFacts(q, 0, t1);
    AloneStep(t, t1, q, Counted, 3);
    LoneAdvance(t, q, machine, 2);
    NoSteps(Alone(t, Allocation(t, q).1, q, Written(Last(t, q.key) + 1)));
  }

  lemma NoSteps(s: State)
    ensures Steps(s, 0) == s
  {
  }

  lemma LeftWritten(t: Tables, pending: Tables, q: Request, n: nat)
    ensures var s := Apply(Apply(Alone(t, pending, q, Written(n)), Fault(0)), Rollback(0, false));
            Split(s, t, pending)
  {
  }

  // ----- runs taken apart

  lemma {:induction false} RunConcat(s: State, a: seq<Action>, b: seq<Action>)
    ensures Run(s, a + b) == Run(Run(s, a), b)
    decreases |a|
  {
    hide Apply;
    if a == [] {
      assert a + b == b;
    } else {
      assert (a + b)[0] == a[0] && (a + b)[1..] == a[1..] + b;
      RunConcat(Apply(s, a[0]), a[1..], b);
    }
  }

  lemma RunOne(s: State, a: Action)
    ensures Run(s, [a]) == Apply(s, a)
  {
    hide Apply;
    assert [a][1..] == [];
    assert Run(s, [a]) == Run(Apply(s, a), []);
  }

  lemma {:induction false} StepsRun(s: State, k: nat)
    ensures Run(s, seq(k, _ => Step(0))) == Steps(s, k)
    decreases k
  {
    hide Apply;
    if k > 0 {
      var steps := seq(k, _ => Step(0));
      assert steps[0] == Step(0) && steps[1..] == seq(k - 1, _ => Step(0));
      StepsRun(Apply(s, Step(0)), k - 1);
    }
  }

  /** Seven statements are enough for every call; the rollback behind them is for a refused one. */
  function LoneSteps(): seq<Action> { seq(7, _ => Step(0)) + [Rollback(0, true)] }

  lemma LoneRun(t: Tables, q: Request)
    requires Inv(t)
    ensures EndsAs(Run(Apply(Start(t), Invoke(0, q)), LoneSteps()), Allocation(t, q))
  {
    var s := Apply(Start(t), Invoke(0, q));
    RunConcat(s, seq(7, _ => Step(0)), [Rollback(0, true)]);
    hide *;
    StepsRun(s, 7);
    RunOne(Steps(s, 7), Rollback(0, true));
    LoneCall(t, q);
  }

  /** The statements of an allocation that fails behind BEGIN, ROLLBACK included. */
  function FailingSteps(): seq<Action> { [Step(0), Fault(0), Rollback(0, false)] }

  /** Those of one that fails at BEGIN, its ROLLBACK working. */
  function RefusedSteps(): seq<Action> { [Step(0), Rollback(0, true)] }

  lemma FailingRun(t: Tables, q: Request)
    requires 4 <= q.width <= 18
    ensures Run(Apply(Start(t), Invoke(0, q)), FailingSteps())
            == State(t, Some(0), t, map[0 := Call(q, Failed(AllocationConflict))])
  {
    LeftBehind(t, q);
    assert [Invoke(0, q), Step(0), Fault(0), Rollback(0, false)] == [Invoke(0, q)] + FailingSteps();
    hide *;
    RunConcat(Start(t), [Invoke(0, q)], FailingSteps());
    RunOne(Start(t), Invoke(0, q));
  }

  lemma RefusedRun(s: State, q: Request)
    requires Idle(s, 0) && s.owner == Some(0) && 4 <= q.width <= 18
    ensures Run(Apply(s, Invoke(0, q)), RefusedSteps())
            == State(s.tables, None, s.pending, s.calls[0 := Call(q, Failed(AllocationConflict))])
  {
    LeftDiscarded(s, 0, q);
    assert [Invoke(0, q), Step(0), Rollback(0, true)] == [Invoke(0, q)] + RefusedSteps();
    hide *;
    RunConcat(s, [Invoke(0, q)], RefusedSteps());
    RunOne(s, Invoke(0, q));
  }

  lemma LoneStepsIs()
    ensures forall i :: 0 <= i < |LoneSteps()| ==> !LoneSteps()[i].Invoke? && !LoneSteps()[i].Reserve?
  {
  }

  lemma FailingStepsAre()
    ensures forall i :: 0 <= i < |FailingSteps()| ==> !FailingSteps()[i].Invoke? && !FailingSteps()[i].Reserve?
  {
  }

  lemma RefusedStepsAre()
    ensures forall i :: 0 <= i < |RefusedSteps()| ==> !RefusedSteps()[i].Invoke? && !RefusedSteps()[i].Reserve?
  {
  }

  // ----- exactly when a transaction is left open

  /** A ROLLBACK that meets the open transaction of connection `c`, and works or fails. */
  predicate Ends(s: State, a: Action, c: nat, works: bool)
  {
    a == Rollback(c, works) && s.owner == Some(c) && c in s.calls && s.calls[c].pc.Failing?
  }

  ghost predicate EndsAt(s: State, actions: seq<Action>, c: nat, works: bool, i: nat)
  {
    i < |actions| && Ends(Run(s, actions[..i]), actions[i], c, works)
  }

  /** Some ROLLBACK of the connection failed, and none has worked since. */
  ghost predicate LastFailed(s: State, actions: seq<Action>, c: nat)
  {
    exists i: nat :: EndsAt(s, actions, c, false, i) && forall j: nat :: i < j ==> !EndsAt(s, actions, c, true, j)
  }

  /** Over every run, a transaction is open on an idle connection if and only if the last ROLLBACK that
      met an open transaction there failed. */
  lemma LeftOpenExactly(t: Tables, actions: seq<Action>, c: nat)
    requires Inv(t) && Idle(Run(Start(t), actions), c)
    ensures Run(Start(t), actions).owner == Some(c) <==> LastFailed(Start(t), actions, c)
  {
    hide Run, LastFailed, Inv;
    OpenSince(t, actions, c);
  }

  predicate Outside(s: State, c: nat)
  {
    Idle(s, c) || s.calls[c].pc.Started?
  }

  lemma {:induction false} OpenSince(t: Tables, actions: seq<Action>, c: nat)
    requires Inv(t)
    ensures var s := Run(Start(t), actions);
            (s.owner == Some(c) && Outside(s, c) ==> LastFailed(Start(t), actions, c))
            && (LastFailed(Start(t), actions, c) ==> s.owner == Some(c) && (Outside(s, c) || s.calls[c].pc.Failing?))
    decreases |actions|
  {
    hide *;
    if actions == [] {
      NoActions(t, c);
    } else {
      var before, a := actions[..|actions| - 1], actions[|actions| - 1];
      assert actions == before + [a];
      OpenSince(t, before, c);
      StartInvariant(t);
      RunInvariant(Start(t), before);
      RunConcat(Start(t), before, [a]);
      RunOne(Run(Start(t), before), a);
      LastStep(Start(t), before, a, c);
      OpenStep(Run(Start(t), before), a, c);
    }
  }

  lemma NoActions(t: Tables, c: nat)
    ensures Run(Start(t), []).owner != Some(c) && !LastFailed(Start(t), [], c)
  {
    hide Ends;
  }

  lemma LastStep(s: State, before: seq<Action>, a: Action, c: nat)
    ensures LastFailed(s, before + [a], c)
            <==> Ends(Run(s, before), a, c, false) || (LastFailed(s, before, c) && !Ends(Run(s, before), a, c, true))
  {
    hide Run, Ends;
    var actions := before + [a];
    forall works: bool, i: nat ensures EndsAt(s, actions, c, works, i)
                                       <==> EndsAt(s, before, c, works, i) || (i == |before| && Ends(Run(s, before), a, c, works)) {
      if i < |before| { assert actions[..i] == before[..i]; }
      if i == |before| { assert actions[..i] == before; }
    }
    hide EndsAt;
    if Ends(Run(s, before), a, c, false) { assert EndsAt(s, actions, c, false, |before|); }
    if LastFailed(s, before, c) && !Ends(Run(s, before), a, c, true) {
      var i: nat :| EndsAt(s, before, c, false, i) && forall j: nat :: i < j ==> !EndsAt(s, before, c, true, j);
      assert EndsAt(s, actions, c, false, i);
    }
    if LastFailed(s, actions, c) && !Ends(Run(s, before), a, c, false) {
      var i: nat :| EndsAt(s, actions, c, false, i) && forall j: nat :: i < j ==> !EndsAt(s, actions, c, true, j);
      assert EndsAt(s, before, c, false, i);
      assert forall j: nat :: EndsAt(s, before, c, true, j) ==> EndsAt(s, actions, c, true, j);
      assert !EndsAt(s, actions, c, true, |before|);
    }
  }

  lemma OpenStep(s: State, a: Action, c: nat)
    requires Invariant(s)
    ensures var next := Apply(s, a);
            (next.owner == Some(c) && Outside(next, c) ==> Ends(s, a, c, false) || (s.owner == Some(c) && Outside(s, c)))
            && (Ends(s, a, c, false) ==> next.owner == Some(c) && Outside(next, c))
            && (s.owner == Some(c) && (Outside(s, c) || s.calls[c].pc.Failing?) && !Ends(s, a, c, true) ==>
                  next.owner == Some(c) && (Outside(next, c) || next.calls[c].pc.Failing?))
            && (Ends(s, a, c, true) ==> next.owner != Some(c))
  {
    hide Inv, PendingOk, Statement, Stage, Settled, Reservation;
    if !a.Reserve? && a.c in s.calls {
      assert CallOk(s, a.c);
      StatementRuns(s.calls[a.c].q, s.calls[a.c].pc, s.pending);
    }
  }

  // ----- calls do not disturb each other

  /** Whatever the other connections do, and whatever is invoked or reserved, a running call goes on as it was. */
  lemma RunningUndisturbed(s: State, a: Action, c: nat)
    requires !Idle(s, c) && (a.c != c || a.Invoke? || a.Reserve?)
    ensures c in Apply(s, a).calls && Apply(s, a).calls[c] == s.calls[c]
  {
    hide Statement, Reservation;
  }
}
