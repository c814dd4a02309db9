/** Creating identities against the stores, and resolving references back to MIDs. */
module Service {
  import opened Wrappers
  import opened Errors
  import opened Positional
  import opened Alphabet
  import opened Text
  import opened Checksum
  import opened DecimalText
  import opened Registry
  import opened References
  import opened Formatting
  import opened MachineId
  import PublicId
  import opened StorageText
  import opened Tables
  import A = SqliteAllocator
  import P = SqliteProtocol

  // ----- the random path of create, as a loop

  /** What goes wrong with the reservation of one attempt: it fails, possibly after taking effect. */
  datatype Trouble = Trouble(fault: bool, applied: bool)

  /** What the reservation of draw `i` answers when nothing goes wrong. */
  function Answer(r: Registry, namespace: string, machine: Bytes, draws: seq<seq<nat>>, i: nat, t: Tables): Result<bool, Error>
    requires i < |draws|
  {
    match Candidate(r, namespace, draws[i])
    case Failure(e) => Failure(e)
    case Success(reference) => Reservation(t, reference, Mapping(machine, namespace)).0
  }

  /** Attempt `i` meets a taken reference, and the loop goes on. */
  predicate Passed(
    r: Registry, namespace: string, machine: Bytes, draws: seq<seq<nat>>, troubles: seq<Trouble>, i: nat, t: Tables)
    requires i < |draws| == |troubles|
  {
    Answer(r, namespace, machine, draws, i, t) == Success(false) && !troubles[i].fault
  }

  /** The loop gets as far as attempt `k`, where the reference is free. */
  predicate Inserts(
    r: Registry, namespace: string, machine: Bytes, draws: seq<seq<nat>>, troubles: seq<Trouble>, k: nat, t: Tables)
    requires |draws| == |troubles|
  {
    k < |draws| && (forall i :: 0 <= i < k ==> Passed(r, namespace, machine, draws, troubles, i, t))
    && Answer(r, namespace, machine, draws, k, t) == Success(true)
  }

  /** There the insert succeeds. */
  ghost predicate Wins(
    r: Registry, namespace: string, machine: Bytes, draws: seq<seq<nat>>, troubles: seq<Trouble>, t: Tables)
    requires |draws| == |troubles|
  {
    exists k: nat :: Inserts(r, namespace, machine, draws, troubles, k, t) && !troubles[k].fault
  }

  /** There the insert takes effect but its answer is lost. */
  ghost predicate LosesAnswer(
    r: Registry, namespace: string, machine: Bytes, draws: seq<seq<nat>>, troubles: seq<Trouble>, t: Tables)
    requires |draws| == |troubles|
  {
    exists k: nat :: Inserts(r, namespace, machine, draws, troubles, k, t) && troubles[k].fault && troubles[k].applied
  }

  /** The tables with the reference of draw `k` reserved. */
  ghost predicate Reserved(
    r: Registry, namespace: string, machine: Bytes, draws: seq<seq<nat>>, k: nat, t: Tables, after: Tables)
    requires k < |draws|
  {
    Candidate(r, namespace, draws[k]).Success? && Candidate(r, namespace, draws[k]).value !in t.references
    && after == t.(references := t.references[Candidate(r, namespace, draws[k]).value := Mapping(machine, namespace)])
  }

  /** The reservation loop: it succeeds exactly when it reaches a free candidate whose insert succeeds,
      which is then reserved for the MID; a failure leaves the tables as they were if and only if no
      insert lost its answer; running out of attempts means that every candidate was taken. All of it
      happens in the tables the connection itself reads: behind a failed ROLLBACK nothing is committed. */
  method ReserveReference(
    connection: A.Connection, r: Registry, namespace: string, machineId: string, draws: seq<seq<nat>>,
    troubles: seq<Trouble>, maxAttempts: nat)
    returns (result: Result<string, Error>, ghost machine: Bytes, ghost last: nat)
    requires Valid(r) && IsMachineId(machineId) && connection.Valid()
    requires 1 <= maxAttempts == |draws| == |troubles|
    modifies connection
    ensures connection.Valid() && (connection.pending.Some? <==> old(connection.pending).Some?)
    ensures if old(connection.pending).Some? then connection.tables == old(connection.tables)
            else connection.tables == connection.Current()
    ensures MachineIdToBytes(machineId) == Some(machine) && last < maxAttempts
    ensures result.Success? <==> Wins(r, namespace, machine, draws, troubles, old(connection.Current()))
    ensures result.Success? ==>
              Inserts(r, namespace, machine, draws, troubles, last, old(connection.Current()))
              && result == Candidate(r, namespace, draws[last])
              && Reserved(r, namespace, machine, draws, last, old(connection.Current()), connection.Current())
    ensures result.Failure? ==>
              (connection.Current() == old(connection.Current())
               <==> !LosesAnswer(r, namespace, machine, draws, troubles, old(connection.Current())))
    ensures result.Failure? && connection.Current() != old(connection.Current()) ==>
              Inserts(r, namespace, machine, draws, troubles, last, old(connection.Current()))
              && Reserved(r, namespace, machine, draws, last, old(connection.Current()), connection.Current())
    ensures result == Failure(AllocationExhausted) ==>
              forall i :: 0 <= i < maxAttempts ==> Passed(r, namespace, machine, draws, troubles, i, old(connection.Current()))
  {
    hide *;
    ghost var t0 := connection.Current();
    connection.ValidIs();
    MachineBytes(machineId);
    machine := MachineIdToBytes(machineId).value;
    last := 0;
    for attempt := 0 to maxAttempts
      invariant connection.Valid() && connection.Current() == t0 && last < maxAttempts
      invariant connection.pending.Some? <==> old(connection.pending).Some?
      invariant connection.pending.Some? ==> connection.tables == old(connection.tables)
      invariant forall i :: 0 <= i < attempt ==> Passed(r, namespace, machine, draws, troubles, i, t0)
    {
      last := attempt;
      connection.ValidIs();
      var trouble := troubles[attempt];
      var candidate := CreateReferenceCandidate(r, namespace, draws[attempt]);
      AnswerIs(r, namespace, machine, draws, troubles, attempt, t0);
      if candidate.Failure? {
        NotExhausted(r, namespace, draws[attempt]);
        StopsHere(r, namespace, machine, draws, troubles, attempt, t0);
        return candidate, machine, last;
      }
      ReserveOutcome(t0, candidate.value, Mapping(machine, namespace));
      var reserved := connection.Reserve(candidate.value, namespace, machineId, trouble.fault, trouble.applied);
      connection.ValidIs();
      if reserved.Failure? {
        StopsHere(r, namespace, machine, draws, troubles, attempt, t0);
        ReservedIs(r, namespace, machine, draws, attempt, t0, connection.Current());
        ReservedChanges(r, namespace, machine, draws, attempt, t0, connection.Current());
        return Failure(reserved.error), machine, last;
      }
      if reserved.value {
        StopsHere(r, namespace, machine, draws, troubles, attempt, t0);
        ReservedIs(r, namespace, machine, draws, attempt, t0, connection.Current());
        return candidate, machine, last;
      }
    }
    AllPassed(r, namespace, machine, draws, troubles, t0);
    connection.ValidIs();
    result := Failure(AllocationExhausted);
  }

  lemma AnswerIs(
    r: Registry, namespace: string, machine: Bytes, draws: seq<seq<nat>>, troubles: seq<Trouble>, i: nat, t: Tables)
    requires i < |draws| == |troubles|
    ensures Answer(r, namespace, machine, draws, i, t)
            == match Candidate(r, namespace, draws[i])
               case Failure(e) => Failure(e)
               case Success(reference) => Reservation(t, reference, Mapping(machine, namespace)).0
    ensures Passed(r, namespace, machine, draws, troubles, i, t)
            <==> Answer(r, namespace, machine, draws, i, t) == Success(false) && !troubles[i].fault
  {
    hide Candidate, Reservation;
  }

  lemma ReservedIs(
    r: Registry, namespace: string, machine: Bytes, draws: seq<seq<nat>>, k: nat, t: Tables, after: Tables)
    requires k < |draws|
    ensures Reserved(r, namespace, machine, draws, k, t, after)
            <==> Candidate(r, namespace, draws[k]).Success? && Candidate(r, namespace, draws[k]).value !in t.references
                 && after == t.(references := t.references[Candidate(r, namespace, draws[k]).value := Mapping(machine, namespace)])
  {
    hide Candidate;
  }

  lemma ReservedChanges(
    r: Registry, namespace: string, machine: Bytes, draws: seq<seq<nat>>, k: nat, t: Tables, after: Tables)
    requires k < |draws|
    ensures Reserved(r, namespace, machine, draws, k, t, after) ==> after != t
  {
    hide Candidate;
    if Reserved(r, namespace, machine, draws, k, t, after) {
      assert Candidate(r, namespace, draws[k]).value in after.references;
    }
  }

  /** Where the loop stops, what it meets there decides. */
  lemma StopsHere(
    r: Registry, namespace: string, machine: Bytes, draws: seq<seq<nat>>, troubles: seq<Trouble>, a: nat, t: Tables)
    requires a < |draws| == |troubles| && !Passed(r, namespace, machine, draws, troubles, a, t)
    requires forall i :: 0 <= i < a ==> Passed(r, namespace, machine, draws, troubles, i, t)
    ensures Inserts(r, namespace, machine, draws, troubles, a, t) <==> Answer(r, namespace, machine, draws, a, t) == Success(true)
    ensures Wins(r, namespace, machine, draws, troubles, t)
            <==> Answer(r, namespace, machine, draws, a, t) == Success(true) && !troubles[a].fault
    ensures LosesAnswer(r, namespace, machine, draws, troubles, t)
            <==> Answer(r, namespace, machine, draws, a, t) == Success(true) && troubles[a].fault && troubles[a].applied
  {
    hide Answer;
    forall k: nat | Inserts(r, namespace, machine, draws, troubles, k, t) ensures k == a {
      assert k < a ==> Passed(r, namespace, machine, draws, troubles, k, t);
    }
    if Answer(r, namespace, machine, draws, a, t) == Success(true) {
      assert Inserts(r, namespace, machine, draws, troubles, a, t);
    }
  }

  lemma AllPassed(
    r: Registry, namespace: string, machine: Bytes, draws: seq<seq<nat>>, troubles: seq<Trouble>, t: Tables)
    requires |draws| == |troubles|
    requires forall i :: 0 <= i < |draws| ==> Passed(r, namespace, machine, draws, troubles, i, t)
    ensures !Wins(r, namespace, machine, draws, troubles, t) && !LosesAnswer(r, namespace, machine, draws, troubles, t)
  {
    hide Answer;
    forall k: nat ensures !Inserts(r, namespace, machine, draws, troubles, k, t) {
      if k < |draws| { assert Passed(r, namespace, machine, draws, troubles, k, t); }
    }
  }

  lemma MachineBytes(machineId: string)
    requires IsMachineId(machineId)
    ensures Shaped(machineId) && MachineIdToBytes(machineId).Some? && |MachineIdToBytes(machineId).value| == 16
  {
    LowerHex(machineId);
    BytesRoundTrip(machineId);
    hide MachineIdToBytes, Shaped, Lower;
  }

  lemma NotExhausted(r: Registry, namespace: string, bytes: seq<nat>)
    ensures Candidate(r, namespace, bytes) != Failure(AllocationExhausted)
  {
    hide Canonical, PayloadOfBytes, CheckAt, Value, Read;
  }

  lemma ReserveOutcome(t: Tables, reference: string, m: Mapping)
    ensures var (result, after) := Reservation(t, reference, m);
            (result.Failure? || result == Success(true) || result == Success(false))
            && (result.Failure? ==> after == t && result.error == AllocationConflict)
            && (result == Success(false) ==> after == t && reference in t.references)
            && (result == Success(true) ==>
                  reference !in t.references && after == t.(references := t.references[reference := m]))
  {
    hide ReferenceRowOk;
  }

  // ----- any number of creates at once, over the connections of one database

  /** What a reference was made of: random bytes, and whether the reservation was committed rather than
      made inside a transaction left open; or an allocated number and its scope. */
  datatype Issue = Drawn(bytes: seq<nat>, durable: bool) | Numbered(n: nat, scope: Option<string>)

  datatype Pc =
    | Trying(attempt: nat)
    | Allocating | Waiting(c: nat, scope: Option<string>)   // for the allocation running on connection c
    | Based | Exhausted | Failed(e: Error)
    | Created(ref: string, issue: Issue)
    | Lost(ref: string, issue: Issue)                       // inserted, but the caller got an error

  datatype Create = Create(namespace: string, mid: string, pc: Pc)

  datatype State = State(db: P.State, calls: map<nat, Create>)

  datatype Action =
    | Invoke(k: nat, namespace: string, machineId: string)
    | Attempt(k: nat, c: nat, bytes: seq<nat>, fault: bool, applied: bool)   // one reservation, on connection c
    | Ask(k: nat, c: nat, year: Option<int>)                                 // the allocation starts on connection c
    | Database(a: P.Action)                                                  // a statement of a running allocation
    | Collect(k: nat)                                                        // its outcome reaches the create

  function Start(): State { State(P.Start(Empty()), map[]) }

  function Opening(r: Registry, namespace: string, machineId: string): Create
  {
    match r.GetByPublicPrefix(namespace)
    case None => Create(namespace, [], Failed(UnknownNamespace))
    case Some(d) =>
      match ParseMachineId(machineId)
      case Failure(e) => Create(namespace, [], Failed(e))
      case Success(mid) =>
        Create(namespace, mid,
               if d.reference.None? then Based else if d.reference.value.Random? then Trying(0) else Allocating)
  }

  /** One attempt of the random path. */
  ghost function Attempted(
    r: Registry, max: nat, db: P.State, call: Create, c: nat, bytes: seq<nat>, fault: bool, applied: bool): (P.State, Pc)
    requires call.pc.Trying?
  {
    match Candidate(r, call.namespace, bytes)
    case Failure(e) => (db, Failed(e))
    case Success(ref) =>
      match MachineIdToBytes(call.mid)
      case None => (db, Failed(InvalidMid))
      case Some(machine) =>
        var row := Mapping(machine, call.namespace);
        var after := P.Apply(db, P.Reserve(c, ref, row));
        var issue := Drawn(bytes, db.owner != Some(c));
        match P.Answer(db, c, ref, row)
        case Failure(e) => (db, Failed(e))
        case Success(inserted) =>
          if fault then if applied && inserted then (after, Lost(ref, issue)) else (db, Failed(AllocationConflict))
          else if inserted then (after, Created(ref, issue))
          else (db, if call.pc.attempt + 1 < max then Trying(call.pc.attempt + 1) else Exhausted)
  }

  predicate SequentialNamespace(r: Registry, namespace: string)
  {
    RequireReference(r, namespace).Success? && RequireReference(r, namespace).value.reference.Some?
    && RequireReference(r, namespace).value.reference.value.Sequential?
  }

  /** The UTC year as a scope: four digits, or nothing outside 0 to 9999. */
  function YearScope(year: Option<int>): Option<string>
  {
    if year.None? || year.value < 0 || year.value > 9999 then None else Some(PadStart(ToDecimal(year.value), 4))
  }

  function ScopeText(scope: Option<string>): string { if scope.Some? then scope.value else [] }

  /** The scope in which the sequential path asks for a number. */
  function Scope(r: Registry, namespace: string, year: Option<int>): Result<Option<string>, Error>
  {
    match RequireReference(r, namespace)
    case Failure(e) => Failure(e)
    case Success(d) =>
      if d.reference.value.Random? then Failure(InvalidNamespaceDefinition)
      else if !HasScope(d.reference.value) then Success(None)
      else if YearScope(year).None? then Failure(InvalidAllocationPolicy)
      else Success(YearScope(year))
  }

  function AllocationRequest(r: Registry, call: Create, scope: Option<string>): Request
    requires SequentialNamespace(r, call.namespace)
  {
    var ref := RequireReference(r, call.namespace).value.reference.value;
    Request(call.mid, Key(call.namespace, ScopeText(scope)), ref.prefix, ref.width)
  }

  /** The number that is committed for a request, if there is one. */
  ghost function NumberOf(t: Tables, q: Request): (n: Option<nat>)
    ensures n.Some? ==> P.Settled(t, q, n.value)
    ensures n.None? ==> forall k: nat :: !P.Settled(t, q, k)
  {
    if exists n: nat :: P.Settled(t, q, n) then
      var n: nat :| P.Settled(t, q, n);
      Some(n)
    else None
  }

  /** What the create makes of the outcome of its allocation. */
  ghost function Collected(r: Registry, db: P.State, call: Create): Pc
    requires call.pc.Waiting? && call.pc.c in db.calls
  {
    var allocation := db.calls[call.pc.c];
    match allocation.pc
    case Returned(n) =>
      (match FormatSequentialReference(r, call.namespace, n, call.pc.scope)
       case Failure(e) => Failed(e)
       case Success(text) => Created(text, Numbered(n, call.pc.scope)))
    case Failed(e) =>
      (match NumberOf(db.tables, allocation.q)
       case None => Failed(e)
       case Some(n) =>
         match FormatSequentialReference(r, call.namespace, n, call.pc.scope)
         case Failure(_) => Failed(e)
         case Success(text) => Lost(text, Numbered(n, call.pc.scope)))
    case _ => call.pc
  }

  /** No create waits for an allocation on the connection. */
  predicate Free(s: State, c: nat)
  {
    forall k :: k in s.calls && s.calls[k].pc.Waiting? ==> s.calls[k].pc.c != c
  }

  ghost function Apply(r: Registry, max: nat, s: State, a: Action): State
  {
    match a
    case Invoke(k, namespace, machineId) =>
      if k in s.calls then s else s.(calls := s.calls[k := Opening(r, namespace, machineId)])
    case Attempt(k, c, bytes, fault, applied) =>
      if k !in s.calls || !s.calls[k].pc.Trying? || !P.Idle(s.db, c) then s
      else
        var (db, pc) := Attempted(r, max, s.db, s.calls[k], c, bytes, fault, applied);
        State(db, s.calls[k := s.calls[k].(pc := pc)])
    case Ask(k, c, year) =>
      if k !in s.calls || !s.calls[k].pc.Allocating? || !P.Idle(s.db, c) || !Free(s, c) then s
      else
        (match Scope(r, s.calls[k].namespace, year)
         case Failure(e) => s.(calls := s.calls[k := s.calls[k].(pc := Failed(e))])
         case Success(scope) =>
           State(P.Apply(s.db, P.Invoke(c, AllocationRequest(r, s.calls[k], scope))),
                 s.calls[k := s.calls[k].(pc := Waiting(c, scope))]))
    case Database(step) =>
      if step.Invoke? || step.Reserve? then s else s.(db := P.Apply(s.db, step))
    case Collect(k) =>
      if k !in s.calls || !s.calls[k].pc.Waiting? || s.calls[k].pc.c !in s.db.calls || !P.Idle(s.db, s.calls[k].pc.c) then s
      else s.(calls := s.calls[k := s.calls[k].(pc := Collected(r, s.db, s.calls[k]))])
  }

  ghost function Run(r: Registry, max: nat, s: State, actions: seq<Action>): State
    decreases |actions|
  {
    if actions == [] then s else Run(r, max, Apply(r, max, s, actions[0]), actions[1..])
  }

  // ----- what the tables record

  predicate Issued(pc: Pc) { pc.Created? || pc.Lost? }

  /** The reference was stored outside any transaction left open. */
  predicate Stored(pc: Pc) { Issued(pc) && (pc.issue.Drawn? ==> pc.issue.durable) }

  /** The reference is made of its issue, and its row is in the tables. */
  ghost predicate Recorded(r: Registry, t: Tables, namespace: string, mid: string, issue: Issue, ref: string)
  {
    IsMachineId(mid) && MachineIdToBytes(mid).Some? &&
    match issue
    case Drawn(bytes, _) => DrawnRow(r, t, namespace, bytes, ref, MachineIdToBytes(mid).value)
    case Numbered(n, scope) => NumberedRow(r, t, namespace, n, scope, ref, MachineIdToBytes(mid).value)
  }

  ghost predicate DrawnRow(r: Registry, t: Tables, namespace: string, bytes: seq<nat>, ref: string, machine: Bytes)
  {
    Candidate(r, namespace, bytes) == Success(ref) && ref in t.references && t.references[ref] == Mapping(machine, namespace)
  }

  ghost predicate NumberedRow(
    r: Registry, t: Tables, namespace: string, n: nat, scope: Option<string>, ref: string, machine: Bytes)
  {
    SequentialNamespace(r, namespace) && FormatSequentialReference(r, namespace, n, scope) == Success(ref)
    && Bound(t, Key(namespace, ScopeText(scope)), n, machine)
    && t.bindings[Slot(Key(namespace, ScopeText(scope)), n)].prefix
       == RequireReference(r, namespace).value.reference.value.prefix
  }

  /** The create waits for an allocation that was asked for in its name. */
  ghost predicate WaitOk(r: Registry, db: P.State, call: Create)
    requires call.pc.Waiting?
  {
    SequentialNamespace(r, call.namespace)
    && ScopeFits(RequireReference(r, call.namespace).value.reference.value, call.pc.scope)
    && call.pc.c in db.calls && db.calls[call.pc.c].q == AllocationRequest(r, call, call.pc.scope)
  }

  ghost predicate CallOk(r: Registry, db: P.State, call: Create)
  {
    (Stored(call.pc) ==> Recorded(r, db.tables, call.namespace, call.mid, call.pc.issue, call.pc.ref))
    && (!call.pc.Failed? ==> IsMachineId(call.mid))
    && (call.pc.Waiting? ==> WaitOk(r, db, call))
  }

  ghost predicate CallsOk(r: Registry, s: State)
  {
    forall k :: k in s.calls ==> CallOk(r, s.db, s.calls[k])
  }

  predicate WroteReference(s: State, ref: string, k: nat)
  {
    k in s.calls && Stored(s.calls[k].pc) && s.calls[k].pc.issue.Drawn? && s.calls[k].pc.ref == ref
  }

  /** The create got the number of the binding, or will: it may not have collected the outcome yet. */
  ghost predicate WroteBinding(s: State, slot: Slot, k: nat)
  {
    k in s.calls &&
    var pc := s.calls[k].pc;
    if pc.Waiting? then
      pc.c in s.db.calls && slot.key == s.db.calls[pc.c].q.key && P.Settled(s.db.tables, s.db.calls[pc.c].q, slot.sequence)
    else
      Issued(pc) && pc.issue.Numbered? && slot == Slot(Key(s.calls[k].namespace, ScopeText(pc.issue.scope)), pc.issue.n)
  }

  /** Every committed row has its create. */
  ghost predicate AllWritten(s: State)
  {
    (forall ref :: ref in s.db.tables.references ==> exists k: nat :: WroteReference(s, ref, k))
    && forall slot :: slot in s.db.tables.bindings ==> exists k: nat :: WroteBinding(s, slot, k)
  }

  predicate WaitsOn(s: State, k: nat, c: nat)
  {
    k in s.calls && s.calls[k].pc.Waiting? && s.calls[k].pc.c == c
  }

  /** At most one create waits on a connection, and one does while an allocation runs there. */
  ghost predicate Waits(s: State)
  {
    (forall j: nat, k: nat, c: nat :: WaitsOn(s, j, c) && WaitsOn(s, k, c) ==> j == k)
    && forall c: nat :: !P.Idle(s.db, c) ==> exists k: nat :: WaitsOn(s, k, c)
  }

  /** No random row stands under a sequential namespace. */
  predicate RandomRows(r: Registry, t: Tables)
  {
    forall ref :: ref in t.references ==> !SequentialNamespace(r, t.references[ref].namespace)
  }

  /** Rows and stored references correspond exactly. */
  ghost predicate Invariant(r: Registry, s: State)
  {
    P.Invariant(s.db) && CallsOk(r, s) && AllWritten(s) && Waits(s)
    && RandomRows(r, s.db.tables) && (s.db.owner.Some? ==> RandomRows(r, s.db.pending))
  }

  lemma InvariantIs(r: Registry, s: State)
    ensures Invariant(r, s)
            <==> P.Invariant(s.db) && CallsOk(r, s) && AllWritten(s) && Waits(s)
                 && RandomRows(r, s.db.tables) && (s.db.owner.Some? ==> RandomRows(r, s.db.pending))
  {
    hide P.Invariant, CallsOk, AllWritten, Waits, RandomRows;
  }

  lemma StartInvariant(r: Registry)
    ensures Invariant(r, Start())
  {
    EmptyInv();
    P.StartInvariant(Empty());
    hide P.Invariant, Inv;
    assert forall c: nat :: P.Idle(Start().db, c);
  }

  lemma InvariantCall(r: Registry, s: State, k: nat)
    requires Invariant(r, s) && k in s.calls
    ensures Inv(s.db.tables) && P.Invariant(s.db) && CallOk(r, s.db, s.calls[k])
  {
    P.InvariantTables(s.db);
    hide P.Invariant, Inv, CallOk;
  }

  lemma CallIs(r: Registry, db: P.State, call: Create)
    ensures CallOk(r, db, call)
            <==> (Stored(call.pc) ==> Recorded(r, db.tables, call.namespace, call.mid, call.pc.issue, call.pc.ref))
                 && (!call.pc.Failed? ==> IsMachineId(call.mid))
                 && (call.pc.Waiting? ==> WaitOk(r, db, call))
    ensures Stored(call.pc) ==> Issued(call.pc)
    ensures Issued(call.pc) <==> call.pc.Created? || call.pc.Lost?
  {
    hide Recorded, IsMachineId, WaitOk;
  }

  lemma WaitIs(r: Registry, db: P.State, call: Create)
    requires call.pc.Waiting?
    ensures WaitOk(r, db, call)
            <==> SequentialNamespace(r, call.namespace)
                 && ScopeFits(RequireReference(r, call.namespace).value.reference.value, call.pc.scope)
                 && call.pc.c in db.calls && db.calls[call.pc.c].q == AllocationRequest(r, call, call.pc.scope)
  {
    hide RequireReference, ScopeFits, AllocationRequest;
  }

  lemma RequestIs(r: Registry, call: Create, scope: Option<string>)
    requires SequentialNamespace(r, call.namespace)
    ensures var ref := RequireReference(r, call.namespace).value.reference.value;
            AllocationRequest(r, call, scope) == Request(call.mid, Key(call.namespace, ScopeText(scope)), ref.prefix, ref.width)
  {
    hide RequireReference;
  }

  // ----- what a recorded reference resolves to

  /** A candidate's namespace is random, a sequential reference's is not; so the two kinds of row never
      meet in one namespace. */
  lemma DrawnNamespace(r: Registry, namespace: string, bytes: seq<nat>)
    requires Candidate(r, namespace, bytes).Success?
    ensures RequireReference(r, namespace).Success? && RequireReference(r, namespace).value.reference.Some?
    ensures RequireReference(r, namespace).value.reference.value.Random? && !SequentialNamespace(r, namespace)
  {
    hide Canonical, PayloadOfBytes, CheckSymbol;
  }

  /** The text of a number in a sequential namespace: its reading, and the parts the lookup uses. */
  lemma NumberedText(r: Registry, namespace: string, n: nat, scope: Option<string>)
    requires Valid(r) && SequentialNamespace(r, namespace) && FormatSequentialReference(r, namespace, n, scope).Success?
    ensures var ref := RequireReference(r, namespace).value.reference.value;
            var text := FormatSequentialReference(r, namespace, n, scope).value;
            var parsed := ParseReference(text, r);
            parsed.Success? && parsed.value.value == text && parsed.value.namespace == namespace
            && ParseSequentialParts(text) == Some(Parts(ref.prefix, ScopeText(scope), n))
  {
    hide *;
    SequentialIs(r, namespace);
    SequentialRoundTrip(r, namespace, n, scope);
    RequiredDefinition(r, namespace);
    var d := RequireReference(r, namespace).value;
    var ref := d.reference.value;
    SequentialWidth(r, d);
    FormatUnfold(r, namespace, n, scope, d);
    var payload := ScopedPayload(n, ref.width, scope);
    DecimalPayload(ref, n, scope);
    PartsOfSequential(r, d, n, scope, CheckSymbol(payload, Decimal()).value);
    ScopeTextIs(scope);
  }

  lemma SequentialIs(r: Registry, namespace: string)
    requires SequentialNamespace(r, namespace)
    ensures RequireReference(r, namespace).Success? && RequireReference(r, namespace).value.reference.Some?
    ensures RequireReference(r, namespace).value.reference.value.Sequential?
  {
  }

  lemma ScopeTextIs(scope: Option<string>)
    ensures ScopeText(scope) == if scope.Some? then scope.value else []
  {
  }

  /** In tables that record it a reference is canonical, and the lookup finds its MID. */
  lemma RecordFound(r: Registry, t: Tables, namespace: string, mid: string, issue: Issue, ref: string)
    requires Valid(r) && RandomRows(r, t) && Recorded(r, t, namespace, mid, issue, ref)
    ensures MachineIdToBytes(mid).Some? && IsMachineId(mid)
    ensures Lookup(t, ref, namespace) == Some(Mapping(MachineIdToBytes(mid).value, namespace))
    ensures ParseReference(ref, r).Success? && ParseReference(ref, r).value.value == ref
            && ParseReference(ref, r).value.namespace == namespace
  {
    hide *;
    RecordedParts(r, t, namespace, mid, issue, ref);
    match issue {
      case Drawn(bytes, _) =>
        CandidateRoundTrip(r, namespace, bytes);
        A.LookupIs(t, ref, namespace);
      case Numbered(n, scope) =>
        NumberedText(r, namespace, n, scope);
        NotRandom(r, t, ref, namespace);
        A.LookupIs(t, ref, namespace);
        BoundIs(t, Key(namespace, ScopeText(scope)), n, MachineIdToBytes(mid).value);
    }
  }

  lemma NotRandom(r: Registry, t: Tables, ref: string, namespace: string)
    requires RandomRows(r, t) && SequentialNamespace(r, namespace)
    ensures !(ref in t.references && t.references[ref].namespace == namespace)
  {
    hide SequentialNamespace;
  }

  lemma BoundIs(t: Tables, key: Key, n: nat, machine: Bytes)
    ensures Bound(t, key, n, machine) <==> Slot(key, n) in t.bindings && t.bindings[Slot(key, n)].machine == machine
  {
  }

  lemma RecordedParts(r: Registry, t: Tables, namespace: string, mid: string, issue: Issue, ref: string)
    requires Recorded(r, t, namespace, mid, issue, ref)
    ensures IsMachineId(mid) && MachineIdToBytes(mid).Some?
    ensures match issue
            case Drawn(bytes, _) =>
              Candidate(r, namespace, bytes) == Success(ref)
              && ref in t.references && t.references[ref] == Mapping(MachineIdToBytes(mid).value, namespace)
            case Numbered(n, scope) =>
              SequentialNamespace(r, namespace) && FormatSequentialReference(r, namespace, n, scope) == Success(ref)
              && Bound(t, Key(namespace, ScopeText(scope)), n, MachineIdToBytes(mid).value)
              && t.bindings[Slot(Key(namespace, ScopeText(scope)), n)].prefix
                 == RequireReference(r, namespace).value.reference.value.prefix
  {
    hide IsMachineId, MachineIdToBytes, Candidate, FormatSequentialReference, RequireReference;
  }

  /** What the committed tables record, every connection reads. */
  lemma ViewKeeps(r: Registry, s: State, c: nat)
    requires Invariant(r, s)
    ensures RandomRows(r, P.View(s.db, c))
    ensures ReferencesKept(s.db.tables, P.View(s.db, c)) && BindingsKept(s.db.tables, P.View(s.db, c))
  {
    hide CallsOk, AllWritten, Waits, RandomRows, Inv, P.CallOk;
  }

  lemma RecordedForever(r: Registry, a: Tables, b: Tables, namespace: string, mid: string, issue: Issue, ref: string)
    requires ReferencesKept(a, b) && BindingsKept(a, b) && Recorded(r, a, namespace, mid, issue, ref)
    ensures Recorded(r, b, namespace, mid, issue, ref)
  {
    hide IsMachineId, MachineIdToBytes, Candidate, FormatSequentialReference, RequireReference;
  }

  /** A stored reference is canonical, and on every connection the lookup finds its MID. */
  lemma RecordedLookup(r: Registry, s: State, k: nat, c: nat)
    requires Valid(r) && Invariant(r, s) && k in s.calls && Stored(s.calls[k].pc)
    ensures Issued(s.calls[k].pc)
    ensures var call := s.calls[k];
            MachineIdToBytes(call.mid).Some? && IsMachineId(call.mid)
            && Lookup(P.View(s.db, c), call.pc.ref, call.namespace)
               == Some(Mapping(MachineIdToBytes(call.mid).value, call.namespace))
            && ParseReference(call.pc.ref, r).Success? && ParseReference(call.pc.ref, r).value.value == call.pc.ref
            && ParseReference(call.pc.ref, r).value.namespace == call.namespace
  {
    hide *;
    var call := s.calls[k];
    InvariantCall(r, s, k);
    CallIs(r, s.db, call);
    ViewKeeps(r, s, c);
    RecordedForever(r, s.db.tables, P.View(s.db, c), call.namespace, call.mid, call.pc.issue, call.pc.ref);
    RecordFound(r, P.View(s.db, c), call.namespace, call.mid, call.pc.issue, call.pc.ref);
  }

  // ----- resolving

  datatype Resolved = Resolved(machineId: string, namespace: string, reference: string)

  function Resolve(r: Registry, t: Tables, value: string): Result<Option<Resolved>, Error>
  {
    match ParseReference(value, r)
    case Failure(e) => Failure(e)
    case Success(parsed) =>
      match Lookup(t, parsed.value, parsed.namespace)
      case None => Success(None)
      case Some(found) =>
        if |found.machine| != 16 || found.namespace != parsed.namespace then Failure(AllocationConflict)
        else match ParseMachineId(BytesToMachineId(found.machine))
          case Failure(e) => Failure(e)
          case Success(mid) => Success(Some(Resolved(mid, parsed.namespace, parsed.value)))
  }

  lemma ResolveFound(r: Registry, t: Tables, value: string, mid: string)
    requires ParseReference(value, r).Success? && IsMachineId(mid) && MachineIdToBytes(mid).Some?
    requires var p := ParseReference(value, r).value;
             Lookup(t, p.value, p.namespace) == Some(Mapping(MachineIdToBytes(mid).value, p.namespace))
    ensures var p := ParseReference(value, r).value;
            Resolve(r, t, value) == Success(Some(Resolved(mid, p.namespace, p.value)))
  {
    MachineBytes(mid);
    BytesRoundTrip(mid);
    MachineSelf(mid);
    hide ParseReference, Lookup, MachineIdToBytes, BytesToMachineId, ParseMachineId, IsMachineId, Shaped;
  }

  lemma ResolveNone(r: Registry, t: Tables, value: string)
    requires ParseReference(value, r).Success?
    requires Lookup(t, ParseReference(value, r).value.value, ParseReference(value, r).value.namespace).None?
    ensures Resolve(r, t, value) == Success(None)
  {
    hide ParseReference, Lookup, BytesToMachineId, ParseMachineId;
  }

  // ----- every step keeps rows and references in correspondence

  predicate SameRequest(a: P.State, b: P.State, c: nat)
  {
    c in a.calls ==> c in b.calls && b.calls[c].q == a.calls[c].q
  }

  /** A step leaves create `j` and the request it waits for as they were. */
  predicate Continues(s: State, next: State, j: nat)
  {
    j in s.calls && j in next.calls && next.calls[j] == s.calls[j]
    && (s.calls[j].pc.Waiting? ==> SameRequest(s.db, next.db, s.calls[j].pc.c))
  }

  lemma ContinuesIs(s: State, next: State, j: nat)
    ensures Continues(s, next, j)
            <==> j in s.calls && j in next.calls && next.calls[j] == s.calls[j]
                 && (s.calls[j].pc.Waiting? ==> SameRequest(s.db, next.db, s.calls[j].pc.c))
  {
    hide SameRequest;
  }

  lemma OthersOk(r: Registry, s: State, next: State)
    requires CallsOk(r, s) && Grown(s.db.tables, next.db.tables)
    requires forall j :: j in next.calls ==> Continues(s, next, j) || CallOk(r, next.db, next.calls[j])
    ensures CallsOk(r, next)
  {
    hide CallOk, Continues, Grown;
    forall j | j in next.calls ensures CallOk(r, next.db, next.calls[j]) {
      if Continues(s, next, j) {
        ContinuesIs(s, next, j);
        KeptOk(r, s.db, next.db, s.calls[j]);
      }
    }
  }

  lemma KeptOk(r: Registry, a: P.State, b: P.State, call: Create)
    requires Grown(a.tables, b.tables) && CallOk(r, a, call) && (call.pc.Waiting? ==> SameRequest(a, b, call.pc.c))
    ensures CallOk(r, b, call)
  {
    hide IsMachineId, Recorded, RequireReference, ScopeFits, SequentialNamespace, AllocationRequest, Conserved, CountersKept;
    if Stored(call.pc) { RecordedForever(r, a.tables, b.tables, call.namespace, call.mid, call.pc.issue, call.pc.ref); }
  }

  /** The rows of create `j` remain its rows. */
  ghost predicate KeepsAuthor(s: State, next: State, j: nat)
  {
    (forall ref :: WroteReference(s, ref, j) ==> WroteReference(next, ref, j))
    && forall slot :: WroteBinding(s, slot, j) ==> WroteBinding(next, slot, j)
  }

  lemma WrittenKept(s: State, next: State)
    requires AllWritten(s) && forall j :: j in s.calls ==> KeepsAuthor(s, next, j)
    requires forall ref :: ref in next.db.tables.references ==>
               ref in s.db.tables.references || exists k: nat :: WroteReference(next, ref, k)
    requires forall slot :: slot in next.db.tables.bindings ==>
               slot in s.db.tables.bindings || exists k: nat :: WroteBinding(next, slot, k)
    ensures AllWritten(next)
  {
    forall ref | ref in next.db.tables.references ensures exists k: nat :: WroteReference(next, ref, k) {
      if ref in s.db.tables.references {
        var k: nat :| WroteReference(s, ref, k);
        assert KeepsAuthor(s, next, k);
        assert WroteReference(next, ref, k);
      }
    }
    forall slot | slot in next.db.tables.bindings ensures exists k: nat :: WroteBinding(next, slot, k) {
      if slot in s.db.tables.bindings {
        var k: nat :| WroteBinding(s, slot, k);
        assert KeepsAuthor(s, next, k);
        assert WroteBinding(next, slot, k);
      }
    }
  }

  lemma SameAuthor(s: State, next: State, j: nat)
    requires Continues(s, next, j) && Grown(s.db.tables, next.db.tables)
    ensures KeepsAuthor(s, next, j)
  {
    hide P.Settled, Grown;
    forall slot | WroteBinding(s, slot, j) ensures WroteBinding(next, slot, j) {
      if s.calls[j].pc.Waiting? {
        P.SettledForever(s.db.tables, next.db.tables, s.db.calls[s.calls[j].pc.c].q, slot.sequence);
      }
    }
  }

  lemma NoAuthor(s: State, next: State, j: nat)
    requires j in s.calls ==> !Issued(s.calls[j].pc) && !s.calls[j].pc.Waiting?
    ensures KeepsAuthor(s, next, j)
  {
    hide P.Settled;
  }

  lemma WaitsKept(s: State, next: State)
    requires Waits(s) && forall k: nat, c: nat :: WaitsOn(next, k, c) <==> WaitsOn(s, k, c)
    requires forall c: nat :: P.Idle(s.db, c) ==> P.Idle(next.db, c)
    ensures Waits(next)
  {
    hide WaitsOn, P.Idle;
    forall c: nat | !P.Idle(next.db, c) ensures exists k: nat :: WaitsOn(next, k, c) {
      var k: nat :| WaitsOn(s, k, c);
      assert WaitsOn(next, k, c);
    }
  }

  /** A step of one create that neither waited nor waits, and that stores at most a random row. */
  lemma CreateStep(r: Registry, s: State, next: State, k: nat, call: Create)
    requires Invariant(r, s) && P.Invariant(next.db) && Grown(s.db.tables, next.db.tables)
    requires next.calls == s.calls[k := call] && next.db.calls == s.db.calls
    requires k in s.calls ==> !Issued(s.calls[k].pc) && !s.calls[k].pc.Waiting?
    requires CallOk(r, next.db, call) && !call.pc.Waiting?
    requires next.db.tables.bindings == s.db.tables.bindings
    requires forall ref :: ref in next.db.tables.references ==> ref in s.db.tables.references || WroteReference(next, ref, k)
    requires RandomRows(r, next.db.tables) && (next.db.owner.Some? ==> RandomRows(r, next.db.pending))
    ensures Invariant(r, next)
  {
    hide *;
    InvariantIs(r, s);
    forall c: nat ensures SameRequest(s.db, next.db, c) && (P.Idle(s.db, c) ==> P.Idle(next.db, c)) {
      SameDatabaseCalls(s.db, next.db, c);
    }
    forall j | j in s.calls && j != k ensures Continues(s, next, j) {
      ContinuesIs(s, next, j);
    }
    OthersOk(r, s, next);
    forall j | j in s.calls ensures KeepsAuthor(s, next, j) {
      if j == k { NoAuthor(s, next, j); } else { SameAuthor(s, next, j); }
    }
    WrittenKept(s, next);
    forall j: nat, c: nat ensures WaitsOn(next, j, c) <==> WaitsOn(s, j, c) {
      WaitsOnIs(s, j, c);
      WaitsOnIs(next, j, c);
    }
    WaitsKept(s, next);
    InvariantIs(r, next);
  }

  lemma SameDatabaseCalls(a: P.State, b: P.State, c: nat)
    requires b.calls == a.calls
    ensures SameRequest(a, b, c) && (P.Idle(a, c) ==> P.Idle(b, c))
  {
  }

  lemma WaitsOnIs(s: State, k: nat, c: nat)
    ensures WaitsOn(s, k, c) <==> k in s.calls && s.calls[k].pc.Waiting? && s.calls[k].pc.c == c
  {
  }

  lemma QuietStep(r: Registry, s: State, k: nat, call: Create)
    requires Invariant(r, s) && (call.pc.Failed? || IsMachineId(call.mid))
    requires !Issued(call.pc) && !call.pc.Waiting?
    requires k in s.calls ==> !Issued(s.calls[k].pc) && !s.calls[k].pc.Waiting?
    ensures Invariant(r, s.(calls := s.calls[k := call]))
  {
    hide *;
    InvariantIs(r, s);
    GrownReflexive(s.db.tables);
    CallIs(r, s.db, call);
    CreateStep(r, s, s.(calls := s.calls[k := call]), k, call);
  }

  lemma OpeningOk(r: Registry, namespace: string, machineId: string)
    ensures var call := Opening(r, namespace, machineId);
            !Issued(call.pc) && !call.pc.Waiting? && (call.pc.Failed? || IsMachineId(call.mid))
  {
    if ParseMachineId(machineId).Success? { ParseIsCanonical(machineId); }
    hide ParseMachineId, IsMachineId;
  }

  // ----- the random path

  lemma AttemptStep(r: Registry, max: nat, s: State, k: nat, c: nat, bytes: seq<nat>, fault: bool, applied: bool)
    requires Invariant(r, s) && k in s.calls && s.calls[k].pc.Trying? && P.Idle(s.db, c)
    ensures var (db, pc) := Attempted(r, max, s.db, s.calls[k], c, bytes, fault, applied);
            var next := State(db, s.calls[k := s.calls[k].(pc := pc)]);
            Invariant(r, next) && Grown(s.db.tables, next.db.tables)
  {
    hide *;
    var call := s.calls[k];
    var (db, pc) := Attempted(r, max, s.db, call, c, bytes, fault, applied);
    InvariantCall(r, s, k);
    CallIs(r, s.db, call);
    MachineBytes(call.mid);
    AttemptedCases(r, max, s.db, call, c, bytes, fault, applied);
    if pc.Created? || pc.Lost? {
      var row := Mapping(MachineIdToBytes(call.mid).value, call.namespace);
      ReserveStep(r, s, k, c, bytes, pc, row);
    } else {
      GrownReflexive(s.db.tables);
      CallIs(r, s.db, call.(pc := pc));
      QuietStep(r, s, k, call.(pc := pc));
    }
  }

  lemma AttemptedCases(
    r: Registry, max: nat, db: P.State, call: Create, c: nat, bytes: seq<nat>, fault: bool, applied: bool)
    requires call.pc.Trying? && MachineIdToBytes(call.mid).Some?
    ensures var (after, pc) := Attempted(r, max, db, call, c, bytes, fault, applied);
            var candidate := Candidate(r, call.namespace, bytes);
            var row := Mapping(MachineIdToBytes(call.mid).value, call.namespace);
            if pc.Created? || pc.Lost? then
              candidate == Success(pc.ref) && pc.issue == Drawn(bytes, db.owner != Some(c))
              && P.Answer(db, c, pc.ref, row) == Success(true) && after == P.Apply(db, P.Reserve(c, pc.ref, row))
            else (pc.Failed? || pc.Trying? || pc.Exhausted?) && after == db
  {
    hide Candidate, P.Answer, P.Apply, MachineIdToBytes;
  }

  lemma ReserveStep(r: Registry, s: State, k: nat, c: nat, bytes: seq<nat>, pc: Pc, row: Mapping)
    requires Invariant(r, s) && k in s.calls && s.calls[k].pc.Trying? && P.Idle(s.db, c)
    requires IsMachineId(s.calls[k].mid) && MachineIdToBytes(s.calls[k].mid) == Some(row.machine)
    requires row.namespace == s.calls[k].namespace && (pc.Created? || pc.Lost?)
    requires Candidate(r, s.calls[k].namespace, bytes) == Success(pc.ref) && pc.issue == Drawn(bytes, s.db.owner != Some(c))
    requires P.Answer(s.db, c, pc.ref, row) == Success(true)
    ensures var db := P.Apply(s.db, P.Reserve(c, pc.ref, row));
            Invariant(r, State(db, s.calls[k := s.calls[k].(pc := pc)])) && Grown(s.db.tables, db.tables)
  {
    hide *;
    var call := s.calls[k].(pc := pc);
    var db := P.Apply(s.db, P.Reserve(c, pc.ref, row));
    InvariantIs(r, s);
    CallIs(r, s.db, s.calls[k]);
    P.StepInvariant(s.db, P.Reserve(c, pc.ref, row));
    P.ReserveEffect(s.db, c, pc.ref, row);
    DrawnNamespace(r, call.namespace, bytes);
    DrawnOk(r, db, call, bytes, row);
    RowAdded(r, s.db.tables, pc.ref, row);
    RowAdded(r, s.db.pending, pc.ref, row);
    WroteReferenceIs(State(db, s.calls[k := call]), pc.ref, k);
    CreateStep(r, s, State(db, s.calls[k := call]), k, call);
  }

  lemma DrawnOk(r: Registry, db: P.State, call: Create, bytes: seq<nat>, row: Mapping)
    requires (call.pc.Created? || call.pc.Lost?) && call.pc.issue.Drawn? && call.pc.issue.bytes == bytes
    requires IsMachineId(call.mid) && MachineIdToBytes(call.mid) == Some(row.machine) && row.namespace == call.namespace
    requires Candidate(r, call.namespace, bytes) == Success(call.pc.ref)
    requires call.pc.issue.durable ==> call.pc.ref in db.tables.references && db.tables.references[call.pc.ref] == row
    ensures CallOk(r, db, call)
  {
    hide IsMachineId, MachineIdToBytes, Candidate;
  }

  lemma RowAdded(r: Registry, t: Tables, ref: string, row: Mapping)
    requires !SequentialNamespace(r, row.namespace)
    ensures RandomRows(r, t) ==> RandomRows(r, t.(references := t.references[ref := row]))
  {
    hide SequentialNamespace;
  }

  lemma WroteReferenceIs(s: State, ref: string, k: nat)
    ensures WroteReference(s, ref, k)
            <==> k in s.calls && Stored(s.calls[k].pc) && s.calls[k].pc.issue.Drawn? && s.calls[k].pc.ref == ref
    ensures k in s.calls ==> (Stored(s.calls[k].pc)
                              <==> (s.calls[k].pc.Created? || s.calls[k].pc.Lost?)
                                   && (s.calls[k].pc.issue.Drawn? ==> s.calls[k].pc.issue.durable))
  {
  }

  // ----- the sequential path

  lemma YearScopeDigits(year: Option<int>)
    requires YearScope(year).Some?
    ensures FourDigits(YearScope(year).value)
  {
    TenThousand();
    PadFits(year.value, 4);
    FixedWidthDigits(year.value, 4);
    hide ToDecimal, PadStart, FixedWidth, Pow, Number;
  }

  lemma TenThousand()
    ensures Pow(10, 4) == 10000
  {
    assert Pow(10, 0) == 1;
    assert Pow(10, 1) == 10;
    assert Pow(10, 2) == 100;
    assert Pow(10, 3) == 1000;
  }

  /** An allocation adds no row but the binding it returns, and never touches the references. */
  lemma AllocationRows(t: Tables, q: Request)
    ensures var (result, after) := Allocation(t, q);
            after.references == t.references
            && forall slot :: slot in after.bindings ==> slot in t.bindings || (result.Success? && slot == Slot(q.key, result.value))
  {
    hide MachineIdToBytes, CounterRowOk, Replay, Refusal, Last;
    if 4 <= q.width <= 18 { FreshLast(t, q); }
  }

  lemma FreshLast(t: Tables, q: Request)
    requires q.width >= 0
    ensures Last(WithCounter(t, q), q.key) == Last(t, q.key)
  {
    hide PrefixTaken;
  }

  /** An allocated number always has a reference. */
  lemma AllocatedFormats(r: Registry, t: Tables, q: Request, scope: Option<string>, n: nat)
    requires Valid(r) && Inv(t) && SequentialNamespace(r, q.key.namespace)
    requires ScopeFits(RequireReference(r, q.key.namespace).value.reference.value, scope)
    requires q.width == RequireReference(r, q.key.namespace).value.reference.value.width
    requires P.Settled(t, q, n)
    ensures FormatSequentialReference(r, q.key.namespace, n, scope).Success?
  {
    hide *;
    SequentialIs(r, q.key.namespace);
    P.SettledPolicy(t, q, n);
    SettledBound(t, q, n);
    MaximumIs(q.width);
    SequentialRoundTrip(r, q.key.namespace, n, scope);
  }

  lemma SettledBound(t: Tables, q: Request, n: nat)
    requires Inv(t) && P.Settled(t, q, n) && q.key in t.counters && t.counters[q.key].width == q.width
    ensures n <= Maximum(q.width)
  {
    hide MachineIdToBytes, Maximum, CounterRowOk, PrefixesUnique, MachinesUnique;
  }

  lemma MaximumIs(width: int)
    ensures width >= 0 ==> Maximum(width) == Pow(10, width) - 1
  {
  }

  lemma RequiredHasReference(r: Registry, namespace: string)
    ensures RequireReference(r, namespace).Success? ==> RequireReference(r, namespace).value.reference.Some?
  {
  }

  /** A scope to ask in fits a sequential namespace. */
  lemma ScopeIs(r: Registry, namespace: string, year: Option<int>)
    ensures Scope(r, namespace, year).Success? ==>
              SequentialNamespace(r, namespace)
              && ScopeFits(RequireReference(r, namespace).value.reference.value, Scope(r, namespace, year).value)
    ensures SequentialNamespace(r, namespace) ==>
              Scope(r, namespace, year)
              == if !HasScope(RequireReference(r, namespace).value.reference.value) then Success(None)
                 else if YearScope(year).Some? then Success(YearScope(year)) else Failure(InvalidAllocationPolicy)
  {
    RequiredHasReference(r, namespace);
    if YearScope(year).Some? { YearScopeDigits(year); }
    hide RequireReference, YearScope;
  }

  lemma AskStep(r: Registry, max: nat, s: State, k: nat, c: nat, year: Option<int>)
    requires Valid(r) && Invariant(r, s)
    ensures Invariant(r, Apply(r, max, s, Ask(k, c, year))) && Grown(s.db.tables, Apply(r, max, s, Ask(k, c, year)).db.tables)
  {
    hide *;
    GrownReflexive(s.db.tables);
    AskIs(r, max, s, k, c, year);
    if k in s.calls && s.calls[k].pc.Allocating? && P.Idle(s.db, c) && Free(s, c) {
      var call := s.calls[k];
      InvariantCall(r, s, k);
      CallIs(r, s.db, call);
      ScopeIs(r, call.namespace, year);
      match Scope(r, call.namespace, year) {
        case Failure(e) =>
          CallIs(r, s.db, call.(pc := Failed(e)));
          QuietStep(r, s, k, call.(pc := Failed(e)));
        case Success(scope) =>
          AskedStep(r, s, k, c, scope);
      }
    }
  }

  lemma AskIs(r: Registry, max: nat, s: State, k: nat, c: nat, year: Option<int>)
    ensures Apply(r, max, s, Ask(k, c, year))
            == if k !in s.calls || !s.calls[k].pc.Allocating? || !P.Idle(s.db, c) || !Free(s, c) then s
               else match Scope(r, s.calls[k].namespace, year)
                 case Failure(e) => s.(calls := s.calls[k := s.calls[k].(pc := Failed(e))])
                 case Success(scope) => Asked(r, s, k, c, scope)
  {
    hide Scope, Free, P.Idle, P.Apply, AllocationRequest;
  }

  lemma AskedStep(r: Registry, s: State, k: nat, c: nat, scope: Option<string>)
    requires Valid(r) && Invariant(r, s) && k in s.calls && s.calls[k].pc.Allocating? && IsMachineId(s.calls[k].mid)
    requires SequentialNamespace(r, s.calls[k].namespace)
    requires ScopeFits(RequireReference(r, s.calls[k].namespace).value.reference.value, scope)
    requires P.Idle(s.db, c) && Free(s, c)
    ensures var next := Asked(r, s, k, c, scope); Invariant(r, next) && next.db.tables == s.db.tables
  {
    hide *;
    var q := AllocationRequest(r, s.calls[k], scope);
    var call := s.calls[k].(pc := Waiting(c, scope));
    var next := Asked(r, s, k, c, scope);
    InvariantIs(r, s);
    RequestIs(r, s.calls[k], scope);
    RequestIs(r, call, scope);
    AskedIs(r, s, k, c, scope);
    P.StepInvariant(s.db, P.Invoke(c, q));
    P.InvokeEffect(s.db, c, q);
    WaitIs(r, next.db, call);
    CallIs(r, next.db, call);
    CallIs(r, s.db, s.calls[k]);
    forall j | j in s.calls && j != k ensures Continues(s, next, j) {
      if s.calls[j].pc.Waiting? { OtherRequest(s, next, c, j, next.db.calls[c]); }
      ContinuesIs(s, next, j);
    }
    OthersOk(r, s, next);
    forall j | j in s.calls ensures KeepsAuthor(s, next, j) {
      if j == k { NoAuthor(s, next, j); } else { SameAuthor(s, next, j); }
    }
    WrittenKept(s, next);
    AskedWaits(s, next, k, c, next.db.calls[c]);
    InvariantIs(r, next);
  }

  ghost function Asked(r: Registry, s: State, k: nat, c: nat, scope: Option<string>): State
    requires k in s.calls && SequentialNamespace(r, s.calls[k].namespace)
  {
    State(P.Apply(s.db, P.Invoke(c, AllocationRequest(r, s.calls[k], scope))),
          s.calls[k := s.calls[k].(pc := Waiting(c, scope))])
  }

  lemma AskedIs(r: Registry, s: State, k: nat, c: nat, scope: Option<string>)
    requires k in s.calls && SequentialNamespace(r, s.calls[k].namespace)
    ensures Asked(r, s, k, c, scope)
            == State(P.Apply(s.db, P.Invoke(c, AllocationRequest(r, s.calls[k], scope))),
                     s.calls[k := s.calls[k].(pc := Waiting(c, scope))])
  {
    hide P.Apply, AllocationRequest;
  }

  lemma OtherRequest(s: State, next: State, c: nat, j: nat, call: P.Call)
    requires j in s.calls && s.calls[j].pc.Waiting? && Free(s, c)
    requires next.db.calls == s.db.calls[c := call]
    ensures SameRequest(s.db, next.db, s.calls[j].pc.c)
  {
  }

  lemma AskedWaits(s: State, next: State, k: nat, c: nat, call: P.Call)
    requires Waits(s) && Free(s, c) && k in s.calls && !s.calls[k].pc.Waiting?
    requires exists scope :: next.calls == s.calls[k := s.calls[k].(pc := Waiting(c, scope))]
    requires next.db.calls == s.db.calls[c := call]
    ensures Waits(next)
  {
    assert WaitsOn(next, k, c);
    forall j: nat, d: nat | WaitsOn(next, j, d) ensures if j == k then d == c else d != c && WaitsOn(s, j, d) {
    }
    forall d: nat | !P.Idle(next.db, d) ensures exists j: nat :: WaitsOn(next, j, d) {
      if d != c {
        assert !P.Idle(s.db, d);
        var j: nat :| WaitsOn(s, j, d);
        assert WaitsOn(next, j, d);
      }
    }
  }

  /** A statement of a running allocation. */
  lemma DatabaseStep(r: Registry, s: State, a: P.Action)
    requires Invariant(r, s) && !a.Invoke? && !a.Reserve?
    ensures var next := s.(db := P.Apply(s.db, a)); Invariant(r, next) && Grown(s.db.tables, next.db.tables)
  {
    hide *;
    var next := s.(db := P.Apply(s.db, a));
    InvariantIs(r, s);
    P.StepInvariant(s.db, a);
    P.InvariantTables(s.db);
    P.KeepsCalls(s.db, a);
    forall c: nat ensures SameRequest(s.db, next.db, c) {
      SameRequestIs(s.db, next.db, c);
    }
    forall j | j in s.calls ensures Continues(s, next, j) && KeepsAuthor(s, next, j) {
      ContinuesIs(s, next, j);
      SameAuthor(s, next, j);
    }
    OthersOk(r, s, next);
    NewRows(s, a);
    WrittenKept(s, next);
    forall j: nat, c: nat ensures WaitsOn(next, j, c) <==> WaitsOn(s, j, c) {
      WaitsOnIs(s, j, c);
      WaitsOnIs(next, j, c);
    }
    WaitsKept(s, next);
    P.PendingReferences(s.db, a);
    SameRandomRows(r, s.db.tables, next.db.tables);
    SameRandomRows(r, s.db.tables, next.db.pending);
    SameRandomRows(r, s.db.pending, next.db.pending);
    InvariantIs(r, next);
  }

  lemma SameRequestIs(a: P.State, b: P.State, c: nat)
    ensures SameRequest(a, b, c) <==> (c in a.calls ==> c in b.calls && b.calls[c].q == a.calls[c].q)
  {
  }

  lemma SameRandomRows(r: Registry, a: Tables, b: Tables)
    ensures a.references == b.references && RandomRows(r, a) ==> RandomRows(r, b)
  {
    hide SequentialNamespace;
  }

  /** A committed allocation adds the one binding that a waiting create asked for. */
  lemma NewRows(s: State, a: P.Action)
    requires P.Invariant(s.db) && Waits(s) && !a.Invoke? && !a.Reserve?
    ensures var next := s.(db := P.Apply(s.db, a));
            next.db.tables.references == s.db.tables.references
            && forall slot :: slot in next.db.tables.bindings ==>
                 slot in s.db.tables.bindings || exists k: nat :: WroteBinding(next, slot, k)
  {
    hide *;
    var next := s.(db := P.Apply(s.db, a));
    P.InvariantTables(s.db);
    P.EveryStepAtomic(s.db, a);
    P.AtomicIs(s.db, a, next.db.tables);
    if next.db.tables != s.db.tables {
      var q, n := s.db.calls[a.c].q, s.db.calls[a.c].pc.n;
      AllocationRows(s.db.tables, q);
      P.WrittenRuns(s.db, a.c);
      P.SettlesFrom(s.db.tables, q, n);
      P.KeepsCalls(s.db, a);
      forall slot | slot in next.db.tables.bindings && slot !in s.db.tables.bindings
        ensures exists k: nat :: WroteBinding(next, slot, k)
      {
        var k := Waiter(s, a.c);
        NewAuthor(s, next, k, a.c, slot);
      }
    }
  }

  lemma Waiter(s: State, c: nat) returns (k: nat)
    requires Waits(s) && !P.Idle(s.db, c)
    ensures WaitsOn(s, k, c)
  {
    hide P.Idle, WaitsOn;
    k :| WaitsOn(s, k, c);
  }

  lemma NewAuthor(s: State, next: State, k: nat, c: nat, slot: Slot)
    requires WaitsOn(s, k, c) && next.calls == s.calls && c in next.db.calls
    requires slot.key == next.db.calls[c].q.key && P.Settled(next.db.tables, next.db.calls[c].q, slot.sequence)
    ensures WroteBinding(next, slot, k)
  {
    hide P.Settled;
  }

  /** The outcome of an allocation reaches the create that waited for it. */
  lemma CollectStep(r: Registry, s: State, k: nat)
    requires Valid(r) && Invariant(r, s) && k in s.calls && s.calls[k].pc.Waiting?
    requires s.calls[k].pc.c in s.db.calls && P.Idle(s.db, s.calls[k].pc.c)
    ensures Invariant(r, s.(calls := s.calls[k := s.calls[k].(pc := Collected(r, s.db, s.calls[k]))]))
  {
    hide *;
    var call := s.calls[k];
    var done := call.(pc := Collected(r, s.db, call));
    var next := s.(calls := s.calls[k := done]);
    InvariantIs(r, s);
    GrownReflexive(s.db.tables);
    CollectedOk(r, s, k);
    forall j | j in s.calls && j != k ensures Continues(s, next, j) {
      ContinuesIs(s, next, j);
      SameRequestIs(s.db, next.db, if s.calls[j].pc.Waiting? then s.calls[j].pc.c else 0);
    }
    OthersOk(r, s, next);
    forall j | j in s.calls ensures KeepsAuthor(s, next, j) {
      if j != k { SameAuthor(s, next, j); }
    }
    WrittenKept(s, next);
    CollectedWaits(s, next, k);
    InvariantIs(r, next);
  }

  lemma CollectedOk(r: Registry, s: State, k: nat)
    requires Valid(r) && Invariant(r, s) && k in s.calls && s.calls[k].pc.Waiting?
    requires s.calls[k].pc.c in s.db.calls && P.Idle(s.db, s.calls[k].pc.c)
    ensures var done := s.calls[k].(pc := Collected(r, s.db, s.calls[k]));
            CallOk(r, s.db, done) && !done.pc.Waiting? && KeepsAuthor(s, s.(calls := s.calls[k := done]), k)
  {
    hide *;
    var call := s.calls[k];
    var c, scope := call.pc.c, call.pc.scope;
    var q := s.db.calls[c].q;
    var done := call.(pc := Collected(r, s.db, call));
    InvariantCall(r, s, k);
    CallIs(r, s.db, call);
    WaitIs(r, s.db, call);
    RequestIs(r, call, scope);
    IdleEnded(s.db, c);
    CollectedIs(r, s.db, call);
    CallIs(r, s.db, done);
    if s.db.calls[c].pc.Returned? {
      P.ReturnedSettled(s.db, c);
      CollectedNumber(r, s, k, s.db.calls[c].pc.n);
    } else {
      match NumberOf(s.db.tables, q) {
        case Some(n) => CollectedNumber(r, s, k, n);
        case None => NothingKept(s, s.(calls := s.calls[k := done]), k);
      }
    }
  }

  lemma IdleEnded(db: P.State, c: nat)
    requires c in db.calls && P.Idle(db, c)
    ensures db.calls[c].pc.Returned? || db.calls[c].pc.Failed?
  {
  }

  lemma CollectedIs(r: Registry, db: P.State, call: Create)
    requires call.pc.Waiting? && call.pc.c in db.calls
    ensures var pc := db.calls[call.pc.c].pc;
            var number := if pc.Returned? then Some(pc.n) else NumberOf(db.tables, db.calls[call.pc.c].q);
            match number
            case Some(n) =>
              var text := FormatSequentialReference(r, call.namespace, n, call.pc.scope);
              (pc.Returned? && text.Success? ==> Collected(r, db, call) == Created(text.value, Numbered(n, call.pc.scope)))
              && (pc.Failed? && text.Success? ==> Collected(r, db, call) == Lost(text.value, Numbered(n, call.pc.scope)))
            case None => pc.Failed? ==> Collected(r, db, call) == Failed(pc.e)
  {
    hide FormatSequentialReference, NumberOf;
  }

  /** A committed number of a waiting create is its number. */
  lemma CollectedNumber(r: Registry, s: State, k: nat, n: nat)
    requires Valid(r) && Invariant(r, s) && k in s.calls && s.calls[k].pc.Waiting? && WaitOk(r, s.db, s.calls[k])
    requires IsMachineId(s.calls[k].mid) && SequentialNamespace(r, s.calls[k].namespace) && s.calls[k].pc.c in s.db.calls
    requires P.Settled(s.db.tables, s.db.calls[s.calls[k].pc.c].q, n)
    ensures var text := FormatSequentialReference(r, s.calls[k].namespace, n, s.calls[k].pc.scope);
            text.Success?
            && forall pc | pc == Created(text.value, Numbered(n, s.calls[k].pc.scope))
                           || pc == Lost(text.value, Numbered(n, s.calls[k].pc.scope)) ::
                 CallOk(r, s.db, s.calls[k].(pc := pc))
                 && KeepsAuthor(s, s.(calls := s.calls[k := s.calls[k].(pc := pc)]), k)
  {
    hide *;
    var call := s.calls[k];
    var q := s.db.calls[call.pc.c].q;
    InvariantCall(r, s, k);
    WaitingRecorded(r, s.db.tables, s.db, call, n);
    var text := FormatSequentialReference(r, call.namespace, n, call.pc.scope).value;
    WaitIs(r, s.db, call);
    RequestIs(r, call, call.pc.scope);
    forall pc | pc == Created(text, Numbered(n, call.pc.scope)) || pc == Lost(text, Numbered(n, call.pc.scope))
      ensures CallOk(r, s.db, call.(pc := pc)) && KeepsAuthor(s, s.(calls := s.calls[k := call.(pc := pc)]), k)
    {
      CallIs(r, s.db, call.(pc := pc));
      NumberKept(s, s.(calls := s.calls[k := call.(pc := pc)]), k, n);
    }
  }

  /** The number is recorded under its text. */
  lemma WaitingRecorded(r: Registry, t: Tables, db: P.State, call: Create, n: nat)
    requires Valid(r) && Inv(t) && call.pc.Waiting? && WaitOk(r, db, call) && IsMachineId(call.mid)
    requires call.pc.c in db.calls && P.Settled(t, db.calls[call.pc.c].q, n)
    ensures var text := FormatSequentialReference(r, call.namespace, n, call.pc.scope);
            text.Success? && Recorded(r, t, call.namespace, call.mid, Numbered(n, call.pc.scope), text.value)
  {
    hide *;
    var scope := call.pc.scope;
    var q := db.calls[call.pc.c].q;
    WaitIs(r, db, call);
    RequestIs(r, call, scope);
    SequentialIs(r, call.namespace);
    RequiredDefinition(r, call.namespace);
    SequentialWidth(r, RequireReference(r, call.namespace).value);
    AllocatedFormats(r, t, q, scope, n);
    MachineBytes(call.mid);
    P.SettledPolicy(t, q, n);
    SettledPrefix(t, q, n);
    var text := FormatSequentialReference(r, call.namespace, n, scope).value;
    NumberRecorded(r, t, call.namespace, call.mid, n, scope, text);
  }

  lemma SettledPrefix(t: Tables, q: Request, n: nat)
    requires P.Settled(t, q, n)
    ensures Slot(q.key, n) in t.bindings && t.bindings[Slot(q.key, n)].prefix == q.prefix
  {
    hide MachineIdToBytes;
  }

  lemma NumberRecorded(r: Registry, t: Tables, namespace: string, mid: string, n: nat, scope: Option<string>, ref: string)
    requires IsMachineId(mid) && MachineIdToBytes(mid).Some? && SequentialNamespace(r, namespace)
    requires FormatSequentialReference(r, namespace, n, scope) == Success(ref)
    requires Bound(t, Key(namespace, ScopeText(scope)), n, MachineIdToBytes(mid).value)
    requires Slot(Key(namespace, ScopeText(scope)), n) in t.bindings
    requires t.bindings[Slot(Key(namespace, ScopeText(scope)), n)].prefix
             == RequireReference(r, namespace).value.reference.value.prefix
    ensures Recorded(r, t, namespace, mid, Numbered(n, scope), ref)
  {
    hide IsMachineId, MachineIdToBytes, FormatSequentialReference, RequireReference, SequentialNamespace, ScopeText;
  }

  lemma NumberKept(s: State, next: State, k: nat, n: nat)
    requires Inv(s.db.tables) && k in s.calls && s.calls[k].pc.Waiting? && s.calls[k].pc.c in s.db.calls
    requires P.Settled(s.db.tables, s.db.calls[s.calls[k].pc.c].q, n)
    requires k in next.calls && (next.calls[k].pc.Created? || next.calls[k].pc.Lost?)
    requires next.calls[k].pc.issue == Numbered(n, s.calls[k].pc.scope)
    requires s.db.calls[s.calls[k].pc.c].q.key == Key(next.calls[k].namespace, ScopeText(s.calls[k].pc.scope))
    ensures KeepsAuthor(s, next, k)
  {
    hide P.Settled, Inv, ScopeText;
    var q := s.db.calls[s.calls[k].pc.c].q;
    forall slot | WroteBinding(s, slot, k) ensures WroteBinding(next, slot, k) {
      OneSettled(s.db.tables, q, n, slot.sequence);
      A.SlotIs(slot);
    }
  }

  lemma OneSettled(t: Tables, q: Request, n: nat, k: nat)
    requires Inv(t) && P.Settled(t, q, n) && P.Settled(t, q, k)
    ensures n == k
  {
    hide *;
    P.SettledPolicy(t, q, n);
    P.SettledPolicy(t, q, k);
    OneNumber(t, q.key, n, k, MachineIdToBytes(q.machineId).value);
  }

  lemma NothingKept(s: State, next: State, k: nat)
    requires k in s.calls && s.calls[k].pc.Waiting? && s.calls[k].pc.c in s.db.calls
    requires forall n: nat :: !P.Settled(s.db.tables, s.db.calls[s.calls[k].pc.c].q, n)
    ensures KeepsAuthor(s, next, k)
  {
    hide P.Settled;
  }

  lemma CollectedWaits(s: State, next: State, k: nat)
    requires Waits(s) && k in s.calls && s.calls[k].pc.Waiting? && P.Idle(s.db, s.calls[k].pc.c)
    requires next.db == s.db && next.calls.Keys == s.calls.Keys && !next.calls[k].pc.Waiting?
    requires forall j :: j in s.calls && j != k ==> next.calls[j] == s.calls[j]
    ensures Waits(next)
  {
    hide P.Idle;
    forall j: nat, c: nat ensures WaitsOn(next, j, c) <==> j != k && WaitsOn(s, j, c) {
    }
    forall c: nat | !P.Idle(next.db, c) ensures exists j: nat :: WaitsOn(next, j, c) {
      var j: nat :| WaitsOn(s, j, c);
      assert WaitsOn(next, j, c);
    }
  }

  // ----- runs

  lemma StepInvariant(r: Registry, max: nat, s: State, a: Action)
    requires Valid(r) && Invariant(r, s)
    ensures Invariant(r, Apply(r, max, s, a)) && Grown(s.db.tables, Apply(r, max, s, a).db.tables)
  {
    hide *;
    GrownReflexive(s.db.tables);
    match a {
      case Invoke(k, namespace, machineId) =>
        InvokeIs(r, max, s, k, namespace, machineId);
        OpeningOk(r, namespace, machineId);
        if k !in s.calls { QuietStep(r, s, k, Opening(r, namespace, machineId)); }
      case Attempt(k, c, bytes, fault, applied) =>
        AttemptIs(r, max, s, k, c, bytes, fault, applied);
        if k in s.calls && s.calls[k].pc.Trying? && P.Idle(s.db, c) {
          AttemptStep(r, max, s, k, c, bytes, fault, applied);
        }
      case Ask(k, c, year) =>
        AskStep(r, max, s, k, c, year);
      case Database(step) =>
        DatabaseIs(r, max, s, step);
        if !step.Invoke? && !step.Reserve? { DatabaseStep(r, s, step); }
      case Collect(k) =>
        CollectIs(r, max, s, k);
        if k in s.calls && s.calls[k].pc.Waiting? && s.calls[k].pc.c in s.db.calls && P.Idle(s.db, s.calls[k].pc.c) {
          CollectStep(r, s, k);
        }
    }
  }

  lemma InvokeIs(r: Registry, max: nat, s: State, k: nat, namespace: string, machineId: string)
    ensures Apply(r, max, s, Invoke(k, namespace, machineId))
            == if k in s.calls then s else s.(calls := s.calls[k := Opening(r, namespace, machineId)])
  {
    hide Opening;
  }

  lemma AttemptIs(r: Registry, max: nat, s: State, k: nat, c: nat, bytes: seq<nat>, fault: bool, applied: bool)
    ensures if k !in s.calls || !s.calls[k].pc.Trying? || !P.Idle(s.db, c)
            then Apply(r, max, s, Attempt(k, c, bytes, fault, applied)) == s
            else
              var (db, pc) := Attempted(r, max, s.db, s.calls[k], c, bytes, fault, applied);
              Apply(r, max, s, Attempt(k, c, bytes, fault, applied)) == State(db, s.calls[k := s.calls[k].(pc := pc)])
  {
    hide Attempted, P.Idle;
  }

  lemma DatabaseIs(r: Registry, max: nat, s: State, step: P.Action)
    ensures Apply(r, max, s, Database(step)) == if step.Invoke? || step.Reserve? then s else s.(db := P.Apply(s.db, step))
  {
    hide P.Apply;
  }

  lemma CollectIs(r: Registry, max: nat, s: State, k: nat)
    ensures Apply(r, max, s, Collect(k))
            == if k !in s.calls || !s.calls[k].pc.Waiting? || s.calls[k].pc.c !in s.db.calls
                  || !P.Idle(s.db, s.calls[k].pc.c) then s
               else s.(calls := s.calls[k := s.calls[k].(pc := Collected(r, s.db, s.calls[k]))])
  {
    hide Collected, P.Idle;
  }

  /** What a create issued stays as it is. */
  lemma IssuedStays(r: Registry, max: nat, s: State, a: Action, k: nat)
    requires k in s.calls && Issued(s.calls[k].pc)
    ensures k in Apply(r, max, s, a).calls && Apply(r, max, s, a).calls[k] == s.calls[k]
  {
    hide Attempted, Opening, Collected, Scope, AllocationRequest, P.Apply, P.Idle, Free;
  }

  lemma {:induction false} RunInvariant(r: Registry, max: nat, s: State, actions: seq<Action>)
    requires Valid(r) && Invariant(r, s)
    ensures Invariant(r, Run(r, max, s, actions)) && Grown(s.db.tables, Run(r, max, s, actions).db.tables)
    ensures forall k :: k in s.calls && Issued(s.calls[k].pc) ==>
              k in Run(r, max, s, actions).calls && Run(r, max, s, actions).calls[k] == s.calls[k]
    decreases |actions|
  {
    hide Invariant, Grown, Apply, Issued, Valid;
    if actions == [] {
      GrownReflexive(s.db.tables);
    } else {
      var next := Apply(r, max, s, actions[0]);
      StepInvariant(r, max, s, actions[0]);
      RunInvariant(r, max, next, actions[1..]);
      GrownTransitive(s.db.tables, next.db.tables, Run(r, max, next, actions[1..]).db.tables);
      forall k | k in s.calls && Issued(s.calls[k].pc)
        ensures k in Run(r, max, s, actions).calls && Run(r, max, s, actions).calls[k] == s.calls[k]
      {
        IssuedStays(r, max, s, actions[0], k);
      }
    }
  }

  /** A stored reference resolves in every later state, on every connection and in whatever accepted
      spelling it is asked for, to exactly its MID and namespace. */
  lemma IssuedForever(r: Registry, max: nat, s: State, actions: seq<Action>, k: nat, c: nat, value: string)
    requires Valid(r) && Invariant(r, s) && k in s.calls && Stored(s.calls[k].pc)
    requires ParseReference(value, r).Success? && Issued(s.calls[k].pc)
    requires ParseReference(value, r).value.value == s.calls[k].pc.ref
    ensures Resolve(r, P.View(Run(r, max, s, actions).db, c), value)
            == Success(Some(Resolved(s.calls[k].mid, s.calls[k].namespace, s.calls[k].pc.ref)))
  {
    hide *;
    RunInvariant(r, max, s, actions);
    var t := Run(r, max, s, actions);
    RecordedLookup(r, t, k, c);
    ParseIdempotent(value, r);
    ResolveFound(r, P.View(t.db, c), value, s.calls[k].mid);
  }

  // ----- reservations inside a transaction that was left open

  /** No create draws the reference again. */
  ghost predicate NoRedraw(r: Registry, actions: seq<Action>, ref: string)
  {
    forall a, namespace: string :: a in actions && a.Attempt? ==> Candidate(r, namespace, a.bytes) != Success(ref)
  }

  /** A random reference that a create returned is stored exactly when no transaction was open on its
      connection: then it resolves, in all later states; otherwise, in all later states until it is drawn
      again, the committed tables resolve it to nothing. */
  lemma CreatedDurableExactly(r: Registry, max: nat, s: State, k: nat, c: nat, bytes: seq<nat>, actions: seq<Action>)
    requires Valid(r) && Invariant(r, s) && k in s.calls && s.calls[k].pc.Trying? && P.Idle(s.db, c)
    requires var next := Apply(r, max, s, Attempt(k, c, bytes, false, false));
             k in next.calls && next.calls[k].pc.Created? && NoRedraw(r, actions, next.calls[k].pc.ref)
    ensures var next := Apply(r, max, s, Attempt(k, c, bytes, false, false));
            var ref := next.calls[k].pc.ref;
            next.calls[k].pc.issue == Drawn(bytes, s.db.owner != Some(c))
            && Resolve(r, Run(r, max, next, actions).db.tables, ref)
               == Success(if s.db.owner != Some(c) then Some(Resolved(next.calls[k].mid, next.calls[k].namespace, ref)) else None)
  {
    hide *;
    var next := Apply(r, max, s, Attempt(k, c, bytes, false, false));
    var call, ref := s.calls[k], next.calls[k].pc.ref;
    InvariantCall(r, s, k);
    CallIs(r, s.db, call);
    MachineBytes(call.mid);
    AttemptIs(r, max, s, k, c, bytes, false, false);
    AttemptedCases(r, max, s.db, call, c, bytes, false, false);
    StepInvariant(r, max, s, Attempt(k, c, bytes, false, false));
    CandidateRoundTrip(r, call.namespace, bytes);
    DrawnNamespace(r, call.namespace, bytes);
    var t := Run(r, max, next, actions);
    if s.db.owner != Some(c) {
      WroteReferenceIs(next, ref, k);
      CallIs(r, next.db, next.calls[k]);
      IssuedForever(r, max, next, actions, k, OtherThan(t.db), ref);
      OtherView(t.db);
    } else {
      P.ReserveStores(s.db, c, ref, Mapping(MachineIdToBytes(call.mid).value, call.namespace));
      P.IdleAbsent(next.db, c, ref);
      RunInvariant(r, max, next, actions);
      StaysAbsent(r, max, next, actions, ref);
      AbsentUnresolved(r, t, ref);
    }
  }

  /** A connection without an open transaction, and what it reads. */
  function OtherThan(db: P.State): nat { if db.owner.Some? then db.owner.value + 1 else 0 }

  lemma OtherView(db: P.State)
    ensures P.View(db, OtherThan(db)) == db.tables
  {
  }

  lemma {:induction false} StaysAbsent(r: Registry, max: nat, s: State, actions: seq<Action>, ref: string)
    requires Valid(r) && Invariant(r, s) && P.Absent(s.db, ref) && NoRedraw(r, actions, ref)
    ensures ref !in Run(r, max, s, actions).db.tables.references
    decreases |actions|
  {
    hide Valid, Invariant, Apply, P.Absent, Candidate;
    if actions == [] {
      P.AbsentIs(s.db, ref);
    } else {
      StepInvariant(r, max, s, actions[0]);
      assert actions[0] in actions && forall a :: a in actions[1..] ==> a in actions;
      StepAbsent(r, max, s, actions[0], ref);
      StaysAbsent(r, max, Apply(r, max, s, actions[0]), actions[1..], ref);
    }
  }

  lemma StepAbsent(r: Registry, max: nat, s: State, a: Action, ref: string)
    requires Invariant(r, s) && P.Absent(s.db, ref)
    requires forall namespace: string :: a.Attempt? ==> Candidate(r, namespace, a.bytes) != Success(ref)
    ensures P.Absent(Apply(r, max, s, a).db, ref)
  {
    hide *;
    InvariantIs(r, s);
    var step := DatabaseAction(r, max, s, a);
    if step.Some? { P.StepAbsent(s.db, ref, step.value); }
  }

  /** What a step does to the database. */
  lemma DatabaseAction(r: Registry, max: nat, s: State, a: Action) returns (step: Option<P.Action>)
    ensures match step
            case None => Apply(r, max, s, a).db == s.db
            case Some(x) =>
              Apply(r, max, s, a).db == P.Apply(s.db, x)
              && (x.Reserve? ==> a.Attempt? && a.k in s.calls && Candidate(r, s.calls[a.k].namespace, a.bytes) == Success(x.reference))
              && (x.Rollback? ==> a == Database(x))
  {
    hide P.Apply, P.Answer, Candidate, Opening, Scope, AllocationRequest, Collected, MachineIdToBytes, P.Idle, Free;
    step := None;
    match a {
      case Attempt(k, c, bytes, fault, applied) =>
        if k in s.calls && s.calls[k].pc.Trying? && Candidate(r, s.calls[k].namespace, bytes).Success?
           && MachineIdToBytes(s.calls[k].mid).Some? && Apply(r, max, s, a).db != s.db {
          var ref := Candidate(r, s.calls[k].namespace, bytes).value;
          step := Some(P.Reserve(c, ref, Mapping(MachineIdToBytes(s.calls[k].mid).value, s.calls[k].namespace)));
        }
      case Ask(k, c, year) =>
        if k in s.calls && Scope(r, s.calls[k].namespace, year).Success? && Apply(r, max, s, a) != s {
          ScopeIs(r, s.calls[k].namespace, year);
          step := Some(P.Invoke(c, AllocationRequest(r, s.calls[k], Scope(r, s.calls[k].namespace, year).value)));
        }
      case Database(x) =>
        if !x.Invoke? && !x.Reserve? { step := Some(x); }
      case _ =>
    }
  }

  lemma AbsentUnresolved(r: Registry, s: State, ref: string)
    requires Valid(r) && Invariant(r, s) && ref !in s.db.tables.references
    requires ParseReference(ref, r).Success? && ParseReference(ref, r).value.value == ref
    requires !SequentialNamespace(r, ParseReference(ref, r).value.namespace)
    ensures Resolve(r, s.db.tables, ref) == Success(None)
  {
    hide *;
    var p := ParseReference(ref, r).value;
    A.LookupIs(s.db.tables, ref, p.namespace);
    if ParseSequentialParts(ref).Some? {
      var parts := ParseSequentialParts(ref).value;
      var slot := Slot(Key(p.namespace, parts.scope), parts.sequence);
      if slot in s.db.tables.bindings { NoBindingRow(r, s, slot); }
    }
    ResolveNone(r, s.db.tables, ref);
  }

  /** Nothing was issued inside a transaction left open, and none is left open. */
  ghost predicate AllStored(s: State)
  {
    P.NoneLeft(s.db) && forall k :: k in s.calls && Issued(s.calls[k].pc) ==> Stored(s.calls[k].pc)
  }

  /** While every ROLLBACK works, every issued reference is stored. */
  lemma {:induction false} WorkingRollbacks(r: Registry, max: nat, s: State, actions: seq<Action>)
    requires AllStored(s) && forall a :: a in actions && a.Database? && a.a.Rollback? ==> a.a.works
    ensures AllStored(Run(r, max, s, actions))
    decreases |actions|
  {
    hide Apply, AllStored;
    if actions != [] {
      assert actions[0] in actions && forall a :: a in actions[1..] ==> a in actions;
      WorkingStep(r, max, s, actions[0]);
      WorkingRollbacks(r, max, Apply(r, max, s, actions[0]), actions[1..]);
    }
  }

  lemma WorkingStep(r: Registry, max: nat, s: State, a: Action)
    requires AllStored(s) && (a.Database? && a.a.Rollback? ==> a.a.works)
    ensures AllStored(Apply(r, max, s, a))
  {
    hide *;
    var next := Apply(r, max, s, a);
    AllStoredIs(s);
    var step := DatabaseAction(r, max, s, a);
    if step.Some? { P.WorkingStep(s.db, step.value); }
    forall k | k in next.calls && Issued(next.calls[k].pc) ensures Stored(next.calls[k].pc) {
      StoredStep(r, max, s, a, k);
    }
    AllStoredIs(next);
  }

  lemma AllStoredIs(s: State)
    ensures AllStored(s)
            <==> P.NoneLeft(s.db) && forall k :: k in s.calls && Issued(s.calls[k].pc) ==> Stored(s.calls[k].pc)
  {
    hide P.NoneLeft, Issued, Stored;
  }

  lemma StoredStep(r: Registry, max: nat, s: State, a: Action, k: nat)
    requires AllStored(s) && k in Apply(r, max, s, a).calls && Issued(Apply(r, max, s, a).calls[k].pc)
    ensures Stored(Apply(r, max, s, a).calls[k].pc)
  {
    hide P.Apply, P.Answer, Candidate, Scope, AllocationRequest, MachineIdToBytes, Free, ParseMachineId, NumberOf;
    hide FormatSequentialReference, YearScope;
    if a.Attempt? {
      assert a.k in s.calls && k == a.k && P.Idle(s.db, a.c) ==> s.db.owner != Some(a.c);
    }
  }

  // ----- exactness

  /** Two calls that stored the same reference have the same MID and namespace. */
  lemma DistinctReferences(r: Registry, s: State, j: nat, k: nat)
    requires Valid(r) && Invariant(r, s) && j in s.calls && k in s.calls
    requires Stored(s.calls[j].pc) && Stored(s.calls[k].pc) && Issued(s.calls[j].pc) && Issued(s.calls[k].pc)
    requires s.calls[j].pc.ref == s.calls[k].pc.ref
    ensures s.calls[j].mid == s.calls[k].mid && s.calls[j].namespace == s.calls[k].namespace
  {
    hide *;
    RecordedLookup(r, s, j, 0);
    RecordedLookup(r, s, k, 0);
    MachineBytes(s.calls[j].mid);
    MachineBytes(s.calls[k].mid);
    BytesInjective(s.calls[j].mid, s.calls[k].mid);
  }

  /** Create `k` stored the reference: it issued it, or still waits while its number is committed. */
  ghost predicate StoredAs(r: Registry, s: State, k: nat, x: Resolved)
  {
    k in s.calls && x.machineId == s.calls[k].mid && x.namespace == s.calls[k].namespace
    && var pc := s.calls[k].pc;
       if pc.Waiting? then
         pc.c in s.db.calls && exists n: nat :: P.Settled(s.db.tables, s.db.calls[pc.c].q, n)
                                                && FormatSequentialReference(r, x.namespace, n, pc.scope) == Success(x.reference)
       else Stored(pc) && pc.ref == x.reference
  }

  lemma StoredAsRecorded(r: Registry, s: State, k: nat, x: Resolved) returns (issue: Issue)
    requires Valid(r) && Invariant(r, s) && StoredAs(r, s, k, x)
    ensures Recorded(r, s.db.tables, x.namespace, x.machineId, issue, x.reference)
  {
    hide *;
    var n := StoredParts(r, s, k, x);
    InvariantCall(r, s, k);
    var call := s.calls[k];
    CallIs(r, s.db, call);
    if call.pc.Waiting? {
      WaitingRecorded(r, s.db.tables, s.db, call, n);
      issue := Numbered(n, call.pc.scope);
    } else {
      issue := call.pc.issue;
    }
  }

  lemma StoredParts(r: Registry, s: State, k: nat, x: Resolved) returns (n: nat)
    requires StoredAs(r, s, k, x)
    ensures k in s.calls && x.machineId == s.calls[k].mid && x.namespace == s.calls[k].namespace
    ensures var pc := s.calls[k].pc;
            if pc.Waiting? then
              pc.c in s.db.calls && P.Settled(s.db.tables, s.db.calls[pc.c].q, n)
              && FormatSequentialReference(r, x.namespace, n, pc.scope) == Success(x.reference)
            else (pc.Created? || pc.Lost?) && Stored(pc) && pc.ref == x.reference
  {
    hide P.Settled, FormatSequentialReference;
    n := 0;
    if s.calls[k].pc.Waiting? {
      n :| P.Settled(s.db.tables, s.db.calls[s.calls[k].pc.c].q, n)
           && FormatSequentialReference(r, x.namespace, n, s.calls[k].pc.scope) == Success(x.reference);
    }
  }

  /** Resolving is exact: on a connection without an open transaction an acceptable text resolves to
      something precisely when a create stored its canonical form, and to null otherwise — an all-digit
      random reference that falls through to the sequential query included. */
  lemma ResolveExact(r: Registry, s: State, c: nat, value: string)
    requires Valid(r) && Invariant(r, s) && s.db.owner != Some(c) && ParseReference(value, r).Success?
    ensures Resolve(r, P.View(s.db, c), value).Success?
    ensures forall x: Resolved :: (Resolve(r, P.View(s.db, c), value).value == Some(x)
                         <==> x.reference == ParseReference(value, r).value.value && exists k: nat :: StoredAs(r, s, k, x))
  {
    hide *;
    ViewIs(s.db, c);
    InvariantIs(r, s);
    var t := s.db.tables;
    var p := ParseReference(value, r).value;
    if Lookup(t, p.value, p.namespace).Some? {
      var k, mid := Author(r, s, value);
      var found := Resolved(mid, p.namespace, p.value);
      var issue := StoredAsRecorded(r, s, k, found);
      RecordFound(r, t, p.namespace, mid, issue, p.value);
      ResolveFound(r, t, value, mid);
      forall x: Resolved | x.reference == p.value && exists d: nat :: StoredAs(r, s, d, x) ensures x == found {
        var d: nat :| StoredAs(r, s, d, x);
        OneAuthor(r, s, k, found, d, x);
      }
    } else {
      ResolveNone(r, t, value);
      forall x: Resolved, d: nat | StoredAs(r, s, d, x) ensures x.reference != p.value {
        var issue := StoredAsRecorded(r, s, d, x);
        RecordFound(r, t, x.namespace, x.machineId, issue, x.reference);
        ParseIdempotent(value, r);
      }
    }
  }

  /** Resolving fails for the texts that are no references, and with their error. */
  lemma ResolveRefused(r: Registry, s: State, c: nat, value: string, e: Error)
    requires Valid(r) && Invariant(r, s) && s.db.owner != Some(c)
    ensures Resolve(r, P.View(s.db, c), value) == Failure(e) <==> ParseReference(value, r) == Failure(e)
  {
    hide *;
    if ParseReference(value, r).Success? {
      ResolveExact(r, s, c, value);
    } else {
      ResolveFails(r, P.View(s.db, c), value);
    }
  }

  lemma ResolveFails(r: Registry, t: Tables, value: string)
    requires ParseReference(value, r).Failure?
    ensures Resolve(r, t, value) == Failure(ParseReference(value, r).error)
  {
    hide ParseReference, Lookup, BytesToMachineId, ParseMachineId;
  }

  lemma ViewIs(db: P.State, c: nat)
    ensures P.View(db, c) == if db.owner == Some(c) then db.pending else db.tables
  {
  }

  lemma OneAuthor(r: Registry, s: State, j: nat, x: Resolved, k: nat, y: Resolved)
    requires Valid(r) && Invariant(r, s) && StoredAs(r, s, j, x) && StoredAs(r, s, k, y) && x.reference == y.reference
    ensures x == y
  {
    hide *;
    InvariantIs(r, s);
    var one := StoredAsRecorded(r, s, j, x);
    var two := StoredAsRecorded(r, s, k, y);
    RecordFound(r, s.db.tables, x.namespace, x.machineId, one, x.reference);
    RecordFound(r, s.db.tables, y.namespace, y.machineId, two, y.reference);
    MachineBytes(x.machineId);
    MachineBytes(y.machineId);
    BytesInjective(x.machineId, y.machineId);
  }

  /** The create behind a lookup that found something. */
  lemma Author(r: Registry, s: State, value: string) returns (k: nat, mid: string)
    requires Valid(r) && Invariant(r, s) && ParseReference(value, r).Success?
    requires Lookup(s.db.tables, ParseReference(value, r).value.value, ParseReference(value, r).value.namespace).Some?
    ensures var p := ParseReference(value, r).value; StoredAs(r, s, k, Resolved(mid, p.namespace, p.value))
  {
    hide *;
    var p := ParseReference(value, r).value;
    A.LookupIs(s.db.tables, p.value, p.namespace);
    if p.value in s.db.tables.references && s.db.tables.references[p.value].namespace == p.namespace {
      k := ReferenceAuthor(r, s, p.value);
    } else {
      var parts := ParseSequentialParts(p.value).value;
      k := BindingAuthor(r, s, value, Slot(Key(p.namespace, parts.scope), parts.sequence));
    }
    mid := s.calls[k].mid;
  }

  lemma ReferenceAuthor(r: Registry, s: State, ref: string) returns (k: nat)
    requires Invariant(r, s) && ref in s.db.tables.references
    ensures k in s.calls && Stored(s.calls[k].pc) && Issued(s.calls[k].pc) && s.calls[k].pc.ref == ref && IsMachineId(s.calls[k].mid)
    ensures MachineIdToBytes(s.calls[k].mid) == Some(s.db.tables.references[ref].machine)
    ensures s.calls[k].namespace == s.db.tables.references[ref].namespace
    ensures StoredAs(r, s, k, Resolved(s.calls[k].mid, s.calls[k].namespace, ref))
  {
    hide P.Invariant, Waits, RandomRows, Candidate, IsMachineId, MachineIdToBytes, WroteBinding, WaitOk;
    k :| WroteReference(s, ref, k);
    assert CallOk(r, s.db, s.calls[k]);
  }

  /** No binding stands under a random namespace. */
  lemma NoBindingRow(r: Registry, s: State, slot: Slot)
    requires Valid(r) && Invariant(r, s) && slot in s.db.tables.bindings
    ensures SequentialNamespace(r, slot.key.namespace)
  {
    hide *;
    var k, scope := BindingWriter(r, s, slot);
  }

  lemma BindingAuthor(r: Registry, s: State, value: string, slot: Slot) returns (k: nat)
    requires Valid(r) && Invariant(r, s) && ParseReference(value, r).Success? && slot in s.db.tables.bindings
    requires var p := ParseReference(value, r).value;
             slot.key.namespace == p.namespace && ParseSequentialParts(p.value).Some?
             && slot.key.scope == ParseSequentialParts(p.value).value.scope
             && slot.sequence == ParseSequentialParts(p.value).value.sequence
    ensures var p := ParseReference(value, r).value;
            k in s.calls && StoredAs(r, s, k, Resolved(s.calls[k].mid, p.namespace, p.value))
  {
    hide *;
    var p := ParseReference(value, r).value;
    NoBindingRow(r, s, slot);
    var n, scope := SequentialReading(r, value);
    NumberedText(r, p.namespace, n, scope);
    var own: Option<string>;
    k, own := BindingWriter(r, s, slot);
    SequentialIs(r, p.namespace);
    SequentialRoundTrip(r, p.namespace, n, scope);
    SequentialRoundTrip(r, p.namespace, n, own);
    SameScope(RequireReference(r, p.namespace).value.reference.value, scope, own);
  }

  lemma SameScope(ref: Reference, a: Option<string>, b: Option<string>)
    requires ScopeFits(ref, a) && ScopeFits(ref, b) && ScopeText(a) == ScopeText(b)
    ensures a == b
  {
  }

  lemma BindingWriter(r: Registry, s: State, slot: Slot) returns (k: nat, scope: Option<string>)
    requires Valid(r) && Invariant(r, s) && slot in s.db.tables.bindings
    ensures SequentialNamespace(r, slot.key.namespace) && ScopeText(scope) == slot.key.scope
    ensures FormatSequentialReference(r, slot.key.namespace, slot.sequence, scope).Success?
    ensures k in s.calls
            && StoredAs(r, s, k, Resolved(s.calls[k].mid, slot.key.namespace,
                                          FormatSequentialReference(r, slot.key.namespace, slot.sequence, scope).value))
  {
    hide *;
    InvariantIs(r, s);
    k := SlotAuthor(s, slot);
    var call := s.calls[k];
    InvariantCall(r, s, k);
    CallIs(r, s.db, call);
    if call.pc.Waiting? {
      scope := call.pc.scope;
      WaitIs(r, s.db, call);
      RequestIs(r, call, scope);
      WaitingRecorded(r, s.db.tables, s.db, call, slot.sequence);
      MakeWaitingStored(r, s, k, slot.sequence);
    } else {
      scope := call.pc.issue.scope;
      RecordedParts(r, s.db.tables, call.namespace, call.mid, call.pc.issue, call.pc.ref);
      MakeStored(r, s, k);
    }
  }

  lemma SlotAuthor(s: State, slot: Slot) returns (k: nat)
    requires AllWritten(s) && slot in s.db.tables.bindings
    ensures k in s.calls
    ensures var pc := s.calls[k].pc;
            if pc.Waiting? then
              pc.c in s.db.calls && slot.key == s.db.calls[pc.c].q.key
              && P.Settled(s.db.tables, s.db.calls[pc.c].q, slot.sequence)
            else
              (pc.Created? || pc.Lost?) && Stored(pc) && pc.issue.Numbered?
              && slot == Slot(Key(s.calls[k].namespace, ScopeText(pc.issue.scope)), pc.issue.n)
  {
    hide P.Settled, WroteReference, ScopeText;
    k :| WroteBinding(s, slot, k);
  }

  lemma MakeWaitingStored(r: Registry, s: State, k: nat, n: nat)
    requires k in s.calls && s.calls[k].pc.Waiting? && s.calls[k].pc.c in s.db.calls
    requires P.Settled(s.db.tables, s.db.calls[s.calls[k].pc.c].q, n)
    requires FormatSequentialReference(r, s.calls[k].namespace, n, s.calls[k].pc.scope).Success?
    ensures StoredAs(r, s, k, Resolved(s.calls[k].mid, s.calls[k].namespace,
                                       FormatSequentialReference(r, s.calls[k].namespace, n, s.calls[k].pc.scope).value))
  {
    hide P.Settled, FormatSequentialReference;
  }

  lemma MakeStored(r: Registry, s: State, k: nat)
    requires k in s.calls && (s.calls[k].pc.Created? || s.calls[k].pc.Lost?) && Stored(s.calls[k].pc)
    ensures StoredAs(r, s, k, Resolved(s.calls[k].mid, s.calls[k].namespace, s.calls[k].pc.ref))
  {
  }

  /** Every canonical reference of a sequential namespace is the text of one number and scope. */
  lemma SequentialReading(r: Registry, value: string) returns (n: nat, scope: Option<string>)
    requires Valid(r) && ParseReference(value, r).Success? && SequentialNamespace(r, ParseReference(value, r).value.namespace)
    ensures FormatSequentialReference(r, ParseReference(value, r).value.namespace, n, scope)
            == Success(ParseReference(value, r).value.value)
  {
    hide *;
    var d, c, payload := AcceptedIsWritten(value, r);
    AcceptsLength(d.reference.value, c, payload);
    var check := c[|c| - 1];
    AcceptsPayload(d.reference.value, c, payload);
    ParsedValue(d, payload, check);
    RequiredIs(r, d);
    SequentialIs(r, d.publicPrefix);
    SequentialWidth(r, d);
    n, scope := PayloadReading(d.reference.value, payload, check);
    FormatUnfold(r, d.publicPrefix, n, scope, d);
    PayloadCheck(d.reference.value, payload, check);
  }

  lemma RequiredIs(r: Registry, d: Definition)
    requires Valid(r) && d in r.definitions && d.reference.Some?
    ensures RequireReference(r, d.publicPrefix) == Success(d)
  {
    var i :| 0 <= i < |r.definitions| && r.definitions[i] == d;
  }

  lemma PayloadCheck(ref: Reference, payload: string, check: char)
    requires Payload(ref, payload, check) && ref.Sequential?
    ensures CheckSymbol(payload, Decimal()) == Success(check)
  {
  }

  /** A decimal payload, taken apart into its scope and the number it ends with. */
  lemma PayloadReading(ref: Reference, payload: string, check: char) returns (n: nat, scope: Option<string>)
    requires ref.Sequential? && ref.width > 0 && Payload(ref, payload, check)
    ensures n < Pow(10, ref.width) && ScopeFits(ref, scope) && payload == ScopedPayload(n, ref.width, scope)
  {
    PayloadDigits(ref, payload, check);
    var k := if HasScope(ref) then 4 else 0;
    var digits := payload[k..];
    hide FixedWidth, Value, Pow, Decimal;
    DigitsRead(digits);
    FixedWidthOf(digits);
    n := Value(Read(digits, Decimal()).value, 10);
    scope := if HasScope(ref) then Some(payload[..4]) else None;
    assert payload == payload[..k] + digits;
  }

  lemma PayloadDigits(ref: Reference, payload: string, check: char)
    requires ref.Sequential? && Payload(ref, payload, check)
    ensures |payload| == PayloadLength(ref) && forall i :: 0 <= i < |payload| ==> IsDigit(payload[i])
  {
    hide Decimal, CheckAt, Value;
    forall i | 0 <= i < |payload| ensures IsDigit(payload[i]) {
      assert payload[i] in Decimal();
      DecimalSymbol(payload[i]);
    }
  }

  lemma DigitsRead(digits: string)
    requires forall i :: 0 <= i < |digits| ==> IsDigit(digits[i])
    ensures Read(digits, Decimal()).Some?
  {
    hide Decimal;
    forall i | 0 <= i < |digits| ensures digits[i] in Decimal() { DecimalSymbol(digits[i]); }
  }

  /** A create that issued nothing — one that ran out of attempts in particular — stored nothing: a
      random row with its MID belongs to another call with that MID. */
  lemma UnissuedStoresNothing(r: Registry, s: State, k: nat, ref: string)
    requires Valid(r) && Invariant(r, s) && k in s.calls && !Issued(s.calls[k].pc) && IsMachineId(s.calls[k].mid)
    requires ref in s.db.tables.references && Some(s.db.tables.references[ref].machine) == MachineIdToBytes(s.calls[k].mid)
    ensures exists j: nat :: j != k && j in s.calls && Issued(s.calls[j].pc) && s.calls[j].pc.ref == ref
                             && s.calls[j].mid == s.calls[k].mid
  {
    hide *;
    var j := ReferenceAuthor(r, s, ref);
    MachineBytes(s.calls[k].mid);
    MachineBytes(s.calls[j].mid);
    BytesInjective(s.calls[k].mid, s.calls[j].mid);
  }

  /** The three identifiers of one identity lead to each other: the PID parses to the MID, and the
      reference, once stored, resolves to it in every later state and on every connection. */
  lemma IdentityAgrees(r: Registry, max: nat, s: State, actions: seq<Action>, k: nat, c: nat)
    requires Valid(r) && Invariant(r, s) && k in s.calls && s.calls[k].pc.Created? && Stored(s.calls[k].pc)
    ensures var call := s.calls[k];
            var pid := PublicId.PublicIdFromMachineId(call.mid, call.namespace);
            pid.Success? && PublicId.ParsePublicId(pid.value) == Success(PublicId.ParsedPublicId(pid.value, call.namespace, call.mid))
            && Resolve(r, P.View(Run(r, max, s, actions).db, c), call.pc.ref)
               == Success(Some(Resolved(call.mid, call.namespace, call.pc.ref)))
  {
    hide *;
    RecordedLookup(r, s, k, c);
    IssuedForever(r, max, s, actions, k, c, s.calls[k].pc.ref);
    var call := s.calls[k];
    NamespacePrefix(r, call.pc.ref);
    PublicId.MachineToPublicToMachine(call.mid, call.namespace);
  }

  lemma NamespacePrefix(r: Registry, value: string)
    requires Valid(r) && ParseReference(value, r).Success?
    ensures PublicId.PrefixValid(ParseReference(value, r).value.namespace)
  {
    var d, c, payload := AcceptedIsWritten(value, r);
    hide ParseReference, Accepts, Written, Canonical, PublicIndex, ReferenceIndex, PairwiseCompatible;
    var i :| 0 <= i < |r.definitions| && r.definitions[i] == d;
    assert DefinitionValid(r.definitions[i]);
  }

  // ----- undisturbed creates succeed

  lemma RunTwo(r: Registry, max: nat, s: State, a: Action, b: Action)
    ensures Run(r, max, s, [a, b]) == Apply(r, max, Apply(r, max, s, a), b)
  {
    hide Apply;
    assert [a, b][1..] == [b] && [b][1..] == [];
    var next := Apply(r, max, s, a);
    assert Run(r, max, s, [a, b]) == Run(r, max, next, [b]);
    assert Run(r, max, next, [b]) == Run(r, max, Apply(r, max, next, b), []);
  }

  lemma OpeningIs(r: Registry, namespace: string, mid: string)
    requires Valid(r) && RequireReference(r, namespace).Success? && IsMachineId(mid)
    ensures RequireReference(r, namespace).value.reference.Some?
    ensures Opening(r, namespace, mid)
            == Create(namespace, mid, if RequireReference(r, namespace).value.reference.value.Random? then Trying(0) else Allocating)
  {
    hide Valid, ParseMachineId;
    MachineSelf(mid);
  }

  /** On empty tables the first draw of a random create is reserved and returned. */
  lemma FirstRandomCreate(r: Registry, max: nat, namespace: string, mid: string, c: nat, bytes: seq<nat>)
    requires Valid(r) && IsMachineId(mid) && Candidate(r, namespace, bytes).Success?
    ensures var s := Run(r, max, Start(), RandomCreate(0, c, namespace, mid, bytes));
            var ref := Candidate(r, namespace, bytes).value;
            0 in s.calls && s.calls[0] == Create(namespace, mid, Created(ref, Drawn(bytes, true)))
            && s.db.tables.references.Keys == {ref}
  {
    hide *;
    StartIs();
    var ref, db := Candidate(r, namespace, bytes).value, P.Start(Empty());
    FreshIs(db, c);
    ViewIs(db, c);
    DrawSucceeds(r, max, Start(), 0, c, namespace, mid, bytes);
    P.ReserveEffect(db, c, ref, Mapping(MachineIdToBytes(mid).value, namespace));
    assert map[][ref := Mapping(MachineIdToBytes(mid).value, namespace)].Keys == {ref};
  }

  function RandomCreate(k: nat, c: nat, namespace: string, mid: string, bytes: seq<nat>): seq<Action>
  {
    [Invoke(k, namespace, mid), Attempt(k, c, bytes, false, false)]
  }

  lemma StartIs()
    ensures Start() == State(P.Start(Empty()), map[]) && P.Start(Empty()) == P.State(Empty(), None, Empty(), map[])
    ensures Empty().references == map[] && Empty().bindings == map[]
  {
  }

  lemma FreshIs(db: P.State, c: nat)
    requires c !in db.calls
    ensures P.Idle(db, c)
  {
  }

  /** A new random create whose first draw is free on its connection. */
  lemma DrawSucceeds(r: Registry, max: nat, s: State, k: nat, c: nat, namespace: string, mid: string, bytes: seq<nat>)
    requires Valid(r) && IsMachineId(mid) && Candidate(r, namespace, bytes).Success? && k !in s.calls
    requires P.Idle(s.db, c) && (s.db.owner.None? || s.db.owner == Some(c))
    requires Candidate(r, namespace, bytes).value !in P.View(s.db, c).references
    ensures MachineIdToBytes(mid).Some?
    ensures var ref := Candidate(r, namespace, bytes).value;
            var row := Mapping(MachineIdToBytes(mid).value, namespace);
            P.Answer(s.db, c, ref, row) == Success(true)
            && Run(r, max, s, RandomCreate(k, c, namespace, mid, bytes))
               == State(P.Apply(s.db, P.Reserve(c, ref, row)),
                        s.calls[k := Create(namespace, mid, Created(ref, Drawn(bytes, s.db.owner != Some(c))))])
  {
    hide *;
    var ref := Candidate(r, namespace, bytes).value;
    var invoke, attempt := Invoke(k, namespace, mid), Attempt(k, c, bytes, false, false);
    CandidateRoundTrip(r, namespace, bytes);
    DrawnNamespace(r, namespace, bytes);
    RequiredDefinition(r, namespace);
    OpeningIs(r, namespace, mid);
    MachineBytes(mid);
    RandomCreateIs(k, c, namespace, mid, bytes);
    RunTwo(r, max, s, invoke, attempt);
    InvokeIs(r, max, s, k, namespace, mid);
    var begun := Create(namespace, mid, Trying(0));
    var s1 := State(s.db, s.calls[k := begun]);
    AttemptIs(r, max, s1, k, c, bytes, false, false);
    CandidateRow(r, namespace, bytes, MachineIdToBytes(mid).value);
    FreeAnswer(s.db, c, ref, Mapping(MachineIdToBytes(mid).value, namespace));
    DrawAttempted(r, max, s.db, begun, c, bytes);
    assert s.calls[k := begun][k := begun.(pc := Created(ref, Drawn(bytes, s.db.owner != Some(c))))]
           == s.calls[k := Create(namespace, mid, Created(ref, Drawn(bytes, s.db.owner != Some(c))))];
  }

  lemma RandomCreateIs(k: nat, c: nat, namespace: string, mid: string, bytes: seq<nat>)
    ensures RandomCreate(k, c, namespace, mid, bytes) == [Invoke(k, namespace, mid), Attempt(k, c, bytes, false, false)]
  {
  }

  lemma FreeAnswer(db: P.State, c: nat, ref: string, row: Mapping)
    requires db.owner.None? || db.owner == Some(c)
    requires ReferenceRowOk(ref, row) && ref !in P.View(db, c).references
    ensures P.Answer(db, c, ref, row) == Success(true)
  {
    hide ReferenceRowOk;
  }

  lemma DrawAttempted(r: Registry, max: nat, db: P.State, call: Create, c: nat, bytes: seq<nat>)
    requires call.pc.Trying? && Candidate(r, call.namespace, bytes).Success? && MachineIdToBytes(call.mid).Some?
    ensures var ref := Candidate(r, call.namespace, bytes).value;
            var row := Mapping(MachineIdToBytes(call.mid).value, call.namespace);
            P.Answer(db, c, ref, row) == Success(true) ==>
              Attempted(r, max, db, call, c, bytes, false, false)
              == (P.Apply(db, P.Reserve(c, ref, row)), Created(ref, Drawn(bytes, db.owner != Some(c))))
  {
    hide Candidate, MachineIdToBytes, P.Answer, P.Apply;
  }

  lemma CandidateRow(r: Registry, namespace: string, bytes: seq<nat>, machine: Bytes)
    requires Valid(r) && Candidate(r, namespace, bytes).Success? && |machine| == 16
    requires ParseReference(Candidate(r, namespace, bytes).value, r).Success?
    requires ParseReference(Candidate(r, namespace, bytes).value, r).value.namespace == namespace
    ensures ReferenceRowOk(Candidate(r, namespace, bytes).value, Mapping(machine, namespace))
  {
    hide *;
    var ref := Candidate(r, namespace, bytes).value;
    ReferenceSize(r, ref);
    NamespacePrefix(r, ref);
    RowOk(ref, Mapping(machine, namespace));
  }

  lemma ReferenceSize(r: Registry, value: string)
    requires Valid(r) && ParseReference(value, r).Success?
    ensures 4 <= |value| <= 34
  {
    hide *;
    var d, c, payload := AcceptedIsWritten(value, r);
    AcceptsLength(d.reference.value, c, payload);
    AcceptedSymbols(d.reference.value, c, payload);
    DefinitionBounds(r, d);
    ParseWritten(value, r, d, c, payload);
    WrittenCompact(Upper(value), d.reference.value, c);
    CompactResult(Upper(value));
  }

  lemma RowOk(ref: string, m: Mapping)
    requires 4 <= |ref| <= 34 && PublicId.PrefixValid(m.namespace) && |m.machine| == 16
    ensures ReferenceRowOk(ref, m)
  {
  }

  // ----- an allocation and its create

  /** Create `k` with its allocation on connection `c`, made of the given statements. */
  function SequentialCreate(k: nat, c: nat, namespace: string, mid: string, year: int, steps: seq<P.Action>): seq<Action>
  {
    [Invoke(k, namespace, mid), Ask(k, c, Some(year))] + Lifted(steps) + [Collect(k)]
  }

  function Lifted(steps: seq<P.Action>): seq<Action>
  {
    seq(|steps|, i requires 0 <= i < |steps| => Database(steps[i]))
  }

  lemma {:induction false} RunConcat(r: Registry, max: nat, s: State, a: seq<Action>, b: seq<Action>)
    ensures Run(r, max, s, a + b) == Run(r, max, Run(r, max, s, a), b)
    decreases |a|
  {
    hide Apply;
    if a == [] {
      assert a + b == b;
    } else {
      assert (a + b)[0] == a[0] && (a + b)[1..] == a[1..] + b;
      RunConcat(r, max, Apply(r, max, s, a[0]), a[1..], b);
    }
  }

  lemma {:induction false} LiftedRun(r: Registry, max: nat, s: State, steps: seq<P.Action>)
    requires forall i :: 0 <= i < |steps| ==> !steps[i].Invoke? && !steps[i].Reserve?
    ensures Run(r, max, s, Lifted(steps)) == s.(db := P.Run(s.db, steps))
    decreases |steps|
  {
    hide Apply, P.Apply;
    if steps != [] {
      assert Lifted(steps)[0] == Database(steps[0]) && Lifted(steps)[1..] == Lifted(steps[1..]);
      DatabaseIs(r, max, s, steps[0]);
      LiftedRun(r, max, s.(db := P.Apply(s.db, steps[0])), steps[1..]);
    }
  }

  lemma SequentialRun(
    r: Registry, max: nat, s: State, k: nat, c: nat, namespace: string, mid: string, year: int, steps: seq<P.Action>)
    requires Valid(r) && IsMachineId(mid) && SequentialNamespace(r, namespace) && 0 <= year <= 9999
    requires k !in s.calls && P.Idle(s.db, c) && Free(s, c)
    requires forall i :: 0 <= i < |steps| ==> !steps[i].Invoke? && !steps[i].Reserve?
    requires var db := P.Run(P.Apply(s.db, P.Invoke(c, YearRequest(r, namespace, mid, year))), steps); c in db.calls && P.Idle(db, c)
    ensures var db := P.Run(P.Apply(s.db, P.Invoke(c, YearRequest(r, namespace, mid, year))), steps);
            Run(r, max, s, SequentialCreate(k, c, namespace, mid, year, steps))
            == State(db, s.calls[k := Create(namespace, mid, Collected(r, db, Asking(r, namespace, mid, c, year)))])
  {
    hide *;
    SequentialIs(r, namespace);
    RequiredDefinition(r, namespace);
    OpeningIs(r, namespace, mid);
    var begun := Create(namespace, mid, Allocating);
    var s1 := State(s.db, s.calls[k := begun]);
    RunConcat(r, max, s, [Invoke(k, namespace, mid), Ask(k, c, Some(year))], Lifted(steps) + [Collect(k)]);
    RunTwo(r, max, s, Invoke(k, namespace, mid), Ask(k, c, Some(year)));
    InvokeIs(r, max, s, k, namespace, mid);
    AskIs(r, max, s1, k, c, Some(year));
    FreeStill(s, s1, k, c);
    YearScopeIs(r, namespace, year);
    AskedIs(r, s1, k, c, ScopeOf(r, namespace, year));
    RequestIs(r, begun, ScopeOf(r, namespace, year));
    AskingIs(r, namespace, mid, c, year);
    var asking := Asking(r, namespace, mid, c, year);
    var s2 := State(P.Apply(s.db, P.Invoke(c, YearRequest(r, namespace, mid, year))), s.calls[k := asking]);
    assert s.calls[k := begun][k := asking] == s.calls[k := asking];
    RunConcat(r, max, s2, Lifted(steps), [Collect(k)]);
    LiftedRun(r, max, s2, steps);
    var s3 := s2.(db := P.Run(s2.db, steps));
    RunOne(r, max, s3, Collect(k));
    CollectIs(r, max, s3, k);
    var done := asking.(pc := Collected(r, s3.db, asking));
    assert s.calls[k := asking][k := done] == s.calls[k := done];
    SequentialCreateIs(k, c, namespace, mid, year, steps);
  }

  /** The scope and the request of a create in a given year, and the create while it waits. */
  function ScopeOf(r: Registry, namespace: string, year: int): Option<string>
    requires SequentialNamespace(r, namespace) && year >= 0
  {
    if HasScope(RequireReference(r, namespace).value.reference.value) then Some(FixedWidth(year, 4)) else None
  }

  function YearRequest(r: Registry, namespace: string, mid: string, year: int): Request
    requires SequentialNamespace(r, namespace) && year >= 0
  {
    AllocationRequest(r, Create(namespace, mid, Allocating), ScopeOf(r, namespace, year))
  }

  function Asking(r: Registry, namespace: string, mid: string, c: nat, year: int): Create
    requires SequentialNamespace(r, namespace) && year >= 0
  {
    Create(namespace, mid, Waiting(c, ScopeOf(r, namespace, year)))
  }

  lemma AskingIs(r: Registry, namespace: string, mid: string, c: nat, year: int)
    requires SequentialNamespace(r, namespace) && year >= 0
    ensures Asking(r, namespace, mid, c, year) == Create(namespace, mid, Waiting(c, ScopeOf(r, namespace, year)))
    ensures YearRequest(r, namespace, mid, year)
            == AllocationRequest(r, Create(namespace, mid, Allocating), ScopeOf(r, namespace, year))
  {
    hide AllocationRequest, ScopeOf, SequentialNamespace;
  }

  lemma YearScopeIs(r: Registry, namespace: string, year: int)
    requires SequentialNamespace(r, namespace) && 0 <= year <= 9999
    ensures Scope(r, namespace, Some(year)) == Success(ScopeOf(r, namespace, year))
    ensures ScopeFits(RequireReference(r, namespace).value.reference.value, ScopeOf(r, namespace, year))
  {
    ScopeIs(r, namespace, Some(year));
    YearText(year);
    hide RequireReference, Scope, YearScope, ScopeFits, FixedWidth;
  }

  lemma FreeStill(s: State, s1: State, k: nat, c: nat)
    requires Free(s, c) && k in s1.calls && !s1.calls[k].pc.Waiting? && s1.calls == s.calls[k := s1.calls[k]]
    ensures Free(s1, c)
  {
  }

  lemma SequentialCreateIs(k: nat, c: nat, namespace: string, mid: string, year: int, steps: seq<P.Action>)
    ensures SequentialCreate(k, c, namespace, mid, year, steps)
            == [Invoke(k, namespace, mid), Ask(k, c, Some(year))] + (Lifted(steps) + [Collect(k)])
  {
    hide Lifted;
  }

  lemma RunOne(r: Registry, max: nat, s: State, a: Action)
    ensures Run(r, max, s, [a]) == Apply(r, max, s, a)
  {
    hide Apply;
    assert [a][1..] == [];
    assert Run(r, max, s, [a]) == Run(r, max, Apply(r, max, s, a), []);
  }

  /** On empty tables the first sequential create of a namespace gets number 1 of its scope. */
  lemma FirstSequentialCreate(r: Registry, max: nat, namespace: string, mid: string, year: int)
    requires Valid(r) && IsMachineId(mid) && SequentialNamespace(r, namespace) && 0 <= year <= 9999
    ensures var s := Run(r, max, Start(), SequentialCreate(0, 0, namespace, mid, year, P.LoneSteps()));
            var scope := ScopeOf(r, namespace, year);
            var text := FormatSequentialReference(r, namespace, 1, scope);
            text.Success? && 0 in s.calls && s.calls[0] == Create(namespace, mid, Created(text.value, Numbered(1, scope)))
            && s.db.tables.bindings.Keys == {Slot(Key(namespace, ScopeText(scope)), 1)}
  {
    hide *;
    var q := YearRequest(r, namespace, mid, year);
    var db := P.Run(P.Apply(P.Start(Empty()), P.Invoke(0, q)), P.LoneSteps());
    var asking := Asking(r, namespace, mid, 0, year);
    StartIs();
    FreshIs(P.Start(Empty()), 0);
    StartFree(0);
    EmptyInv();
    P.LoneRun(Empty(), q);
    P.LoneStepsIs();
    YearScopeIs(r, namespace, year);
    FirstNumber(r, namespace, mid, year);
    Ended(db, Allocation(Empty(), q));
    SequentialRun(r, max, Start(), 0, 0, namespace, mid, year, P.LoneSteps());
    AskingIs(r, namespace, mid, 0, year);
    CollectedIs(r, db, asking);
  }

  lemma StartFree(c: nat)
    ensures Free(Start(), c)
  {
  }

  lemma Ended(db: P.State, end: (Result<nat, Error>, Tables))
    requires P.EndsAs(db, end)
    ensures db.tables == end.1 && db.owner.None? && 0 in db.calls && P.Idle(db, 0)
    ensures end.0.Success? ==> db.calls[0].pc == P.Returned(end.0.value)
  {
  }

  lemma YearText(year: int)
    requires 0 <= year <= 9999
    ensures YearScope(Some(year)) == Some(FixedWidth(year, 4))
  {
    TenThousand();
    PadFits(year, 4);
    hide ToDecimal, PadStart, FixedWidth, Pow;
  }

  lemma FirstNumber(r: Registry, namespace: string, mid: string, year: int)
    requires Valid(r) && IsMachineId(mid) && SequentialNamespace(r, namespace) && 0 <= year <= 9999
    ensures var q := YearRequest(r, namespace, mid, year);
            var scope := ScopeOf(r, namespace, year);
            FormatSequentialReference(r, namespace, 1, scope).Success? && Allocation(Empty(), q).0 == Success(1)
            && Allocation(Empty(), q).1.bindings.Keys == {Slot(Key(namespace, ScopeText(scope)), 1)}
  {
    hide *;
    var scope := ScopeOf(r, namespace, year);
    var q := YearRequest(r, namespace, mid, year);
    SequentialIs(r, namespace);
    YearScopeIs(r, namespace, year);
    AskingIs(r, namespace, mid, 0, year);
    RequestIs(r, Create(namespace, mid, Allocating), scope);
    MachineBytes(mid);
    RequiredDefinition(r, namespace);
    DefinitionBounds(r, RequireReference(r, namespace).value);
    SequentialWidth(r, RequireReference(r, namespace).value);
    ScopeRow(RequireReference(r, namespace).value.reference.value, scope, q);
    FirstAllocation(q, MachineIdToBytes(mid).value);
    EmptyInv();
    P.SettlesFrom(Empty(), q, 1);
    AllocationKeeps(Empty(), q);
    AllocatedFormats(r, Allocation(Empty(), q).1, q, scope, 1);
  }

  lemma ScopeRow(ref: Reference, scope: Option<string>, q: Request)
    requires ScopeFits(ref, scope) && q.key.scope == ScopeText(scope)
    requires ReferencePrefixValid(q.prefix) && 4 <= q.width <= 18
    ensures CounterRowOk(q.key, q.prefix, q.width)
  {
    hide ReferencePrefixValid, FourDigits;
  }

  lemma FirstAllocation(q: Request, machine: Bytes)
    requires CounterRowOk(q.key, q.prefix, q.width) && MachineIdToBytes(q.machineId) == Some(machine) && 4 <= q.width <= 18
    ensures Allocation(Empty(), q).0 == Success(1)
    ensures Allocation(Empty(), q).1.bindings.Keys == {Slot(q.key, 1)}
  {
    hide *;
    EmptyRoom(q);
    RoomIsNoRefusal(Empty(), q);
    NothingBound(q.key, machine);
    P.UnboundAllocation(Empty(), q, machine);
    AdvancedBindings(q, machine);
  }

  lemma EmptyRoom(q: Request)
    ensures HasRoom(Empty(), q) && Last(Empty(), q.key) == 0
  {
  }

  lemma NothingBound(key: Key, machine: Bytes)
    ensures Replay(Empty(), key, machine).None?
  {
    hide Replay;
    assert forall k: nat :: !Bound(Empty(), key, k, machine);
  }

  lemma AdvancedBindings(q: Request, machine: Bytes)
    requires q.width >= 0 && Refusal(WithCounter(Empty(), q), q).None?
    ensures Advanced(Empty(), q, machine).bindings.Keys == {Slot(q.key, 1)}
  {
    hide Refusal, Maximum, PrefixTaken;
    FreshLast(Empty(), q);
    assert Last(Empty(), q.key) == 0;
  }

  // ----- what a failed ROLLBACK does to references

  /** An allocation fails, and its ROLLBACK too; a random create on the connection returns a reference;
      another allocation there fails at BEGIN and rolls back; and a second random create returns the same
      reference for another MID. */
  lemma VoidedReference(
    r: Registry, max: nat, numbered: string, drawn: string, mid: string, first: string, second: string,
    bytes: seq<nat>, year: int)
    requires Valid(r) && IsMachineId(mid) && IsMachineId(first) && IsMachineId(second)
    requires SequentialNamespace(r, numbered) && Candidate(r, drawn, bytes).Success? && 0 <= year <= 9999
    ensures var failed := Run(r, max, Start(), SequentialCreate(0, 0, numbered, mid, year, P.FailingSteps()));
            var voided := Run(r, max, failed, RandomCreate(1, 0, drawn, first, bytes));
            var refused := Run(r, max, voided, SequentialCreate(2, 0, numbered, mid, year, P.RefusedSteps()));
            var s := Run(r, max, refused, RandomCreate(3, 0, drawn, second, bytes));
            var ref := Candidate(r, drawn, bytes).value;
            1 in s.calls && s.calls[1] == Create(drawn, first, Created(ref, Drawn(bytes, false)))
            && 3 in s.calls && s.calls[3] == Create(drawn, second, Created(ref, Drawn(bytes, true)))
            && Resolve(r, voided.db.tables, ref) == Success(None)
            && Resolve(r, s.db.tables, ref) == Success(Some(Resolved(second, drawn, ref)))
  {
    hide *;
    var ref := Candidate(r, drawn, bytes).value;
    var q := YearRequest(r, numbered, mid, year);
    StartInvariant(r);
    var failed := FirstFails(r, max, numbered, mid, year);
    RunInvariant(r, max, Start(), SequentialCreate(0, 0, numbered, mid, year, P.FailingSteps()));
    StartIs();
    ViewIs(failed.db, 0);
    DrawSucceeds(r, max, failed, 1, 0, drawn, first, bytes);
    var voided := Run(r, max, failed, RandomCreate(1, 0, drawn, first, bytes));
    FreeStill(failed, voided, 1, 0);
    RunInvariant(r, max, failed, RandomCreate(1, 0, drawn, first, bytes));
    P.ReserveEffect(failed.db, 0, ref, Mapping(MachineIdToBytes(first).value, drawn));
    StillIdle(failed.db, voided.db, 0);
    CandidateRoundTrip(r, drawn, bytes);
    DrawnNamespace(r, drawn, bytes);
    AbsentUnresolved(r, voided, ref);
    var refused := SecondRefused(r, max, voided, numbered, mid, year);
    RunInvariant(r, max, voided, SequentialCreate(2, 0, numbered, mid, year, P.RefusedSteps()));
    ViewIs(refused.db, 0);
    DrawSucceeds(r, max, refused, 3, 0, drawn, second, bytes);
    var s := Run(r, max, refused, RandomCreate(3, 0, drawn, second, bytes));
    RunInvariant(r, max, refused, RandomCreate(3, 0, drawn, second, bytes));
    P.ReserveEffect(refused.db, 0, ref, Mapping(MachineIdToBytes(second).value, drawn));
    WroteReferenceIs(s, ref, 3);
    CallIs(r, s.db, s.calls[3]);
    RunNone(r, max, s);
    ViewIs(s.db, 0);
    IssuedForever(r, max, s, [], 3, 0, ref);
  }

  lemma FirstFails(r: Registry, max: nat, namespace: string, mid: string, year: int) returns (s: State)
    requires Valid(r) && IsMachineId(mid) && SequentialNamespace(r, namespace) && 0 <= year <= 9999
    ensures s == Run(r, max, Start(), SequentialCreate(0, 0, namespace, mid, year, P.FailingSteps()))
    ensures s.db.owner == Some(0) && P.Idle(s.db, 0) && Free(s, 0) && s.calls.Keys == {0}
    ensures s.db.tables == Empty() && s.db.pending == Empty()
  {
    hide *;
    var q := YearRequest(r, namespace, mid, year);
    s := Run(r, max, Start(), SequentialCreate(0, 0, namespace, mid, year, P.FailingSteps()));
    StartIs();
    FreshIs(P.Start(Empty()), 0);
    StartFree(0);
    YearWidth(r, namespace, mid, year);
    P.FailingRun(Empty(), q);
    var db := P.Run(P.Apply(P.Start(Empty()), P.Invoke(0, q)), P.FailingSteps());
    FailedIdle(db, 0);
    P.FailingStepsAre();
    SequentialRun(r, max, Start(), 0, 0, namespace, mid, year, P.FailingSteps());
    AskingIs(r, namespace, mid, 0, year);
    CollectedDone(r, db, Asking(r, namespace, mid, 0, year));
    OnlyFree(s, 0);
  }

  lemma SecondRefused(r: Registry, max: nat, s: State, namespace: string, mid: string, year: int) returns (next: State)
    requires Valid(r) && IsMachineId(mid) && SequentialNamespace(r, namespace) && 0 <= year <= 9999
    requires s.db.owner == Some(0) && P.Idle(s.db, 0) && Free(s, 0) && s.calls.Keys == {0, 1}
    ensures next == Run(r, max, s, SequentialCreate(2, 0, namespace, mid, year, P.RefusedSteps()))
    ensures next.db.owner.None? && P.Idle(next.db, 0) && next.db.tables == s.db.tables
    ensures next.calls.Keys == {0, 1, 2} && next.calls[1] == s.calls[1]
  {
    hide *;
    var q := YearRequest(r, namespace, mid, year);
    next := Run(r, max, s, SequentialCreate(2, 0, namespace, mid, year, P.RefusedSteps()));
    YearWidth(r, namespace, mid, year);
    P.RefusedRun(s.db, q);
    FailedIdle(P.Run(P.Apply(s.db, P.Invoke(0, q)), P.RefusedSteps()), 0);
    P.RefusedStepsAre();
    SequentialRun(r, max, s, 2, 0, namespace, mid, year, P.RefusedSteps());
  }

  lemma YearWidth(r: Registry, namespace: string, mid: string, year: int)
    requires Valid(r) && SequentialNamespace(r, namespace) && year >= 0
    ensures 4 <= YearRequest(r, namespace, mid, year).width <= 18
  {
    hide *;
    AskingIs(r, namespace, mid, 0, year);
    RequestIs(r, Create(namespace, mid, Allocating), ScopeOf(r, namespace, year));
    SequentialIs(r, namespace);
    RequiredDefinition(r, namespace);
    SequentialWidth(r, RequireReference(r, namespace).value);
  }

  lemma FailedIdle(db: P.State, c: nat)
    requires c in db.calls && db.calls[c].pc.Failed?
    ensures P.Idle(db, c)
  {
  }

  lemma CollectedDone(r: Registry, db: P.State, call: Create)
    requires call.pc.Waiting? && call.pc.c in db.calls && P.Idle(db, call.pc.c)
    ensures !Collected(r, db, call).Waiting?
  {
    hide NumberOf, FormatSequentialReference;
  }

  lemma OnlyFree(s: State, c: nat)
    requires forall k :: k in s.calls ==> !s.calls[k].pc.Waiting?
    ensures Free(s, c)
  {
  }

  lemma RunNone(r: Registry, max: nat, s: State)
    ensures Run(r, max, s, []) == s
  {
  }

  lemma StillIdle(a: P.State, b: P.State, c: nat)
    requires b.calls == a.calls && P.Idle(a, c)
    ensures P.Idle(b, c)
  {
  }
}
