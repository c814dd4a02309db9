/** What a random create does over its attempts: it goes on while its candidates are taken, takes the first
    free one, and gives up after the last attempt. */
module Creates {
  import opened Wrappers
  import opened Errors
  import opened Alphabet
  import opened Registry
  import opened DecimalText
  import opened References
  import opened Formatting
  import opened MachineId
  import opened StorageText
  import opened Tables
  import opened Service
  import P = SqliteProtocol

  /** No other connection keeps a reservation on this one out. */
  predicate LockFree(db: P.State, c: nat)
  {
    db.owner.None? || db.owner == Some(c)
  }

  /** The candidate of the draw exists and its reference is free, or taken, where the connection looks. */
  predicate DrawFree(r: Registry, db: P.State, c: nat, namespace: string, bytes: seq<nat>)
  {
    Candidate(r, namespace, bytes).Success? && Candidate(r, namespace, bytes).value !in P.View(db, c).references
  }

  predicate DrawTaken(r: Registry, db: P.State, c: nat, namespace: string, bytes: seq<nat>)
  {
    Candidate(r, namespace, bytes).Success? && Candidate(r, namespace, bytes).value in P.View(db, c).references
  }

  // ----- how a create begins

  /** A create fails at once in an unknown namespace, or for a MID that is none; otherwise it has the MID in
      lower case, and goes the way of its namespace. */
  lemma OpeningExactly(r: Registry, namespace: string, machineId: string)
    ensures var call := Opening(r, namespace, machineId);
            call.namespace == namespace
            && match r.GetByPublicPrefix(namespace)
               case None => call.pc == Failed(UnknownNamespace)
               case Some(d) =>
                 if ParseMachineId(machineId).Failure? then call.pc == Failed(ParseMachineId(machineId).error)
                 else
                   call.mid == Lower(machineId) && IsMachineId(call.mid)
                   && (call.pc == Based <==> d.reference.None?)
                   && (call.pc == Trying(0) <==> d.reference.Some? && d.reference.value.Random?)
                   && (call.pc == Allocating <==> d.reference.Some? && d.reference.value.Sequential?)
  {
    if ParseMachineId(machineId).Success? { MachineParsed(machineId, ParseMachineId(machineId).value); }
    hide ParseMachineId, IsMachineId, Lower;
  }

  // ----- one attempt

  /** What an attempt leads to, in every case: a free reference is taken, or lost with its answer; a taken one
      leads to the next attempt, if there is one; anything else ends the create, with the error of the candidate
      or as a conflict. */
  lemma AttemptOutcome(r: Registry, max: nat, s: State, k: nat, c: nat, bytes: seq<nat>, fault: bool, applied: bool)
    requires Valid(r) && Service.Invariant(r, s) && k in s.calls && s.calls[k].pc.Trying?
    ensures var call := s.calls[k];
            var pc := Attempted(r, max, s.db, call, c, bytes, fault, applied).1;
            var free := LockFree(s.db, c) && DrawFree(r, s.db, c, call.namespace, bytes);
            var taken := LockFree(s.db, c) && DrawTaken(r, s.db, c, call.namespace, bytes);
            (pc.Created? <==> free && !fault)
            && (pc.Lost? <==> free && fault && applied)
            && (pc == Trying(call.pc.attempt + 1) <==> taken && !fault && call.pc.attempt + 1 < max)
            && (pc == Exhausted <==> taken && !fault && call.pc.attempt + 1 >= max)
            && (pc.Created? || pc.Lost? ==> Candidate(r, call.namespace, bytes) == Success(pc.ref))
            && (pc.Failed? ==> pc.e == match Candidate(r, call.namespace, bytes)
                                           case Failure(e) => e
                                           case Success(_) => AllocationConflict)
            && (pc.Created? || pc.Lost? || pc.Failed? || pc == Exhausted || pc == Trying(call.pc.attempt + 1))
  {
    hide *;
    var call := s.calls[k];
    InvariantCall(r, s, k);
    CallIs(r, s.db, call);
    MachineBytes(call.mid);
    var candidate := Candidate(r, call.namespace, bytes);
    if candidate.Success? {
      var row := Mapping(MachineIdToBytes(call.mid).value, call.namespace);
      CandidateRoundTrip(r, call.namespace, bytes);
      CandidateRow(r, call.namespace, bytes, row.machine);
      AnswerIs(s.db, c, candidate.value, row);
    }
    FreeIs(r, s.db, c, call.namespace, bytes);
    AttemptedIs(r, max, s.db, call, c, bytes, fault, applied);
  }

  lemma FreeIs(r: Registry, db: P.State, c: nat, namespace: string, bytes: seq<nat>)
    ensures DrawFree(r, db, c, namespace, bytes)
            <==> Candidate(r, namespace, bytes).Success? && Candidate(r, namespace, bytes).value !in P.View(db, c).references
    ensures DrawTaken(r, db, c, namespace, bytes)
            <==> Candidate(r, namespace, bytes).Success? && Candidate(r, namespace, bytes).value in P.View(db, c).references
    ensures LockFree(db, c) <==> db.owner.None? || db.owner == Some(c)
  {
    hide Candidate;
  }

  lemma AnswerIs(db: P.State, c: nat, ref: string, row: Mapping)
    requires ReferenceRowOk(ref, row)
    ensures P.Answer(db, c, ref, row)
            == if LockFree(db, c) then Success(ref !in P.View(db, c).references) else Failure(AllocationConflict)
  {
    hide ReferenceRowOk;
  }

  lemma AttemptedIs(r: Registry, max: nat, db: P.State, call: Create, c: nat, bytes: seq<nat>, fault: bool, applied: bool)
    requires call.pc.Trying? && MachineIdToBytes(call.mid).Some?
    ensures var pc := Attempted(r, max, db, call, c, bytes, fault, applied).1;
            match Candidate(r, call.namespace, bytes)
            case Failure(e) => pc == Failed(e)
            case Success(ref) =>
              match P.Answer(db, c, ref, Mapping(MachineIdToBytes(call.mid).value, call.namespace))
              case Failure(e) => pc == Failed(e)
              case Success(inserted) =>
                if inserted then
                  if !fault then pc.Created? && pc.ref == ref
                  else if applied then pc.Lost? && pc.ref == ref
                  else pc == Failed(AllocationConflict)
                else if fault then pc == Failed(AllocationConflict)
                else pc == if call.pc.attempt + 1 < max then Trying(call.pc.attempt + 1) else Exhausted
  {
    hide Candidate, P.Answer, P.Apply, MachineIdToBytes;
  }

  // ----- a create by itself

  function Draws(k: nat, c: nat, draws: seq<seq<nat>>): seq<Action>
  {
    seq(|draws|, i requires 0 <= i < |draws| => Attempt(k, c, draws[i], false, false))
  }

  /** Every candidate of the draws is taken. */
  predicate AllTaken(r: Registry, db: P.State, c: nat, namespace: string, draws: seq<seq<nat>>)
  {
    forall i :: 0 <= i < |draws| ==> DrawTaken(r, db, c, namespace, draws[i])
  }

  /** After taken candidates, fewer than the attempts allowed, the create draws again and nothing has changed;
      after as many as are allowed it has given up. */
  lemma {:induction false} TakenDraws(r: Registry, max: nat, s: State, k: nat, c: nat, draws: seq<seq<nat>>)
    requires Valid(r) && Service.Invariant(r, s) && k in s.calls && s.calls[k].pc.Trying? && P.Idle(s.db, c)
    requires LockFree(s.db, c) && AllTaken(r, s.db, c, s.calls[k].namespace, draws)
    requires s.calls[k].pc.attempt + |draws| <= max && s.calls[k].pc.attempt < max
    ensures var a := s.calls[k].pc.attempt + |draws|;
            Run(r, max, s, Draws(k, c, draws))
            == s.(calls := s.calls[k := s.calls[k].(pc := if a < max then Trying(a) else Exhausted)])
    decreases |draws|
  {
    hide *;
    var call := s.calls[k];
    if draws == [] {
      NoDraws(k, c);
      RunNone(r, max, s);
      assert s.calls[k := call.(pc := Trying(call.pc.attempt))] == s.calls;
    } else {
      var rest := draws[1..];
      FirstDraw(r, s.db, k, c, call.namespace, draws);
      RunConcat(r, max, s, [Attempt(k, c, draws[0], false, false)], Draws(k, c, rest));
      RunOne(r, max, s, Attempt(k, c, draws[0], false, false));
      TakenStep(r, max, s, k, c, draws[0]);
      StepInvariant(r, max, s, Attempt(k, c, draws[0], false, false));
      var next := Apply(r, max, s, Attempt(k, c, draws[0], false, false));
      if call.pc.attempt + 1 < max {
        TakenDraws(r, max, next, k, c, rest);
        var last := call.(pc := if call.pc.attempt + |draws| < max then Trying(call.pc.attempt + |draws|) else Exhausted);
        assert s.calls[k := next.calls[k]][k := last] == s.calls[k := last];
      } else {
        assert rest == [];
        NoDraws(k, c);
        RunNone(r, max, next);
      }
    }
  }

  lemma NoDraws(k: nat, c: nat)
    ensures Draws(k, c, []) == []
  {
  }

  lemma FirstDraw(r: Registry, db: P.State, k: nat, c: nat, namespace: string, draws: seq<seq<nat>>)
    requires draws != [] && AllTaken(r, db, c, namespace, draws)
    ensures DrawTaken(r, db, c, namespace, draws[0]) && AllTaken(r, db, c, namespace, draws[1..])
    ensures Draws(k, c, draws) == [Attempt(k, c, draws[0], false, false)] + Draws(k, c, draws[1..])
  {
    hide DrawTaken, Candidate, P.View;
    assert forall i :: 0 <= i < |draws[1..]| ==> draws[1..][i] == draws[i + 1];
    var one := Attempt(k, c, draws[0], false, false);
    assert |Draws(k, c, draws)| == 1 + |Draws(k, c, draws[1..])|;
    forall i | 0 <= i < |draws| ensures Draws(k, c, draws)[i] == ([one] + Draws(k, c, draws[1..]))[i] {
    }
  }

  lemma TakenStep(r: Registry, max: nat, s: State, k: nat, c: nat, bytes: seq<nat>)
    requires Valid(r) && Service.Invariant(r, s) && k in s.calls && s.calls[k].pc.Trying? && P.Idle(s.db, c)
    requires LockFree(s.db, c) && DrawTaken(r, s.db, c, s.calls[k].namespace, bytes)
    ensures var a := s.calls[k].pc.attempt + 1;
            Apply(r, max, s, Attempt(k, c, bytes, false, false))
            == s.(calls := s.calls[k := s.calls[k].(pc := if a < max then Trying(a) else Exhausted)])
  {
    hide *;
    var call := s.calls[k];
    AttemptIs(r, max, s, k, c, bytes, false, false);
    AttemptOutcome(r, max, s, k, c, bytes, false, false);
    FreeIs(r, s.db, c, call.namespace, bytes);
    InvariantCall(r, s, k);
    CallIs(r, s.db, call);
    MachineBytes(call.mid);
    AttemptedCases(r, max, s.db, call, c, bytes, false, false);
  }

  /** A create whose first candidates are taken, fewer of them than attempts are allowed, and whose next one is
      free reserves that one and returns it. */
  lemma FirstFreeDraw(
    r: Registry, max: nat, s: State, k: nat, c: nat, namespace: string, mid: string, taken: seq<seq<nat>>, bytes: seq<nat>)
    requires Valid(r) && Service.Invariant(r, s) && IsMachineId(mid) && k !in s.calls
    requires P.Idle(s.db, c) && LockFree(s.db, c) && |taken| < max
    requires AllTaken(r, s.db, c, namespace, taken) && DrawFree(r, s.db, c, namespace, bytes)
    ensures MachineIdToBytes(mid).Some?
    ensures var ref := Candidate(r, namespace, bytes).value;
            var row := Mapping(MachineIdToBytes(mid).value, namespace);
            Run(r, max, s, [Invoke(k, namespace, mid)] + (Draws(k, c, taken) + [Attempt(k, c, bytes, false, false)]))
            == State(P.Apply(s.db, P.Reserve(c, ref, row)),
                     s.calls[k := Create(namespace, mid, Created(ref, Drawn(bytes, s.db.owner != Some(c))))])
            && P.Reads(P.Apply(s.db, P.Reserve(c, ref, row)), c, ref, row)
  {
    hide *;
    FreeIs(r, s.db, c, namespace, bytes);
    var ref := Candidate(r, namespace, bytes).value;
    MachineBytes(mid);
    var row := Mapping(MachineIdToBytes(mid).value, namespace);
    var begun := Begins(r, max, s, k, namespace, mid, bytes, Draws(k, c, taken) + [Attempt(k, c, bytes, false, false)]);
    RunConcat(r, max, begun, Draws(k, c, taken), [Attempt(k, c, bytes, false, false)]);
    TakenDraws(r, max, begun, k, c, taken);
    var s1 := State(s.db, s.calls[k := Create(namespace, mid, Trying(|taken|))]);
    assert s.calls[k := Create(namespace, mid, Trying(0))][k := Create(namespace, mid, Trying(|taken|))]
           == s.calls[k := Create(namespace, mid, Trying(|taken|))];
    RunOne(r, max, s1, Attempt(k, c, bytes, false, false));
    AttemptIs(r, max, s1, k, c, bytes, false, false);
    CandidateRoundTrip(r, namespace, bytes);
    CandidateRow(r, namespace, bytes, row.machine);
    AnswerIs(s.db, c, ref, row);
    DrawAttempted(r, max, s.db, s1.calls[k], c, bytes);
    InvariantIs(r, s);
    P.ReserveStores(s.db, c, ref, row);
    var done := Create(namespace, mid, Created(ref, Drawn(bytes, s.db.owner != Some(c))));
    assert s1.calls[k := done] == s.calls[k := done];
  }

  /** The call itself, in a random namespace. */
  lemma Begins(
    r: Registry, max: nat, s: State, k: nat, namespace: string, mid: string, bytes: seq<nat>, rest: seq<Action>)
    returns (begun: State)
    requires Valid(r) && Service.Invariant(r, s) && IsMachineId(mid) && k !in s.calls
    requires Candidate(r, namespace, bytes).Success?
    ensures begun == s.(calls := s.calls[k := Create(namespace, mid, Trying(0))]) && Service.Invariant(r, begun)
    ensures Run(r, max, s, [Invoke(k, namespace, mid)] + rest) == Run(r, max, begun, rest)
  {
    hide *;
    DrawnNamespace(r, namespace, bytes);
    RequiredDefinition(r, namespace);
    OpeningIs(r, namespace, mid);
    RunConcat(r, max, s, [Invoke(k, namespace, mid)], rest);
    RunOne(r, max, s, Invoke(k, namespace, mid));
    InvokeIs(r, max, s, k, namespace, mid);
    StepInvariant(r, max, s, Invoke(k, namespace, mid));
    begun := s.(calls := s.calls[k := Create(namespace, mid, Trying(0))]);
  }

  /** A create all of whose candidates are taken gives up after the last attempt, and has changed nothing. */
  lemma AllDrawsTaken(
    r: Registry, max: nat, s: State, k: nat, c: nat, namespace: string, mid: string, draws: seq<seq<nat>>)
    requires Valid(r) && Service.Invariant(r, s) && IsMachineId(mid) && k !in s.calls
    requires P.Idle(s.db, c) && LockFree(s.db, c) && |draws| == max > 0 && AllTaken(r, s.db, c, namespace, draws)
    ensures Run(r, max, s, [Invoke(k, namespace, mid)] + Draws(k, c, draws))
            == s.(calls := s.calls[k := Create(namespace, mid, Exhausted)])
  {
    hide *;
    FirstDraw(r, s.db, k, c, namespace, draws);
    FreeIs(r, s.db, c, namespace, draws[0]);
    var begun := Begins(r, max, s, k, namespace, mid, draws[0], Draws(k, c, draws));
    TakenDraws(r, max, begun, k, c, draws);
    assert s.calls[k := Create(namespace, mid, Trying(0))][k := Create(namespace, mid, Exhausted)]
           == s.calls[k := Create(namespace, mid, Exhausted)];
  }

  // ----- a create among all others

  /** The action is an attempt of create `k` that meets a taken candidate. */
  predicate MeetsTaken(r: Registry, s: State, a: Action, k: nat)
  {
    a.Attempt? && a.k == k && !a.fault && k in s.calls && s.calls[k].pc.Trying? && P.Idle(s.db, a.c)
    && LockFree(s.db, a.c) && DrawTaken(r, s.db, a.c, s.calls[k].namespace, a.bytes)
  }

  /** How many actions of the run are such attempts. */
  ghost function TakenCount(r: Registry, max: nat, s: State, actions: seq<Action>, k: nat): nat
    decreases |actions|
  {
    if actions == [] then 0
    else (if MeetsTaken(r, s, actions[0], k) then 1 else 0) + TakenCount(r, max, Apply(r, max, s, actions[0]), actions[1..], k)
  }

  /** Where a create stands that has met `n` taken candidates. */
  predicate HasMet(max: nat, s: State, k: nat, n: nat)
  {
    if k !in s.calls then n == 0
    else match s.calls[k].pc
      case Trying(a) => a == n < max
      case Exhausted => n == max
      case _ => n < max
  }

  /** Over every run, whatever else happens in it: a create gives up exactly when as many of its candidates
      were taken as it may try, and while it tries it counts them. */
  lemma ExhaustedExactly(r: Registry, max: nat, s: State, actions: seq<Action>, k: nat)
    requires Valid(r) && Service.Invariant(r, s) && max > 0 && k !in s.calls && k in Run(r, max, s, actions).calls
    ensures var pc := Run(r, max, s, actions).calls[k].pc;
            (pc == Exhausted <==> TakenCount(r, max, s, actions, k) == max)
            && (pc.Trying? ==> pc.attempt == TakenCount(r, max, s, actions, k) < max)
  {
    hide Valid, Service.Invariant, Run, TakenCount;
    CountsTaken(r, max, s, actions, k, 0);
  }

  lemma {:induction false} CountsTaken(r: Registry, max: nat, s: State, actions: seq<Action>, k: nat, n: nat)
    requires Valid(r) && Service.Invariant(r, s) && max > 0 && HasMet(max, s, k, n)
    ensures HasMet(max, Run(r, max, s, actions), k, n + TakenCount(r, max, s, actions, k))
    decreases |actions|
  {
    hide Valid, Service.Invariant, Apply, HasMet, MeetsTaken;
    if actions != [] {
      var next := Apply(r, max, s, actions[0]);
      StepInvariant(r, max, s, actions[0]);
      StepMeets(r, max, s, actions[0], k, n);
      CountsTaken(r, max, next, actions[1..], k, n + if MeetsTaken(r, s, actions[0], k) then 1 else 0);
    }
  }

  lemma StepMeets(r: Registry, max: nat, s: State, a: Action, k: nat, n: nat)
    requires Valid(r) && Service.Invariant(r, s) && max > 0 && HasMet(max, s, k, n)
    ensures HasMet(max, Apply(r, max, s, a), k, n + if MeetsTaken(r, s, a, k) then 1 else 0)
  {
    hide Service.Invariant, Valid, Apply, Attempted, DrawTaken, DrawFree, LockFree, P.Idle, P.View, Candidate;
    if a.Attempt? && a.k == k && k in s.calls && s.calls[k].pc.Trying? && P.Idle(s.db, a.c) {
      AttemptOutcome(r, max, s, k, a.c, a.bytes, a.fault, a.applied);
      AttemptIs(r, max, s, k, a.c, a.bytes, a.fault, a.applied);
    } else {
      OtherStep(r, max, s, a, k);
    }
  }

  /** Any other action leaves a trying or exhausted create alone, and brings none into that state but a new
      one at its first attempt. */
  lemma OtherStep(r: Registry, max: nat, s: State, a: Action, k: nat)
    requires !(a.Attempt? && a.k == k && k in s.calls && s.calls[k].pc.Trying? && P.Idle(s.db, a.c))
    ensures var next := Apply(r, max, s, a);
            if k in s.calls && (s.calls[k].pc.Trying? || s.calls[k].pc.Exhausted?)
            then k in next.calls && next.calls[k] == s.calls[k]
            else if k in s.calls then k in next.calls && !next.calls[k].pc.Trying? && !next.calls[k].pc.Exhausted?
            else k in next.calls ==> !next.calls[k].pc.Exhausted? && (next.calls[k].pc.Trying? ==> next.calls[k].pc.attempt == 0)
  {
    hide Attempted, Scope, AllocationRequest, P.Apply, P.Idle, Service.Free, ParseMachineId, Service.NumberOf, FormatSequentialReference;
  }

  // ----- a create that asks for a number

  /** The scope a sequential create asks in: the four digits of the year, where its namespace has one. */
  function ScopeAsked(ref: Reference, year: Option<int>): Option<string>
    requires HasScope(ref) ==> year.Some? && year.value >= 0
  {
    if HasScope(ref) then Some(FixedWidth(year.value, 4)) else None
  }

  /** Without a year that has four digits a create in a yearly namespace fails and asks for nothing; any other asks
      for the next number under its own namespace, scope, prefix and width. */
  lemma AskExactly(r: Registry, max: nat, s: State, k: nat, c: nat, year: Option<int>)
    requires k in s.calls && s.calls[k].pc.Allocating? && P.Idle(s.db, c) && Service.Free(s, c)
    requires SequentialNamespace(r, s.calls[k].namespace)
    ensures var call := s.calls[k];
            var ref := RequireReference(r, call.namespace).value.reference.value;
            var after := Apply(r, max, s, Ask(k, c, year));
            if HasScope(ref) && (year.None? || year.value < 0 || year.value > 9999) then
              after == s.(calls := s.calls[k := call.(pc := Failed(InvalidAllocationPolicy))])
            else
              var scope := ScopeAsked(ref, year);
              var q := Request(call.mid, Key(call.namespace, ScopeText(scope)), ref.prefix, ref.width);
              after == State(P.Apply(s.db, P.Invoke(c, q)), s.calls[k := call.(pc := Waiting(c, scope))])
  {
    hide *;
    var call := s.calls[k];
    AskIs(r, max, s, k, c, year);
    ScopeIs(r, call.namespace, year);
    NoYear(year);
    if year.Some? && 0 <= year.value <= 9999 { YearText(year.value); }
    SequentialIs(r, call.namespace);
    var ref := RequireReference(r, call.namespace).value.reference.value;
    if !(HasScope(ref) && (year.None? || year.value < 0 || year.value > 9999)) {
      var scope := ScopeAsked(ref, year);
      ScopeAskedIs(ref, year);
      RequestIs(r, call, scope);
      AskedIs(r, s, k, c, scope);
    }
  }

  lemma NoYear(year: Option<int>)
    ensures YearScope(year).None? <==> year.None? || year.value < 0 || year.value > 9999
  {
    hide ToDecimal, PadStart;
  }

  lemma ScopeAskedIs(ref: Reference, year: Option<int>)
    requires HasScope(ref) ==> year.Some? && year.value >= 0
    ensures ScopeAsked(ref, year) == if HasScope(ref) then Some(FixedWidth(year.value, 4)) else None
  {
    hide FixedWidth, HasScope;
  }

  /** A create that collects a returned number returns its reference in the scope it asked in; one whose allocation
      failed has lost the reference exactly when the number was committed all the same. */
  lemma CollectExactly(r: Registry, max: nat, s: State, k: nat)
    requires Valid(r) && Service.Invariant(r, s) && k in s.calls && s.calls[k].pc.Waiting?
    requires s.calls[k].pc.c in s.db.calls && P.Idle(s.db, s.calls[k].pc.c)
    ensures var call, allocation := s.calls[k], s.db.calls[s.calls[k].pc.c];
            var after := Apply(r, max, s, Collect(k));
            after.db == s.db && k in after.calls && after.calls == s.calls[k := call.(pc := after.calls[k].pc)]
            && var pc := after.calls[k].pc;
               (allocation.pc.Returned? <==> pc.Created?)
               && (allocation.pc.Failed? && (exists n: nat :: P.Settled(s.db.tables, allocation.q, n)) <==> pc.Lost?)
               && (pc.Created? || pc.Lost? ==>
                     pc.issue.Numbered? && pc.issue.scope == call.pc.scope && P.Settled(s.db.tables, allocation.q, pc.issue.n)
                     && FormatSequentialReference(r, call.namespace, pc.issue.n, call.pc.scope) == Success(pc.ref))
               && (pc.Created? ==> pc.issue.n == allocation.pc.n)
               && (pc.Created? || pc.Lost? || (allocation.pc.Failed? && pc == Failed(allocation.pc.e)))
  {
    hide *;
    var call := s.calls[k];
    var c := call.pc.c;
    var q := s.db.calls[c].q;
    InvariantCall(r, s, k);
    CallIs(r, s.db, call);
    WaitIs(r, s.db, call);
    IdleEnded(s.db, c);
    CollectedIs(r, s.db, call);
    CollectIs(r, max, s, k);
    if s.db.calls[c].pc.Returned? {
      P.ReturnedSettled(s.db, c);
      CollectedNumber(r, s, k, s.db.calls[c].pc.n);
    } else if Service.NumberOf(s.db.tables, q).Some? {
      CollectedNumber(r, s, k, Service.NumberOf(s.db.tables, q).value);
    }
  }
}
