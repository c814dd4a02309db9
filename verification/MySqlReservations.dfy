/** Reservations on the MySQL connection that `allocate` uses. They do not take the gate, so they may fall
    between the statements of a running transaction; then they share its fate. */
module MySqlReservations {
  import opened Wrappers
  import PublicId
  import Registry
  import opened Tables
  import G = Gate

  /** The gated calls; the committed references, and those of the transaction that is open. */
  datatype State = State(gate: G.State, stored: map<string, Mapping>, pending: map<string, Mapping>)

  datatype Action =
    | Gated(a: G.Action)                           // a step of a call of `allocate`
    | Reserve(reference: string, row: Mapping)     // on the same connection, at any time
    | Elsewhere(reference: string, row: Mapping)   // on another connection, once no uncommitted row is in its way

  function Start(): State { State(G.Start(), map[], map[]) }

  /** The CHECK constraints on a row; INSERT IGNORE skips one that violates them. */
  predicate RowOk(reference: string, row: Mapping)
  {
    4 <= |reference| <= 100 && PublicId.PrefixValid(row.namespace) && |row.machine| == 16
  }

  /** What the reservation answers: whether a row is inserted. */
  predicate Answer(s: State, reference: string, row: Mapping)
  {
    RowOk(reference, row) && reference !in s.stored && reference !in s.pending
  }

  /** A row is inserted exactly when the reference is free and has 4 to 100 characters, the namespace is a
      well-formed prefix of up to 63 characters, and the MID has sixteen bytes. */
  lemma AnswerExactly(s: State, reference: string, row: Mapping)
    ensures Answer(s, reference, row)
            <==> reference !in s.stored && reference !in s.pending && !(|reference| < 4 || |reference| > 100)
                 && Registry.DocumentedPublicPrefix(row.namespace) && |row.machine| == 16
  {
    Registry.PublicPrefixDocumented(row.namespace);
    hide PublicId.PrefixValid, Registry.DocumentedPublicPrefix;
  }

  /** START TRANSACTION commits what is open, and COMMIT does. */
  predicate Commits(g: G.State, a: G.Action)
  {
    G.Opens(g, a) || (a.End? && a.committed && a.c in g.calls && g.calls[a.c].InTransaction?)
  }

  /** A ROLLBACK that works. */
  predicate RollsBack(g: G.State, a: G.Action)
  {
    G.Closes(g, a) && !Commits(g, a)
  }

  function Apply(s: State, a: Action): State
  {
    match a
    case Gated(x) =>
      State(G.Apply(s.gate, x),
            if Commits(s.gate, x) then s.stored + s.pending else s.stored,
            if Commits(s.gate, x) || RollsBack(s.gate, x) then map[] else s.pending)
    case Reserve(reference, row) =>
      if !Answer(s, reference, row) then s
      else if s.gate.open.Some? then s.(pending := s.pending[reference := row])
      else s.(stored := s.stored[reference := row])
    case Elsewhere(reference, row) =>
      if !Answer(s, reference, row) then s else s.(stored := s.stored[reference := row])
  }

  function Run(s: State, actions: seq<Action>): State
    decreases |actions|
  {
    if actions == [] then s else Run(Apply(s, actions[0]), actions[1..])
  }

  /** Uncommitted rows are new, and belong to an open transaction. */
  predicate Invariant(s: State)
  {
    s.stored.Keys !! s.pending.Keys && (s.pending != map[] ==> s.gate.open.Some?)
  }

  /** Every connection reads the row; and this one does. */
  predicate Stored(s: State, reference: string, row: Mapping)
  {
    reference in s.stored && s.stored[reference] == row
  }

  predicate Reads(s: State, reference: string, row: Mapping)
  {
    Stored(s, reference, row) || (reference in s.pending && s.pending[reference] == row)
  }

  // ----- what every run keeps

  lemma StepInvariant(s: State, a: Action)
    requires Invariant(s)
    ensures Invariant(Apply(s, a))
  {
    if a.Gated? { G.OpenAfter(s.gate, a.a); }
    hide G.Apply, G.Opens, G.Closes, RowOk;
  }

  /** A committed row is never lost. */
  lemma {:induction false} RunKeeps(s: State, actions: seq<Action>, reference: string, row: Mapping)
    requires Invariant(s) && Stored(s, reference, row)
    ensures Invariant(Run(s, actions)) && Stored(Run(s, actions), reference, row)
    decreases |actions|
  {
    if actions != [] {
      StepInvariant(s, actions[0]);
      StepStored(s, actions[0], reference, row);
      hide Apply, Invariant, Stored;
      RunKeeps(Apply(s, actions[0]), actions[1..], reference, row);
    }
  }

  lemma StepStored(s: State, a: Action, reference: string, row: Mapping)
    requires Invariant(s) && Stored(s, reference, row)
    ensures Stored(Apply(s, a), reference, row)
  {
    hide G.Apply, Commits, RollsBack, RowOk;
  }

  // ----- the fate of a reservation inside a transaction

  ghost predicate CommitsAt(s: State, actions: seq<Action>, i: nat)
  {
    i < |actions| && actions[i].Gated? && Commits(Run(s, actions[..i]).gate, actions[i].a)
  }

  ghost predicate RollsBackAt(s: State, actions: seq<Action>, i: nat)
  {
    i < |actions| && actions[i].Gated? && RollsBack(Run(s, actions[..i]).gate, actions[i].a)
  }

  /** Every ROLLBACK that works comes behind a commit. */
  ghost predicate Survives(s: State, actions: seq<Action>)
  {
    forall i: nat :: RollsBackAt(s, actions, i) ==> exists j: nat :: j < i && CommitsAt(s, actions, j)
  }

  /** A commit comes, and in front of it no ROLLBACK that works. */
  ghost predicate CommitsFirst(s: State, actions: seq<Action>)
  {
    exists j: nat :: CommitsAt(s, actions, j) && forall i: nat :: i < j ==> !RollsBackAt(s, actions, i)
  }

  /** No action reserves the reference. */
  predicate Unreserved(actions: seq<Action>, reference: string)
  {
    forall a :: a in actions && !a.Gated? ==> a.reference != reference
  }

  /** In every run, a reservation that was answered with true is still read on its connection if and only
      if no transaction was open or no ROLLBACK worked before the next commit; and it is committed if and
      only if no transaction was open or that commit has come. */
  lemma ReservationFate(s: State, reference: string, row: Mapping, actions: seq<Action>)
    requires Invariant(s) && Answer(s, reference, row) && Unreserved(actions, reference)
    ensures var next := Apply(s, Reserve(reference, row));
            (Reads(Run(next, actions), reference, row) <==> s.gate.open.None? || Survives(next, actions))
            && (Stored(Run(next, actions), reference, row) <==> s.gate.open.None? || CommitsFirst(next, actions))
  {
    hide *;
    var next := Apply(s, Reserve(reference, row));
    StepInvariant(s, Reserve(reference, row));
    ReserveIs(s, reference, row);
    if s.gate.open.None? {
      RunKeeps(next, actions, reference, row);
      ReadsIs(Run(next, actions), reference, row);
    } else {
      PendingFate(next, actions, reference, row);
    }
  }

  predicate Pending(s: State, reference: string, row: Mapping)
  {
    reference in s.pending && s.pending[reference] == row && reference !in s.stored
  }

  predicate Absent(s: State, reference: string)
  {
    reference !in s.stored && reference !in s.pending
  }

  lemma ReserveIs(s: State, reference: string, row: Mapping)
    requires Answer(s, reference, row)
    ensures var next := Apply(s, Reserve(reference, row));
            if s.gate.open.None? then Stored(next, reference, row) else Pending(next, reference, row)
  {
    hide RowOk;
  }

  lemma ReadsIs(s: State, reference: string, row: Mapping)
    ensures Reads(s, reference, row) <==> Stored(s, reference, row) || (reference in s.pending && s.pending[reference] == row)
    ensures Pending(s, reference, row) ==> Reads(s, reference, row) && !Stored(s, reference, row)
    ensures Absent(s, reference) ==> !Reads(s, reference, row) && !Stored(s, reference, row)
  {
  }

  lemma {:induction false} PendingFate(s: State, actions: seq<Action>, reference: string, row: Mapping)
    requires Invariant(s) && Pending(s, reference, row) && Unreserved(actions, reference)
    ensures Reads(Run(s, actions), reference, row) <==> Survives(s, actions)
    ensures Stored(Run(s, actions), reference, row) <==> CommitsFirst(s, actions)
    decreases |actions|
  {
    hide *;
    if actions == [] {
      NoActions(s);
      ReadsIs(s, reference, row);
    } else {
      var a, rest := actions[0], actions[1..];
      var next := Apply(s, a);
      StepInvariant(s, a);
      UnreservedRest(actions, reference);
      PendingStep(s, a, reference, row);
      FirstDecides(s, actions);
      RunFirst(s, actions);
      if a.Gated? && Commits(s.gate, a.a) {
        RunKeeps(next, rest, reference, row);
        ReadsIs(Run(next, rest), reference, row);
      } else if a.Gated? && RollsBack(s.gate, a.a) {
        AbsentStays(next, rest, reference);
        ReadsIs(Run(next, rest), reference, row);
      } else {
        PendingFate(next, rest, reference, row);
      }
    }
  }

  lemma NoActions(s: State)
    ensures Run(s, []) == s && Survives(s, []) && !CommitsFirst(s, [])
  {
  }

  lemma RunFirst(s: State, actions: seq<Action>)
    requires actions != []
    ensures Run(s, actions) == Run(Apply(s, actions[0]), actions[1..])
  {
    hide Apply;
  }

  lemma UnreservedRest(actions: seq<Action>, reference: string)
    requires Unreserved(actions, reference) && actions != []
    ensures !actions[0].Gated? ==> actions[0].reference != reference
    ensures Unreserved(actions[1..], reference)
  {
    assert actions[0] in actions && forall a :: a in actions[1..] ==> a in actions;
  }

  lemma PendingStep(s: State, a: Action, reference: string, row: Mapping)
    requires Pending(s, reference, row) && (!a.Gated? ==> a.reference != reference)
    ensures var next := Apply(s, a);
            if a.Gated? && Commits(s.gate, a.a) then Stored(next, reference, row)
            else if a.Gated? && RollsBack(s.gate, a.a) then Absent(next, reference)
            else Pending(next, reference, row)
  {
    hide G.Apply, Commits, RollsBack, RowOk;
  }

  lemma {:induction false} AbsentStays(s: State, actions: seq<Action>, reference: string)
    requires Absent(s, reference) && Unreserved(actions, reference)
    ensures Absent(Run(s, actions), reference)
    decreases |actions|
  {
    if actions != [] {
      UnreservedRest(actions, reference);
      StepAbsent(s, actions[0], reference);
      hide Apply, Absent, Unreserved;
      AbsentStays(Apply(s, actions[0]), actions[1..], reference);
    }
  }

  lemma StepAbsent(s: State, a: Action, reference: string)
    requires Absent(s, reference) && (!a.Gated? ==> a.reference != reference)
    ensures Absent(Apply(s, a), reference)
  {
    hide G.Apply, Commits, RollsBack, RowOk;
  }

  /** The first commit or working ROLLBACK decides. */
  lemma FirstDecides(s: State, actions: seq<Action>)
    requires actions != []
    ensures var a, next, rest := actions[0], Apply(s, actions[0]), actions[1..];
            if a.Gated? && Commits(s.gate, a.a) then Survives(s, actions) && CommitsFirst(s, actions)
            else if a.Gated? && RollsBack(s.gate, a.a) then !Survives(s, actions) && !CommitsFirst(s, actions)
            else (Survives(s, actions) <==> Survives(next, rest)) && (CommitsFirst(s, actions) <==> CommitsFirst(next, rest))
  {
    var a := actions[0];
    AtFirst(s, actions);
    Exclusive(s, a);
    hide CommitsAt, RollsBackAt, Commits, RollsBack, Apply;
    if CommitsAt(s, actions, 0) {
      assert CommitsFirst(s, actions);
    } else if RollsBackAt(s, actions, 0) {
      assert !Survives(s, actions);
    } else {
      LaterSurvives(s, actions);
      LaterCommits(s, actions);
    }
  }

  lemma AtFirst(s: State, actions: seq<Action>)
    requires actions != []
    ensures CommitsAt(s, actions, 0) <==> actions[0].Gated? && Commits(s.gate, actions[0].a)
    ensures RollsBackAt(s, actions, 0) <==> actions[0].Gated? && RollsBack(s.gate, actions[0].a)
  {
    hide Commits, RollsBack, Apply;
    assert actions[..0] == [];
  }

  lemma AtLater(s: State, actions: seq<Action>, i: nat)
    requires actions != []
    ensures CommitsAt(s, actions, i + 1) <==> CommitsAt(Apply(s, actions[0]), actions[1..], i)
    ensures RollsBackAt(s, actions, i + 1) <==> RollsBackAt(Apply(s, actions[0]), actions[1..], i)
  {
    hide Commits, RollsBack, Apply;
    if i + 1 < |actions| {
      assert actions[..i + 1][0] == actions[0] && actions[..i + 1][1..] == actions[1..][..i];
      assert Run(s, actions[..i + 1]) == Run(Apply(s, actions[0]), actions[1..][..i]);
    }
  }

  lemma Exclusive(s: State, a: Action)
    ensures a.Gated? ==> !(Commits(s.gate, a.a) && RollsBack(s.gate, a.a))
  {
    hide Commits;
  }

  lemma LaterSurvives(s: State, actions: seq<Action>)
    requires actions != [] && !CommitsAt(s, actions, 0) && !RollsBackAt(s, actions, 0)
    ensures Survives(s, actions) <==> Survives(Apply(s, actions[0]), actions[1..])
  {
    var next, rest := Apply(s, actions[0]), actions[1..];
    forall i: nat ensures CommitsAt(s, actions, i + 1) <==> CommitsAt(next, rest, i) { AtLater(s, actions, i); }
    forall i: nat ensures RollsBackAt(s, actions, i + 1) <==> RollsBackAt(next, rest, i) { AtLater(s, actions, i); }
    hide CommitsAt, RollsBackAt, Apply;
    if Survives(s, actions) {
      forall i: nat | RollsBackAt(next, rest, i) ensures exists j: nat :: j < i && CommitsAt(next, rest, j) {
        assert RollsBackAt(s, actions, i + 1);
        var j: nat :| j < i + 1 && CommitsAt(s, actions, j);
        assert CommitsAt(next, rest, j - 1);
      }
    }
    if Survives(next, rest) {
      forall i: nat | RollsBackAt(s, actions, i) ensures exists j: nat :: j < i && CommitsAt(s, actions, j) {
        assert RollsBackAt(next, rest, i - 1);
        var j: nat :| j < i - 1 && CommitsAt(next, rest, j);
        assert CommitsAt(s, actions, j + 1);
      }
    }
  }

  lemma LaterCommits(s: State, actions: seq<Action>)
    requires actions != [] && !CommitsAt(s, actions, 0) && !RollsBackAt(s, actions, 0)
    ensures CommitsFirst(s, actions) <==> CommitsFirst(Apply(s, actions[0]), actions[1..])
  {
    var next, rest := Apply(s, actions[0]), actions[1..];
    forall i: nat ensures CommitsAt(s, actions, i + 1) <==> CommitsAt(next, rest, i) { AtLater(s, actions, i); }
    forall i: nat ensures RollsBackAt(s, actions, i + 1) <==> RollsBackAt(next, rest, i) { AtLater(s, actions, i); }
    hide CommitsAt, RollsBackAt, Apply;
    if CommitsFirst(s, actions) {
      var j: nat :| CommitsAt(s, actions, j) && forall i: nat :: i < j ==> !RollsBackAt(s, actions, i);
      assert CommitsAt(next, rest, j - 1);
      forall i: nat | i < j - 1 ensures !RollsBackAt(next, rest, i) { assert !RollsBackAt(s, actions, i + 1); }
    }
    if CommitsFirst(next, rest) {
      var j: nat :| CommitsAt(next, rest, j) && forall i: nat :: i < j ==> !RollsBackAt(next, rest, i);
      assert CommitsAt(s, actions, j + 1);
      forall i: nat | i < j + 1 ensures !RollsBackAt(s, actions, i) {
        if i > 0 { assert !RollsBackAt(next, rest, i - 1); }
      }
    }
  }

  /** No ROLLBACK need fail for that: one allocation is refused while a reservation falls into its
      transaction, and the reference is given to two rows. */
  lemma VoidedReservation(reference: string, first: Mapping, second: Mapping)
    requires RowOk(reference, first) && RowOk(reference, second)
    ensures var during := Run(Start(), [Gated(G.Arrive(0)), Gated(G.Begin(0))]);
            var refused := Apply(Apply(during, Reserve(reference, first)), Gated(G.End(0, false, false, true)));
            Answer(during, reference, first) && Answer(refused, reference, second)
            && Stored(Apply(refused, Reserve(reference, second)), reference, second)
  {
    hide RowOk;
    var arrive, begin := Gated(G.Arrive(0)), Gated(G.Begin(0));
    var s := Apply(Start(), arrive);
    var during := Apply(s, begin);
    assert [arrive, begin][1..] == [begin] && [begin][1..] == [];
    assert Run(Start(), [arrive, begin]) == Run(s, [begin]) == Run(during, []);
    assert during.gate.calls[0] == G.InTransaction(0) && during.gate.open == Some(0);
  }

  /** Another connection's reservation is committed at once, when its reference is free. */
  lemma ElsewhereStores(s: State, reference: string, row: Mapping)
    ensures Answer(s, reference, row) ==> Stored(Apply(s, Elsewhere(reference, row)), reference, row)
    ensures !Answer(s, reference, row) ==> Apply(s, Elsewhere(reference, row)) == s
  {
    hide RowOk;
  }
}
