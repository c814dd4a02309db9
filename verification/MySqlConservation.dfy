/** Exactly when MySQL allocations conserve numbers, are atomic, and leave counters to their namespaces,
    over all runs, failing rollbacks included. */
module MySqlConservation {
  import opened Wrappers
  import opened Tables
  import opened MySqlRows
  import opened MySqlProtocol

  // ----- what a START TRANSACTION may commit by accident

  /** The action commits a counter at a number that no binding got. */
  predicate Skips(s: State, a: Action, prefix: string, scope: string)
  {
    var open := MadePermanent(s, a);
    open.Some? && open.value.done.Updated? && open.value.q.prefix == prefix && open.value.q.key.scope == scope
  }

  ghost predicate Skipped(s: State, actions: seq<Action>, prefix: string, scope: string)
    decreases |actions|
  {
    actions != [] && (Skips(s, actions[0], prefix, scope) || Skipped(Apply(s, actions[0]), actions[1..], prefix, scope))
  }

  ghost predicate Complete(s: State, actions: seq<Action>, prefix: string, scope: string)
  {
    !Skipped(s, actions, prefix, scope)
  }

  ghost predicate NeverSkipped(s: State, actions: seq<Action>)
  {
    forall p, scope :: Complete(s, actions, p, scope)
  }

  /** The action commits a counter row that was written, inserted or moved, without a binding. */
  predicate Tears(s: State, a: Action)
  {
    var open := MadePermanent(s, a);
    open.Some? && (open.value.done.Updated?
                   || (open.value.done.Upserted? && open.value.held.source != Some(open.value.q.key)))
  }

  ghost predicate Torn(s: State, actions: seq<Action>)
    decreases |actions|
  {
    actions != [] && (Tears(s, actions[0]) || Torn(Apply(s, actions[0]), actions[1..]))
  }

  // ----- atomicity

  /** `after` is `t` with one whole allocation: a counter step and its binding. */
  ghost predicate OneAllocation(t: Tables, after: Tables, q: Request, h: Held, n: nat, machine: Bytes)
  {
    HeldOk(t, q, h) && Granted(h, q, n) && q.width >= 0 && Replay(t, q.key, machine).None?
    && after == Committed(t, q, h, n, machine)
  }

  /** Nothing changed, or one reservation was made, or one whole allocation was. */
  ghost predicate Atomic(t: Tables, after: Tables)
  {
    after == t
    || (exists reference, row :: after == Reservation(t, reference, row).1)
    || (exists q, h, n: nat, machine :: OneAllocation(t, after, q, h, n, machine))
  }

  /** A step is atomic exactly when it does not commit a counter row without its binding. */
  lemma StepAtomicExactly(s: State, a: Action)
    requires Invariant(s)
    ensures Atomic(s.tables, Apply(s, a).tables) <==> !Tears(s, a)
  {
    hide *;
    TablesAfter(s, a);
    PermanentCases(s, a);
    InvariantParts(s, 0);
    if a.Reserve? {
      AtomicReservation(s.tables, a.reference, a.row);
    } else if MadePermanent(s, a).None? {
      FlushCases(s.tables, None);
      AtomicNothing(s.tables);
    } else {
      var o := MadePermanent(s, a).value;
      MadePermanentOk(s, a);
      FlushCases(s.tables, Some(o));
      OpenParts(s.tables, o);
      UnfinishedIs(o);
      if o.done.Inserted? {
        AtomicAllocation(s.tables, o.q, o.held, o.done.n, MachineOf(o.q).value);
      } else if Tears(s, a) {
        TornNotAtomic(s.tables, o);
      } else {
        OwnRowUnchanged(s.tables, o);
        AtomicNothing(s.tables);
      }
    }
  }

  lemma PermanentCases(s: State, a: Action)
    ensures a.Reserve? ==> MadePermanent(s, a).None?
    ensures Tears(s, a) <==> MadePermanent(s, a).Some? && Unfinished(MadePermanent(s, a).value)
    ensures MadePermanent(s, a).Some? ==> !a.Reserve? && a.c in s.calls && s.calls[a.c].open == MadePermanent(s, a)
    ensures forall p, scope :: (Skips(s, a, p, scope)
              <==> MadePermanent(s, a).Some? && MadePermanent(s, a).value.done.Updated?
                   && MadePermanent(s, a).value.q.prefix == p && MadePermanent(s, a).value.q.key.scope == scope)
  {
    hide Permanent;
  }

  predicate Unfinished(o: Open)
  {
    o.done.Updated? || (o.done.Upserted? && o.held.source != Some(o.q.key))
  }

  lemma UnfinishedIs(o: Open)
    ensures Unfinished(o) <==> o.done.Updated? || (o.done.Upserted? && o.held.source != Some(o.q.key))
  {
  }

  lemma AtomicNothing(t: Tables)
    ensures Atomic(t, t)
  {
  }

  lemma AtomicReservation(t: Tables, reference: string, row: Mapping)
    ensures Atomic(t, Reservation(t, reference, row).1)
  {
  }

  lemma AtomicAllocation(t: Tables, q: Request, h: Held, n: nat, machine: Bytes)
    requires HeldOk(t, q, h) && Granted(h, q, n) && q.width >= 0 && Replay(t, q.key, machine).None?
    ensures Atomic(t, Committed(t, q, h, n, machine))
  {
    assert OneAllocation(t, Committed(t, q, h, n, machine), q, h, n, machine);
    hide OneAllocation, Reservation, Committed;
  }

  lemma OwnRowUnchanged(t: Tables, o: Open)
    requires OpenOk(t, o) && o.done.Upserted? && o.held.source == Some(o.q.key)
    ensures Flushed(t, o) == t
  {
    hide CounterRowOk, Maximum, HasBindings;
    assert (t.counters - {o.q.key})[o.q.key := t.counters[o.q.key]] == t.counters;
  }

  lemma TornNotAtomic(t: Tables, o: Open)
    requires Inv(t) && OpenOk(t, o) && !o.done.Inserted? && Unfinished(o)
    ensures !Atomic(t, Flushed(t, o))
  {
    hide *;
    var after := Flushed(t, o);
    TornCounters(t, o);
    InvUnique(t);
    if Atomic(t, after) {
      AtomicRows(t, after);
    }
  }

  lemma AtomicRows(t: Tables, after: Tables)
    requires BindingsOk(t) && Atomic(t, after)
    ensures after.counters == t.counters || after.bindings != t.bindings
  {
    hide HeldOk, Granted, Replay, Committed;
    if q, h, n: nat, machine :| OneAllocation(t, after, q, h, n, machine) {
      FreshSlot(t, q, h, n);
      CommittedBinds(t, q, h, n, machine);
    } else if reference, row :| after == Reservation(t, reference, row).1 {
      ReservationShape(t, reference, row);
    }
  }

  lemma CommittedBinds(t: Tables, q: Request, h: Held, n: nat, machine: Bytes)
    requires q.width >= 0
    ensures Slot(q.key, n) in Committed(t, q, h, n, machine).bindings
  {
  }

  lemma TornCounters(t: Tables, o: Open)
    requires OpenOk(t, o) && !o.done.Inserted? && Unfinished(o)
    ensures Flushed(t, o).counters != t.counters && Flushed(t, o).bindings == t.bindings
  {
    hide CounterRowOk, Maximum, HasBindings, PrefixTaken;
    assert o.q.key in Flushed(t, o).counters;
  }

  /** Every step of a run is atomic exactly when the run is not torn. */
  ghost predicate AllAtomic(s: State, actions: seq<Action>)
    decreases |actions|
  {
    actions == [] || (Atomic(s.tables, Apply(s, actions[0]).tables) && AllAtomic(Apply(s, actions[0]), actions[1..]))
  }

  lemma {:induction false} RunAtomicExactly(s: State, actions: seq<Action>)
    requires Invariant(s)
    ensures AllAtomic(s, actions) <==> !Torn(s, actions)
    decreases |actions|
  {
    hide Invariant, Apply, Atomic, Tears;
    if actions != [] {
      StepInvariant(s, actions[0]);
      StepAtomicExactly(s, actions[0]);
      RunAtomicExactly(Apply(s, actions[0]), actions[1..]);
    }
  }

  // ----- conservation, per reference prefix and scope

  lemma StepConserves(s: State, a: Action, prefix: string, scope: string)
    requires Invariant(s)
    ensures NumbersGrown(s.tables, Apply(s, a).tables, prefix, scope) <==> !Skips(s, a, prefix, scope)
  {
    hide *;
    TablesAfter(s, a);
    PermanentCases(s, a);
    InvariantParts(s, 0);
    AscendedReflexive(s.tables);
    GrownParts(s.tables, s.tables);
    if a.Reserve? {
      ReserveInvariant(s, a.reference, a.row);
      GrownParts(s.tables, Reservation(s.tables, a.reference, a.row).1);
    } else {
      FlushCases(s.tables, MadePermanent(s, a));
      if MadePermanent(s, a).Some? {
        MadePermanentOk(s, a);
        FlushGrows(s.tables, MadePermanent(s, a).value);
      }
    }
  }

  /** Over any run from any consistent tables, the numbers of a prefix and scope are conserved exactly
      when no START TRANSACTION commits one of its counters without the binding: a number passed over
      once is never bound. */
  lemma {:induction false} RunConservesExactly(s: State, actions: seq<Action>, prefix: string, scope: string)
    requires Invariant(s)
    ensures NumbersGrown(s.tables, Run(s, actions).tables, prefix, scope) <==> !Skipped(s, actions, prefix, scope)
    decreases |actions|
  {
    hide Invariant, Apply, NumbersGrown, Skips, Ascended;
    if actions == [] {
      NothingPassed(s.tables, prefix, scope);
    } else {
      var next := Apply(s, actions[0]);
      StepInvariant(s, actions[0]);
      RunInvariant(next, actions[1..]);
      StepConserves(s, actions[0], prefix, scope);
      RunConservesExactly(next, actions[1..], prefix, scope);
      NumbersSplit(s.tables, next.tables, Run(next, actions[1..]).tables, prefix, scope);
    }
  }

  lemma NothingPassed(t: Tables, prefix: string, scope: string)
    ensures NumbersGrown(t, t, prefix, scope)
  {
  }

  function PrefixSequences(t: Tables, prefix: string, scope: string): set<nat>
  {
    set s | s in t.bindings && s.key.scope == scope && t.bindings[s].prefix == prefix :: s.sequence
  }

  lemma InPrefixSequences(t: Tables, prefix: string, scope: string, n: nat)
    ensures n in PrefixSequences(t, prefix, scope) <==> Numbered(t, prefix, scope, n)
  {
  }

  lemma SubsetSize<T>(x: set<T>, y: set<T>)
    requires x <= y
    ensures |x| <= |y| && (|x| == |y| <==> x == y)
  {
    assert y == x + (y - x);
    assert |y| == |x| + |y - x|;
  }

  /** In numbers: a counter grows by at least the number of bindings added, and by exactly that many if
      and only if the run does not skip one of its numbers. */
  lemma RunConserves(s: State, actions: seq<Action>, prefix: string, scope: string)
    requires Invariant(s)
    ensures var after := Run(s, actions).tables;
            var added := |PrefixSequences(after, prefix, scope)| - |PrefixSequences(s.tables, prefix, scope)|;
            var grown := PrefixLast(after, prefix, scope) - PrefixLast(s.tables, prefix, scope);
            0 <= added <= grown && (added == grown <==> !Skipped(s, actions, prefix, scope))
  {
    hide *;
    RunInvariant(s, actions);
    RunConservesExactly(s, actions, prefix, scope);
    InvariantParts(s, 0);
    var a, b := s.tables, Run(s, actions).tables;
    KeptBindings(a, b);
    AscendedAt(a, b, prefix, scope);
    AscendingIs(a, b, prefix, scope);
    var before, after := PrefixSequences(a, prefix, scope), PrefixSequences(b, prefix, scope);
    var news := Interval(PrefixLast(a, prefix, scope), PrefixLast(b, prefix, scope));
    forall n: nat
      ensures n in before <==> Numbered(a, prefix, scope, n)
      ensures n in after <==> Numbered(b, prefix, scope, n)
      ensures n in before ==> n in after && n !in news
    {
      InPrefixSequences(a, prefix, scope, n);
      InPrefixSequences(b, prefix, scope, n);
      if Numbered(a, prefix, scope, n) {
        NumberedBelow(a, prefix, scope, n);
        NumberedKept(a, b, prefix, scope, n);
      }
    }
    assert after - before <= news;
    SubsetSize(after - before, news);
    assert after == before + (after - before);
    assert |after| == |before| + |after - before|;
    assert after - before == news <==> NumbersGrown(a, b, prefix, scope);
  }

  lemma AscendedAt(a: Tables, b: Tables, prefix: string, scope: string)
    requires Ascended(a, b)
    ensures Ascending(a, b, prefix, scope)
  {
    hide Ascending, ReferencesKept, BindingsKept;
  }

  // ----- namespaces

  /** Counter and prefix counter of a row that kept its place. */
  lemma LastAgrees(a: Tables, b: Tables, k: Key)
    requires PrefixesUnique(a) && PrefixesUnique(b) && CountersKept(a, b) && k in b.counters
    ensures PrefixLast(b, b.counters[k].prefix, k.scope) == Last(b, k)
    ensures PrefixLast(a, b.counters[k].prefix, k.scope) == Last(a, k)
  {
    hide PrefixLast;
    var p := b.counters[k].prefix;
    assert Holds(b, k, p, k.scope);
    PrefixLastIs(b, k, p, k.scope);
    if j :| Holds(a, j, p, k.scope) {
      assert j == k;
      PrefixLastIs(a, k, p, k.scope);
    } else {
      assert k in a.counters ==> Holds(a, k, p, k.scope);
      PrefixLastNone(a, p, k.scope);
    }
  }

  /** When every counter stays under its namespace, conservation per namespace and conservation per
      prefix are the same. */
  lemma KeptNamespaces(a: Tables, b: Tables)
    requires Inv(a) && Inv(b) && Ascended(a, b) && CountersKept(a, b)
    ensures Grown(a, b) <==> forall p, scope :: NumbersGrown(a, b, p, scope)
  {
    hide *;
    InvUnique(a);
    InvUnique(b);
    KeptBindings(a, b);
    if forall p, scope :: NumbersGrown(a, b, p, scope) {
      forall s: Slot ensures s in b.bindings <==> s in a.bindings || Last(a, s.key) < s.sequence <= Last(b, s.key) {
        SlotConserved(a, b, s);
      }
      MakeGrown(a, b);
    }
    if Grown(a, b) {
      forall p, scope ensures NumbersGrown(a, b, p, scope) {
        GrownNumbers(a, b, p, scope);
      }
    }
  }

  lemma MakeGrown(a: Tables, b: Tables)
    requires ReferencesKept(a, b) && CountersKept(a, b) && BindingsKept(a, b)
    requires forall s: Slot :: (s in b.bindings <==> s in a.bindings || Last(a, s.key) < s.sequence <= Last(b, s.key))
    ensures Grown(a, b)
  {
    hide ReferencesKept, CountersKept, BindingsKept, Last;
  }

  lemma BindingRow(t: Tables, s: Slot)
    requires BindingsOk(t) && s in t.bindings
    ensures s.key in t.counters && t.bindings[s].prefix == t.counters[s.key].prefix && 1 <= s.sequence <= Last(t, s.key)
    ensures Numbered(t, t.bindings[s].prefix, s.key.scope, s.sequence)
  {
  }

  lemma LastRow(t: Tables, k: Key)
    ensures Last(t, k) > 0 ==> k in t.counters
  {
  }

  lemma SlotConserved(a: Tables, b: Tables, s: Slot)
    requires Inv(a) && Inv(b) && Ascended(a, b) && CountersKept(a, b) && BindingsKept(a, b)
    requires forall p, scope :: NumbersGrown(a, b, p, scope)
    ensures s in b.bindings <==> s in a.bindings || Last(a, s.key) < s.sequence <= Last(b, s.key)
  {
    hide *;
    InvUnique(a);
    InvUnique(b);
    LastRow(b, s.key);
    if s in b.bindings { BindingRow(b, s); }
    if s in a.bindings { KeptBinding(a, b, s); }
    if s.key in b.counters {
      var p := b.counters[s.key].prefix;
      LastAgrees(a, b, s.key);
      AscendedAt(a, b, p, s.key.scope);
      AscendingIs(a, b, p, s.key.scope);
      assert NumbersGrown(a, b, p, s.key.scope);
      if Numbered(b, p, s.key.scope, s.sequence) { OneSlot(b, s, p); }
      if Numbered(a, p, s.key.scope, s.sequence) { OneSlotKept(a, b, s, p); }
    }
  }

  lemma KeptBinding(a: Tables, b: Tables, s: Slot)
    requires BindingsKept(a, b) && s in a.bindings
    ensures s in b.bindings && b.bindings[s] == a.bindings[s]
  {
  }

  /** The prefix and the number determine the slot, as the row of the prefix is unique. */
  lemma OneSlot(b: Tables, s: Slot, p: string)
    requires BindingsOk(b) && PrefixesUnique(b) && s.key in b.counters && b.counters[s.key].prefix == p
    requires Numbered(b, p, s.key.scope, s.sequence)
    ensures s in b.bindings
  {
    var r :| r in b.bindings && r.key.scope == s.key.scope && r.sequence == s.sequence && b.bindings[r].prefix == p;
    assert r.key == s.key;
    assert r == Slot(r.key, r.sequence) && s == Slot(s.key, s.sequence);
  }

  lemma OneSlotKept(a: Tables, b: Tables, s: Slot, p: string)
    requires BindingsOk(b) && PrefixesUnique(b) && BindingsKept(a, b)
    requires s.key in b.counters && b.counters[s.key].prefix == p && Numbered(a, p, s.key.scope, s.sequence)
    ensures s in a.bindings
  {
    var r :| r in a.bindings && r.key.scope == s.key.scope && r.sequence == s.sequence && a.bindings[r].prefix == p;
    assert r in b.bindings && b.bindings[r].prefix == p;
    assert r.key == s.key;
    assert r == Slot(r.key, r.sequence) && s == Slot(s.key, s.sequence);
  }

  lemma GrownNumbers(a: Tables, b: Tables, p: string, scope: string)
    requires Inv(a) && Inv(b) && Grown(a, b) && CountersKept(a, b)
    ensures NumbersGrown(a, b, p, scope)
  {
    hide *;
    InvUnique(a);
    InvUnique(b);
    if k :| Holds(b, k, p, scope) {
      HoldsIs(b, k, p, scope);
      LastAgrees(a, b, k);
      forall n: nat | PrefixLast(a, p, scope) < n <= PrefixLast(b, p, scope) ensures Numbered(b, p, scope, n) {
        GrownSlot(a, b, Slot(k, n));
        BindingRow(b, Slot(k, n));
      }
    } else {
      PrefixLastNone(b, p, scope);
    }
    AscendingIs(a, b, p, scope);
  }

  lemma HoldsIs(t: Tables, k: Key, p: string, scope: string)
    ensures Holds(t, k, p, scope) <==> k in t.counters && k.scope == scope && t.counters[k].prefix == p
  {
  }

  lemma GrownSlot(a: Tables, b: Tables, s: Slot)
    requires Grown(a, b) && Last(a, s.key) < s.sequence <= Last(b, s.key)
    ensures s in b.bindings
  {
    hide Last, ReferencesKept, CountersKept, BindingsKept;
  }

  lemma GrownKeeps(a: Tables, b: Tables)
    requires Grown(a, b)
    ensures CountersKept(a, b)
  {
    hide ReferencesKept, CountersKept, BindingsKept, Conserved;
  }

  /** Over any run: conservation per namespace and scope holds exactly when every counter stayed under
      its namespace and no number was skipped. */
  lemma RunKeepsNamespaces(s: State, actions: seq<Action>)
    requires Invariant(s)
    ensures Grown(s.tables, Run(s, actions).tables)
            <==> CountersKept(s.tables, Run(s, actions).tables) && NeverSkipped(s, actions)
  {
    hide *;
    RunInvariant(s, actions);
    InvariantParts(s, 0);
    InvariantParts(Run(s, actions), 0);
    var a, b := s.tables, Run(s, actions).tables;
    forall p, scope ensures NumbersGrown(a, b, p, scope) <==> Complete(s, actions, p, scope) {
      RunConservesExactly(s, actions, p, scope);
      CompleteIs(s, actions, p, scope);
    }
    NeverSkippedIs(s, actions);
    if Grown(a, b) { GrownKeeps(a, b); }
    if CountersKept(a, b) { KeptNamespaces(a, b); }
  }

  lemma NeverSkippedIs(s: State, actions: seq<Action>)
    ensures NeverSkipped(s, actions) <==> forall p, scope :: Complete(s, actions, p, scope)
  {
    hide Complete;
  }

  lemma CompleteIs(s: State, actions: seq<Action>, prefix: string, scope: string)
    ensures Complete(s, actions, prefix, scope) <==> !Skipped(s, actions, prefix, scope)
  {
    hide Skipped;
  }

  /** Every counter has a binding, as in all tables that only finished allocations filled. */
  ghost predicate Anchored(t: Tables)
  {
    forall k :: k in t.counters ==> HasBindings(t, k)
  }

  /** A counter with a binding stays under its namespace, whatever happens. */
  lemma AnchoredStays(a: Tables, b: Tables, k: Key)
    requires Inv(a) && Inv(b) && Ascended(a, b) && k in a.counters && HasBindings(a, k)
    ensures k in b.counters && b.counters[k].prefix == a.counters[k].prefix
    ensures b.counters[k].width == a.counters[k].width && a.counters[k].last <= b.counters[k].last
  {
    hide *;
    InvUnique(a);
    InvUnique(b);
    KeptBindings(a, b);
    AnchorRow(a, b, k);
    var p := a.counters[k].prefix;
    AscendedAt(a, b, p, k.scope);
    AscendingIs(a, b, p, k.scope);
    HoldsIs(a, k, p, k.scope);
    HoldsIs(b, k, p, k.scope);
    PrefixLastIs(a, k, p, k.scope);
    PrefixLastIs(b, k, p, k.scope);
  }

  lemma AnchorRow(a: Tables, b: Tables, k: Key)
    requires BindingsOk(a) && BindingsOk(b) && BindingsKept(a, b) && k in a.counters && HasBindings(a, k)
    ensures k in b.counters && b.counters[k].prefix == a.counters[k].prefix && b.counters[k].width == a.counters[k].width
  {
    var s :| s in a.bindings && s.key == k;
    assert s in b.bindings && b.bindings[s] == a.bindings[s];
  }

  /** From anchored tables no counter ever changes its namespace, in any run, and conservation per
      namespace holds exactly when no number was skipped. */
  lemma AnchoredRun(s: State, actions: seq<Action>)
    requires Invariant(s) && Anchored(s.tables)
    ensures CountersKept(s.tables, Run(s, actions).tables)
    ensures Grown(s.tables, Run(s, actions).tables) <==> NeverSkipped(s, actions)
  {
    hide *;
    RunInvariant(s, actions);
    InvariantParts(s, 0);
    InvariantParts(Run(s, actions), 0);
    var a, b := s.tables, Run(s, actions).tables;
    forall k | k in a.counters
      ensures k in b.counters && b.counters[k].prefix == a.counters[k].prefix
      ensures b.counters[k].width == a.counters[k].width && a.counters[k].last <= b.counters[k].last
    {
      AnchoredAt(a, k);
      AnchoredStays(a, b, k);
    }
    MakeCountersKept(a, b);
    RunKeepsNamespaces(s, actions);
  }

  lemma AnchoredAt(t: Tables, k: Key)
    requires Anchored(t) && k in t.counters
    ensures HasBindings(t, k)
  {
    hide HasBindings;
  }

  lemma MakeCountersKept(a: Tables, b: Tables)
    requires forall k :: k in a.counters ==>
               k in b.counters && b.counters[k].prefix == a.counters[k].prefix
               && b.counters[k].width == a.counters[k].width && a.counters[k].last <= b.counters[k].last
    ensures CountersKept(a, b)
  {
  }

  /** The bound numbers of a key are exactly 1 to its counter. */
  ghost predicate CountsFromOne(t: Tables, key: Key)
  {
    forall n: nat :: Taken(t, key, n) <==> 1 <= n <= Last(t, key)
  }

  /** From empty tables, after any interleaving: a number never has two MIDs under a key, nor a MID two
      numbers; and the bindings of every key are a bijection between MIDs and exactly the numbers from 1
      to the counter, which fits the width, if and only if no START TRANSACTION committed a counter
      without its binding. */
  lemma EveryRunBijective(actions: seq<Action>, key: Key)
    ensures var t := Run(Start(Empty()), actions).tables;
            ((forall k :: CountsFromOne(t, k)) <==> NeverSkipped(Start(Empty()), actions))
            && (NeverSkipped(Start(Empty()), actions) ==> |Machines(t, key)| == |Sequences(t, key)| == Last(t, key))
            && (forall n: nat, k: nat, m :: Bound(t, key, n, m) && Bound(t, key, k, m) ==> n == k)
            && (key in t.counters ==> Last(t, key) <= Maximum(t.counters[key].width))
  {
    hide *;
    EmptyInv();
    StartInvariant(Empty());
    StartAnchored();
    AnchoredRun(Start(Empty()), actions);
    RunInvariant(Start(Empty()), actions);
    InvariantParts(Run(Start(Empty()), actions), 0);
    var t := Run(Start(Empty()), actions).tables;
    KeptBindings(Empty(), t);
    LastFits(t, key);
    forall n: nat, k: nat, m | Bound(t, key, n, m) && Bound(t, key, k, m) ensures n == k {
      OneNumber(t, key, n, k, m);
    }
    if Grown(Empty(), t) {
      Bijection(t, key);
      forall k ensures CountsFromOne(t, k) { Bijection(t, k); CountsIs(t, k); }
    }
    if forall k :: CountsFromOne(t, k) {
      forall s: Slot ensures s in t.bindings <==> s in Empty().bindings || Last(Empty(), s.key) < s.sequence <= Last(t, s.key) {
        assert CountsFromOne(t, s.key);
        CountsIs(t, s.key);
        TakenSlot(t, s);
        NothingEmpty(s);
      }
      MakeGrown(Empty(), t);
    }
  }

  lemma CountsIs(t: Tables, key: Key)
    ensures CountsFromOne(t, key) <==> forall n: nat :: (Taken(t, key, n) <==> 1 <= n <= Last(t, key))
  {
    hide Taken, Last;
  }

  lemma TakenSlot(t: Tables, s: Slot)
    ensures Taken(t, s.key, s.sequence) <==> s in t.bindings
  {
    assert s == Slot(s.key, s.sequence);
    if s in t.bindings { assert Bound(t, s.key, s.sequence, t.bindings[s].machine); }
  }

  lemma NothingEmpty(s: Slot)
    ensures s !in Empty().bindings && Last(Empty(), s.key) == 0
  {
  }

  lemma StartAnchored()
    ensures Start(Empty()).tables == Empty() && Anchored(Empty())
  {
  }
}
