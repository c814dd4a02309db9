/** The SQLite adapter: one connection, and allocation statement by statement. */
module SqliteAllocator {
  import opened Wrappers
  import opened Errors
  import opened StorageText
  import opened Tables

  datatype Statement =
    | BeginImmediate | SelectBinding | InsertCounter | SelectCounter | UpdateCounter | InsertBinding | Commit | Rollback

  /** The statements an undisturbed allocation executes. */
  ghost function Executed(t: Tables, q: Request): set<Statement>
  {
    if MachineIdToBytes(q.machineId).Some? && Replay(t, q.key, MachineIdToBytes(q.machineId).value).Some?
    then {BeginImmediate, SelectBinding, Commit}
    else {BeginImmediate, SelectBinding, InsertCounter, SelectCounter, UpdateCounter, InsertBinding, Commit}
  }

  class Connection {
    var tables: Tables
    /** The uncommitted tables of a transaction that a failed ROLLBACK left open. */
    var pending: Option<Tables>

    ghost predicate Valid()
      reads this
    {
      Inv(tables) && (pending.Some? ==> PendingOk(tables, pending.value))
    }

    /** What the connection itself reads and writes. */
    function Current(): Tables
      reads this
    {
      if pending.Some? then pending.value else tables
    }

    constructor ()
      ensures Valid() && tables == Empty() && pending.None?
    {
      hide *;
      tables, pending := Empty(), None;
      new;
      EmptyInv();
      ValidIs();
    }

    lemma ValidIs()
      ensures Valid() <==> Inv(tables) && (pending.Some? ==> PendingOk(tables, pending.value))
      ensures Current() == if pending.Some? then pending.value else tables
      ensures Valid() ==> Inv(Current())
    {
      hide Inv, ReferencesKept, BindingsKept;
    }

    /** Allocation under an arbitrary set of failing statements; `applied` says whether a failing
        COMMIT took effect all the same. */
    method Allocate(q: Request, faults: set<Statement>, applied: bool) returns (r: Result<nat, Error>)
      requires Valid()
      modifies this
      ensures Valid() && Grown(old(tables), tables)
      ensures r.Success? ==> (r, tables) == Allocation(old(tables), q) && pending.None?
      ensures tables == old(tables) || (Allocation(old(tables), q).0.Success? && tables == Allocation(old(tables), q).1)
      ensures r.Failure? && tables != old(tables) ==> Commit in faults && applied
      ensures old(pending).None? ==>
                (r.Success? <==> Allocation(old(tables), q).0.Success? && faults !! Executed(old(tables), q))
      ensures old(pending).None? && faults == {} ==> r == Allocation(old(tables), q).0
      ensures r.Failure? ==> r.error == AllocationConflict || r == Allocation(old(tables), q).0
      ensures old(pending).None? && Rollback !in faults ==> pending.None?
      ensures old(pending).Some? && 4 <= q.width <= 18 ==>
                r == Failure(AllocationConflict) && tables == old(tables)
                && pending == if Rollback in faults then old(pending) else None
    {
      hide *;
      ValidIs();
      GrownReflexive(tables);
      AllocationKeeps(tables, q);
      if q.width < 4 || q.width > 18 {
        WidthRefused(tables, q);
        return Failure(InvalidAllocationPolicy);
      }
      r := Transaction(q, faults, applied);
      if r.Failure? && Rollback !in faults {
        pending := None;
      }
      ValidIs();
    }

    method Transaction(q: Request, faults: set<Statement>, applied: bool) returns (r: Result<nat, Error>)
      requires Inv(tables) && (pending.Some? ==> PendingOk(tables, pending.value)) && 4 <= q.width <= 18
      modifies this
      ensures pending.Some? ==> PendingOk(tables, pending.value)
      ensures r.Success? ==> (r, tables) == Allocation(old(tables), q) && pending.None?
      ensures tables == old(tables) || (Allocation(old(tables), q).0.Success? && tables == Allocation(old(tables), q).1)
      ensures r.Failure? && tables != old(tables) ==> Commit in faults && applied
      ensures old(pending).None? ==>
                (r.Success? <==> Allocation(old(tables), q).0.Success? && faults !! Executed(old(tables), q))
      ensures old(pending).None? && faults == {} ==> r == Allocation(old(tables), q).0
      ensures r.Failure? ==> r.error == AllocationConflict || r == Allocation(old(tables), q).0
      ensures old(pending).Some? ==>
                r == Failure(AllocationConflict) && tables == old(tables) && pending == old(pending)
    {
      hide *;
      if pending.Some? || BeginImmediate in faults {
        ExecutedAlways(tables, q);
        return Failure(AllocationConflict);
      }
      var t := tables;
      PendingSame(t);
      AllocationKeeps(t, q);
      pending := Some(t);
      if SelectBinding in faults {
        ExecutedAlways(t, q);
        return Failure(AllocationConflict);
      }
      var bytes := MachineIdToBytes(q.machineId);
      if bytes.None? {
        MidRefused(t, q);
        return Failure(InvalidMid);
      }
      var machine := bytes.value;
      if slot :| slot in t.bindings && slot.key == q.key && t.bindings[slot].machine == machine {
        ReplayAllocation(t, q, machine, slot);
        if t.bindings[slot].prefix != q.prefix || t.bindings[slot].width != q.width {
          return Failure(InvalidAllocationPolicy);
        }
        r := End(slot.sequence, faults, applied);
      } else {
        NoReplay(t, q, machine);
        if InsertCounter in faults { return Failure(AllocationConflict); }
        if !CounterRowOk(q.key, q.prefix, q.width) { return Failure(AllocationConflict); }
        CounterInserted(t, q);
        PendingCounter(t, q);
        if q.key !in t.counters && !PrefixTaken(t, q.key, q.prefix) {
          t := t.(counters := t.counters[q.key := Counter(q.prefix, q.width, 0)]);
        }
        pending := Some(t);
        if SelectCounter in faults { return Failure(AllocationConflict); }
        RefusalOf(t, q);
        if q.key !in t.counters { return Failure(InvalidAllocationPolicy); }
        var row := t.counters[q.key];
        if row.prefix != q.prefix || row.width != q.width { return Failure(InvalidAllocationPolicy); }
        if row.last >= Maximum(q.width) { return Failure(SequenceOverflow); }
        RowsFit(old(tables), q, machine);
        SteppedIs(t, q, machine);
        if UpdateCounter in faults { return Failure(AllocationConflict); }
        t := t.(counters := t.counters[q.key := Counter(row.prefix, row.width, row.last + 1)]);
        pending := Some(t);
        if InsertBinding in faults || !BindingFits(t, Slot(q.key, row.last + 1), Binding(machine, q.prefix, q.width)) {
          return Failure(AllocationConflict);
        }
        t := t.(bindings := t.bindings[Slot(q.key, row.last + 1) := Binding(machine, q.prefix, q.width)]);
        PendingGrown(tables, t);
        pending := Some(t);
        r := End(row.last + 1, faults, applied);
      }
    }

    /** COMMIT, and the number to return. */
    method End(n: nat, faults: set<Statement>, applied: bool) returns (r: Result<nat, Error>)
      requires pending.Some?
      modifies this
      ensures r.Success? <==> Commit !in faults
      ensures r.Failure? ==> r.error == AllocationConflict
      ensures r.Success? ==> r.value == n && tables == old(pending).value && pending.None?
      ensures r.Failure? ==>
                if applied then tables == old(pending).value && pending.None?
                else tables == old(tables) && pending == old(pending)
    {
      if Commit !in faults || applied {
        tables, pending := pending.value, None;
      }
      r := if Commit in faults then Failure(AllocationConflict) else Success(n);
    }

    /** Reserving: an autocommitted statement, or one more in the transaction that was left open. */
    method Reserve(reference: string, namespace: string, machineId: string, fault: bool, applied: bool)
      returns (r: Result<bool, Error>)
      requires Valid()
      modifies this
      ensures Valid() && Grown(old(tables), tables) && (pending.Some? <==> old(pending).Some?)
      ensures pending.Some? ==> tables == old(tables)
      ensures MachineIdToBytes(machineId).None? ==> r == Failure(InvalidMid) && Current() == old(Current())
      ensures MachineIdToBytes(machineId).Some? ==>
                var (result, after) :=
                  Reservation(old(Current()), reference, Mapping(MachineIdToBytes(machineId).value, namespace));
                (!fault ==> (r, Current()) == (result, after))
                && (fault ==> r == Failure(AllocationConflict) && Current() == if applied then after else old(Current()))
    {
      hide *;
      ValidIs();
      GrownReflexive(tables);
      var bytes := MachineIdToBytes(machineId);
      if bytes.None? { return Failure(InvalidMid); }
      var row := Mapping(bytes.value, namespace);
      var t := Current();
      ReservationKeeps(t, reference, row);
      ReservationIs(t, reference, row);
      if pending.Some? { PendingReservation(tables, t, reference, row); }
      if fault && !applied { return Failure(AllocationConflict); }
      var inserted := false;
      if !ReferenceRowOk(reference, row) { return Failure(AllocationConflict); }
      if reference !in t.references {
        t := t.(references := t.references[reference := row]);
        inserted := true;
        if pending.Some? { pending := Some(t); } else { tables := t; }
      }
      ValidIs();
      r := if fault then Failure(AllocationConflict) else Success(inserted);
    }

    /** The two queries of the lookup, on what the connection reads. */
    method Resolve(reference: string, namespace: string) returns (found: Option<Mapping>)
      requires Valid()
      ensures found == Lookup(Current(), reference, namespace)
    {
      hide *;
      ValidIs();
      var t := Current();
      LookupIs(t, reference, namespace);
      if reference in t.references && t.references[reference].namespace == namespace {
        return Some(t.references[reference]);
      }
      var parts := ParseSequentialParts(reference);
      if parts.None? { return None; }
      if slot :| slot in t.bindings && slot.key.namespace == namespace && t.bindings[slot].prefix == parts.value.prefix
                 && slot.key.scope == parts.value.scope && slot.sequence == parts.value.sequence {
        SlotIs(slot);
        return Some(Mapping(t.bindings[slot].machine, slot.key.namespace));
      }
      SlotIs(Slot(Key(namespace, parts.value.scope), parts.value.sequence));
      found := None;
    }
  }

  lemma SlotIs(s: Slot)
    ensures s == Slot(Key(s.key.namespace, s.key.scope), s.sequence)
  {
  }

  lemma LookupIs(t: Tables, reference: string, namespace: string)
    ensures reference in t.references && t.references[reference].namespace == namespace ==>
              Lookup(t, reference, namespace) == Some(t.references[reference])
    ensures !(reference in t.references && t.references[reference].namespace == namespace) ==>
              match ParseSequentialParts(reference)
              case None => Lookup(t, reference, namespace) == None
              case Some(parts) =>
                var slot := Slot(Key(namespace, parts.scope), parts.sequence);
                if slot in t.bindings && t.bindings[slot].prefix == parts.prefix
                then Lookup(t, reference, namespace) == Some(Mapping(t.bindings[slot].machine, namespace))
                else Lookup(t, reference, namespace) == None
  {
    hide ParseSequentialParts;
  }

  lemma ReservationIs(t: Tables, reference: string, m: Mapping)
    ensures Reservation(t, reference, m)
            == (if !ReferenceRowOk(reference, m) then (Failure(AllocationConflict), t)
                else if reference in t.references then (Success(false), t)
                else (Success(true), t.(references := t.references[reference := m])))
  {
    hide ReferenceRowOk;
  }

  lemma WidthRefused(t: Tables, q: Request)
    requires q.width < 4 || q.width > 18
    ensures Allocation(t, q) == (Failure(InvalidAllocationPolicy), t)
  {
  }

  lemma ExecutedAlways(t: Tables, q: Request)
    ensures {BeginImmediate, SelectBinding, Commit} <= Executed(t, q) && Rollback !in Executed(t, q)
  {
    hide MachineIdToBytes, Replay;
  }

  lemma MidRefused(t: Tables, q: Request)
    requires 4 <= q.width <= 18 && MachineIdToBytes(q.machineId).None?
    ensures Allocation(t, q) == (Failure(InvalidMid), t)
  {
  }

  lemma ReplayAllocation(t: Tables, q: Request, machine: Bytes, slot: Slot)
    requires Inv(t) && 4 <= q.width <= 18 && MachineIdToBytes(q.machineId) == Some(machine)
    requires slot in t.bindings && slot.key == q.key && t.bindings[slot].machine == machine
    ensures Executed(t, q) == {BeginImmediate, SelectBinding, Commit}
    ensures Allocation(t, q)
            == (if t.bindings[slot].prefix == q.prefix && t.bindings[slot].width == q.width then Success(slot.sequence)
                else Failure(InvalidAllocationPolicy), t)
  {
    hide MachineIdToBytes, Replay, CountersOk, PrefixesUnique, BindingsOk, MachinesUnique, Refusal, Advanced, WithCounter, CounterRowOk;
    SlotIs(slot);
    ReplayIs(t, q.key, machine, slot.sequence);
  }

  lemma NoReplay(t: Tables, q: Request, machine: Bytes)
    requires 4 <= q.width <= 18 && MachineIdToBytes(q.machineId) == Some(machine)
    requires forall slot :: slot in t.bindings && slot.key == q.key ==> t.bindings[slot].machine != machine
    ensures Replay(t, q.key, machine).None?
    ensures Executed(t, q) == {BeginImmediate, SelectBinding, InsertCounter, SelectCounter, UpdateCounter, InsertBinding, Commit}
    ensures !CounterRowOk(q.key, q.prefix, q.width) ==> Allocation(t, q) == (Failure(AllocationConflict), t)
    ensures CounterRowOk(q.key, q.prefix, q.width) ==>
              Allocation(t, q)
              == match Refusal(WithCounter(t, q), q)
                 case Some(e) => (Failure(e), t)
                 case None => (Success(Last(t, q.key) + 1), Advanced(t, q, machine))
  {
    hide MachineIdToBytes, Refusal, Advanced, WithCounter, CounterRowOk, Replay;
    assert forall k: nat :: Bound(t, q.key, k, machine) ==> Slot(q.key, k) in t.bindings;
  }

  lemma CounterInserted(t: Tables, q: Request)
    requires q.width >= 0
    ensures WithCounter(t, q)
            == if q.key !in t.counters && !PrefixTaken(t, q.key, q.prefix)
               then t.(counters := t.counters[q.key := Counter(q.prefix, q.width, 0)]) else t
  {
    hide PrefixTaken;
  }

  lemma RefusalOf(t: Tables, q: Request)
    requires 4 <= q.width <= 18
    ensures q.key !in t.counters ==> Refusal(t, q) == Some(InvalidAllocationPolicy)
    ensures q.key in t.counters ==>
              var row := t.counters[q.key];
              Refusal(t, q)
              == if row.prefix != q.prefix || row.width != q.width then Some(InvalidAllocationPolicy)
                 else if row.last >= Maximum(q.width) then Some(SequenceOverflow) else None
  {
    hide Maximum;
  }

  /** Updating the counter and inserting the binding, as the two statements write them. */
  lemma RowsFit(t: Tables, q: Request, machine: Bytes)
    requires Inv(t) && 4 <= q.width <= 18 && CounterRowOk(q.key, q.prefix, q.width) && Replay(t, q.key, machine).None?
    requires Refusal(WithCounter(t, q), q).None?
    ensures q.key in WithCounter(t, q).counters
    ensures var t1 := WithCounter(t, q);
            var row := t1.counters[q.key];
            var t2 := t1.(counters := t1.counters[q.key := Counter(row.prefix, row.width, row.last + 1)]);
            row.last == Last(t, q.key)
            && BindingFits(t2, Slot(q.key, row.last + 1), Binding(machine, q.prefix, q.width))
            && Advanced(t, q, machine)
               == t2.(bindings := t2.bindings[Slot(q.key, row.last + 1) := Binding(machine, q.prefix, q.width)])
  {
    hide *;
    var t1 := WithCounter(t, q);
    FreshPrefix(t, q);
    NoRefusal(t1, q);
    ReplayWithCounter(t, q, machine);
    BindingAlwaysFits(t1, q, machine);
    AdvancedUnfold(t, q, machine);
    SteppedIs(t1, q, machine);
  }

  lemma SteppedIs(t: Tables, q: Request, machine: Bytes)
    requires q.key in t.counters && q.width >= 0
    ensures var row := t.counters[q.key];
            var t2 := t.(counters := t.counters[q.key := Counter(row.prefix, row.width, row.last + 1)]);
            Last(t, q.key) == row.last && WithLast(t, q.key, row.last + 1) == t2
            && Stepped(t, q, machine)
               == t2.(bindings := t2.bindings[Slot(q.key, row.last + 1) := Binding(machine, q.prefix, q.width)])
  {
  }
}
