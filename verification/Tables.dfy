/** The three storage tables, the keys they enforce, and allocation as one atomic step on them. */
module Tables {
  import opened Wrappers
  import opened Errors
  import opened Positional
  import opened Registry
  import opened Formatting
  import opened StorageText

  type Bytes = seq<nat>

  datatype Key = Key(namespace: string, scope: string)
  datatype Counter = Counter(prefix: string, width: nat, last: nat)
  datatype Slot = Slot(key: Key, sequence: nat)
  datatype Binding = Binding(machine: Bytes, prefix: string, width: nat)
  datatype Mapping = Mapping(machine: Bytes, namespace: string)

  datatype Tables = Tables(
    references: map<string, Mapping>, counters: map<Key, Counter>, bindings: map<Slot, Binding>)

  datatype Request = Request(machineId: string, key: Key, prefix: string, width: int)

  function Empty(): Tables { Tables(map[], map[], map[]) }

  function Maximum(width: nat): int
  {
    Pow(10, width) - 1
  }

  lemma MaximumPositive(width: nat)
    requires width > 0
    ensures Maximum(width) > 0
  {
    PowPositive(10, width - 1);
    assert Pow(10, width) == 10 * Pow(10, width - 1);
  }

  // ----- the schema

  /** The CHECK constraints on a counter row. */
  predicate CounterRowOk(key: Key, prefix: string, width: int)
  {
    (key.scope == [] || FourDigits(key.scope)) && ReferencePrefixValid(prefix) && 4 <= width <= 18
  }

  predicate SamePolicy(prefix: string, width: nat, q: Request)
  {
    prefix == q.prefix && width == q.width
  }

  /** A counter row of another key holds the pair of reference prefix and scope. */
  predicate PrefixTaken(t: Tables, key: Key, prefix: string)
  {
    exists k :: k in t.counters && k.scope == key.scope && t.counters[k].prefix == prefix && k != key
  }

  /** The two unique keys of the binding table beside its primary key. */
  predicate BindingClash(t: Tables, slot: Slot, b: Binding)
  {
    exists s :: s in t.bindings
      && ((s.key.scope == slot.key.scope && s.sequence == slot.sequence && t.bindings[s].prefix == b.prefix)
          || (s.key == slot.key && t.bindings[s].machine == b.machine))
  }

  /** The binding table takes the row: no key violated, and the counter row exists. */
  predicate BindingFits(t: Tables, slot: Slot, b: Binding)
  {
    slot !in t.bindings && !BindingClash(t, slot, b) && slot.key in t.counters
  }

  function Last(t: Tables, key: Key): nat
  {
    if key in t.counters then t.counters[key].last else 0
  }

  ghost predicate Bound(t: Tables, key: Key, n: nat, machine: Bytes)
  {
    Slot(key, n) in t.bindings && t.bindings[Slot(key, n)].machine == machine
  }

  // ----- the invariant

  ghost predicate CountersOk(t: Tables)
  {
    forall k :: k in t.counters ==>
      CounterRowOk(k, t.counters[k].prefix, t.counters[k].width) && t.counters[k].last <= Maximum(t.counters[k].width)
  }

  ghost predicate PrefixesUnique(t: Tables)
  {
    forall j, k :: j in t.counters && k in t.counters && j != k && j.scope == k.scope ==>
      t.counters[j].prefix != t.counters[k].prefix
  }

  ghost predicate BindingsOk(t: Tables)
  {
    forall s :: s in t.bindings ==>
      s.key in t.counters && 1 <= s.sequence <= t.counters[s.key].last
      && t.bindings[s].prefix == t.counters[s.key].prefix && t.bindings[s].width == t.counters[s.key].width
  }

  ghost predicate MachinesUnique(t: Tables)
  {
    forall r, s :: r in t.bindings && s in t.bindings && r != s && r.key == s.key ==>
      t.bindings[r].machine != t.bindings[s].machine
  }

  ghost predicate Inv(t: Tables)
  {
    CountersOk(t) && PrefixesUnique(t) && BindingsOk(t) && MachinesUnique(t)
  }

  /** `b` grew out of `a`: nothing was lost or changed, and each counter advanced by exactly the
      numbers that were newly bound. */
  ghost predicate Grown(a: Tables, b: Tables)
  {
    ReferencesKept(a, b) && CountersKept(a, b) && BindingsKept(a, b) && Conserved(a, b)
  }

  ghost predicate ReferencesKept(a: Tables, b: Tables)
  {
    forall r :: r in a.references ==> r in b.references && b.references[r] == a.references[r]
  }

  ghost predicate CountersKept(a: Tables, b: Tables)
  {
    forall k :: k in a.counters ==>
      k in b.counters && b.counters[k].prefix == a.counters[k].prefix
      && b.counters[k].width == a.counters[k].width && a.counters[k].last <= b.counters[k].last
  }

  ghost predicate BindingsKept(a: Tables, b: Tables)
  {
    forall s :: s in a.bindings ==> s in b.bindings && b.bindings[s] == a.bindings[s]
  }

  ghost predicate Conserved(a: Tables, b: Tables)
  {
    forall s :: s in b.bindings <==> s in a.bindings || Last(a, s.key) < s.sequence <= Last(b, s.key)
  }

  lemma EmptyInv()
    ensures Inv(Empty())
  {
    NoRows(Empty());
    hide CountersOk, PrefixesUnique, BindingsOk, MachinesUnique;
  }

  lemma NoRows(t: Tables)
    requires t.counters == map[] && t.bindings == map[]
    ensures CountersOk(t) && PrefixesUnique(t) && BindingsOk(t) && MachinesUnique(t)
  {
    hide CounterRowOk, Maximum;
    assert t.counters.Keys == {} && t.bindings.Keys == {};
  }

  lemma GrownReflexive(a: Tables)
    ensures Grown(a, a)
  {
  }

  lemma GrownTransitive(a: Tables, b: Tables, c: Tables)
    requires Grown(a, b) && Grown(b, c)
    ensures Grown(a, c)
  {
    hide Last;
    forall k ensures Last(a, k) <= Last(b, k) <= Last(c, k) {
      LastKept(a, b, k);
      LastKept(b, c, k);
    }
  }

  lemma LastKept(a: Tables, b: Tables, k: Key)
    requires Grown(a, b)
    ensures Last(a, k) <= Last(b, k)
  {
    hide ReferencesKept, BindingsKept, Conserved;
  }

  // ----- what the invariant means for one key

  function Sequences(t: Tables, key: Key): set<nat>
  {
    set s | s in t.bindings && s.key == key :: s.sequence
  }

  function Machines(t: Tables, key: Key): set<Bytes>
  {
    set s | s in t.bindings && s.key == key :: t.bindings[s].machine
  }

  function Interval(a: nat, b: nat): (r: set<nat>)
    requires a <= b
    ensures |r| == b - a
    ensures forall n :: n in r <==> a < n <= b
    decreases b - a
  {
    if a == b then {} else Interval(a, b - 1) + {b}
  }

  /** Conservation: the counter of a key advanced by exactly the number of its new bindings. */
  lemma Conservation(a: Tables, b: Tables, key: Key)
    requires Inv(a) && Grown(a, b)
    ensures |Sequences(b, key)| - |Sequences(a, key)| == Last(b, key) - Last(a, key)
  {
    LastKept(a, b, key);
    SequencesGrown(a, b, key);
    SequencesBelow(a, key);
    var before, news := Sequences(a, key), Interval(Last(a, key), Last(b, key));
    assert before !! news;
    assert |before + news| == |before| + |news|;
  }

  lemma SequencesBelow(a: Tables, key: Key)
    requires Inv(a)
    ensures forall n :: n in Sequences(a, key) ==> n <= Last(a, key)
  {
    hide CountersOk, PrefixesUnique, MachinesUnique;
  }

  lemma SequencesGrown(a: Tables, b: Tables, key: Key)
    requires Grown(a, b) && Last(a, key) <= Last(b, key)
    ensures Sequences(b, key) == Sequences(a, key) + Interval(Last(a, key), Last(b, key))
  {
    hide Last, ReferencesKept, CountersKept;
    forall n: nat ensures n in Sequences(b, key) <==> n in Sequences(a, key) + Interval(Last(a, key), Last(b, key)) {
      InSequences(a, key, n);
      InSequences(b, key, n);
    }
  }

  lemma InSequences(t: Tables, key: Key, n: nat)
    ensures n in Sequences(t, key) <==> Slot(key, n) in t.bindings
  {
    if Slot(key, n) in t.bindings { assert Slot(key, n).sequence == n; }
  }

  ghost predicate Taken(t: Tables, key: Key, n: nat)
  {
    exists m :: Bound(t, key, n, m)
  }

  /** In tables grown from empty ones the bindings of a key are a bijection between MIDs and exactly
      the numbers from 1 to the counter, which fits the width. */
  lemma Bijection(t: Tables, key: Key)
    requires Inv(t) && Grown(Empty(), t)
    ensures forall n: nat :: Taken(t, key, n) <==> 1 <= n <= Last(t, key)
    ensures forall n: nat, k: nat, m :: Bound(t, key, n, m) && Bound(t, key, k, m) ==> n == k
    ensures |Machines(t, key)| == |Sequences(t, key)| == Last(t, key)
  {
    hide *;
    EmptyInv();
    Conservation(Empty(), t, key);
    EmptySequences(key);
    forall n: nat ensures Taken(t, key, n) <==> 1 <= n <= Last(t, key) {
      TakenFromEmpty(t, key, n);
    }
    forall n: nat, k: nat, m | Bound(t, key, n, m) && Bound(t, key, k, m) ensures n == k {
      OneNumber(t, key, n, k, m);
    }
    SequencesBound(t, key);
    OneEach(t, key, Sequences(t, key));
    MachinesAll(t, key);
  }

  lemma EmptySequences(key: Key)
    ensures Sequences(Empty(), key) == {} && Last(Empty(), key) == 0
  {
  }

  lemma TakenFromEmpty(t: Tables, key: Key, n: nat)
    requires Grown(Empty(), t)
    ensures Taken(t, key, n) <==> 1 <= n <= Last(t, key)
  {
    assert Slot(key, n) in t.bindings <==> Last(Empty(), key) < n <= Last(t, key);
    if Slot(key, n) in t.bindings { assert Bound(t, key, n, t.bindings[Slot(key, n)].machine); }
  }

  lemma OneNumber(t: Tables, key: Key, n: nat, k: nat, m: Bytes)
    requires Inv(t) && Bound(t, key, n, m) && Bound(t, key, k, m)
    ensures n == k
  {
    ReplayIs(t, key, m, n);
    ReplayIs(t, key, m, k);
  }

  lemma SequencesBound(t: Tables, key: Key)
    requires Inv(t)
    ensures MachinesUnique(t) && forall n :: n in Sequences(t, key) ==> Slot(key, n) in t.bindings
  {
    forall n | n in Sequences(t, key) ensures Slot(key, n) in t.bindings { InSequences(t, key, n); }
  }

  lemma LastFits(t: Tables, key: Key)
    requires Inv(t)
    ensures key in t.counters ==> Last(t, key) <= Maximum(t.counters[key].width)
  {
    hide Maximum, CounterRowOk;
  }

  function MachinesAt(t: Tables, key: Key, numbers: set<nat>): set<Bytes>
  {
    set n | n in numbers && Slot(key, n) in t.bindings :: t.bindings[Slot(key, n)].machine
  }

  lemma MachinesAll(t: Tables, key: Key)
    ensures MachinesAt(t, key, Sequences(t, key)) == Machines(t, key)
  {
    forall m | m in Machines(t, key) ensures m in MachinesAt(t, key, Sequences(t, key)) {
      var s :| s in t.bindings && s.key == key && t.bindings[s].machine == m;
      assert s == Slot(key, s.sequence);
      InSequences(t, key, s.sequence);
    }
  }

  lemma {:induction false} OneEach(t: Tables, key: Key, numbers: set<nat>)
    requires MachinesUnique(t) && forall n :: n in numbers ==> Slot(key, n) in t.bindings
    ensures |MachinesAt(t, key, numbers)| == |numbers|
    decreases |numbers|
  {
    if numbers == {} {
      assert MachinesAt(t, key, numbers) == {};
    } else {
      var n :| n in numbers;
      var rest := numbers - {n};
      OneEach(t, key, rest);
      var m := t.bindings[Slot(key, n)].machine;
      assert m !in MachinesAt(t, key, rest);
      assert MachinesAt(t, key, numbers) == MachinesAt(t, key, rest) + {m};
    }
  }

  // ----- the statements

  /** SELECT … WHERE namespace, scope and machine: at most one row by the third key. */
  ghost function Replay(t: Tables, key: Key, machine: Bytes): (n: Option<nat>)
    ensures n.Some? ==> Bound(t, key, n.value, machine)
    ensures n.None? ==> forall k: nat :: !Bound(t, key, k, machine)
  {
    if exists k: nat :: Bound(t, key, k, machine) then
      var k: nat :| Bound(t, key, k, machine);
      Some(k)
    else None
  }

  lemma ReplayIs(t: Tables, key: Key, machine: Bytes, n: nat)
    requires MachinesUnique(t) && Bound(t, key, n, machine)
    ensures Replay(t, key, machine) == Some(n)
  {
    var k := Replay(t, key, machine).value;
    assert Slot(key, k) == Slot(key, n);
  }

  /** INSERT … ON CONFLICT DO NOTHING of a fresh counter: skipped when either unique key is held. */
  function WithCounter(t: Tables, q: Request): Tables
    requires q.width >= 0
  {
    if q.key in t.counters || PrefixTaken(t, q.key, q.prefix) then t
    else t.(counters := t.counters[q.key := Counter(q.prefix, q.width, 0)])
  }

  /** UPDATE … SET last_value. */
  function WithLast(t: Tables, key: Key, n: nat): Tables
    requires key in t.counters
  {
    t.(counters := t.counters[key := t.counters[key].(last := n)])
  }

  function WithBinding(t: Tables, slot: Slot, b: Binding): Tables
  {
    t.(bindings := t.bindings[slot := b])
  }

  // ----- allocation as one step

  /** What an undisturbed allocation returns, and the tables it leaves. */
  ghost function Allocation(t: Tables, q: Request): (Result<nat, Error>, Tables)
  {
    if !(4 <= q.width <= 18) then (Failure(InvalidAllocationPolicy), t)
    else match MachineIdToBytes(q.machineId)
      case None => (Failure(InvalidMid), t)
      case Some(machine) =>
        match Replay(t, q.key, machine)
        case Some(n) =>
          if SamePolicy(t.bindings[Slot(q.key, n)].prefix, t.bindings[Slot(q.key, n)].width, q) then (Success(n), t)
          else (Failure(InvalidAllocationPolicy), t)
        case None =>
          if !CounterRowOk(q.key, q.prefix, q.width) then (Failure(AllocationConflict), t)
          else match Refusal(WithCounter(t, q), q)
            case Some(e) => (Failure(e), t)
            case None => (Success(Last(t, q.key) + 1), Advanced(t, q, machine))
  }

  /** The checks on the counter row, once it was inserted or found. */
  function Refusal(t: Tables, q: Request): Option<Error>
  {
    if q.key !in t.counters then Some(InvalidAllocationPolicy)
    else
      var c := t.counters[q.key];
      if !SamePolicy(c.prefix, c.width, q) then Some(InvalidAllocationPolicy)
      else if c.last >= Maximum(c.width) then Some(SequenceOverflow)
      else None
  }

  /** A counter step and its matching binding. */
  function Advanced(t: Tables, q: Request, machine: Bytes): Tables
    requires q.width >= 0 && Refusal(WithCounter(t, q), q).None?
  {
    Stepped(WithCounter(t, q), q, machine)
  }

  /** When a new number is given: the key has this policy and room, or the key is new and no other
      namespace holds its prefix in this scope. */
  predicate HasRoom(t: Tables, q: Request)
  {
    if q.key in t.counters then
      SamePolicy(t.counters[q.key].prefix, t.counters[q.key].width, q) && t.counters[q.key].last < Maximum(t.counters[q.key].width)
    else !PrefixTaken(t, q.key, q.prefix)
  }

  lemma RoomIsNoRefusal(t: Tables, q: Request)
    requires CounterRowOk(q.key, q.prefix, q.width)
    ensures Refusal(WithCounter(t, q), q).None? <==> HasRoom(t, q)
  {
    MaximumPositive(q.width);
    hide Maximum, CounterRowOk;
  }

  /** Exactly when allocation succeeds. */
  lemma AllocationSucceeds(t: Tables, q: Request)
    requires Inv(t)
    ensures Allocation(t, q).0.Success?
            <==> 4 <= q.width <= 18 && MachineIdToBytes(q.machineId).Some?
                 && match Replay(t, q.key, MachineIdToBytes(q.machineId).value)
                    case Some(_) => SamePolicy(t.counters[q.key].prefix, t.counters[q.key].width, q)
                    case None => CounterRowOk(q.key, q.prefix, q.width) && HasRoom(t, q)
  {
    hide MachineIdToBytes, CounterRowOk, Refusal, WithCounter, HasRoom, CountersOk, PrefixesUnique, MachinesUnique, Advanced;
    if CounterRowOk(q.key, q.prefix, q.width) { RoomIsNoRefusal(t, q); }
  }

  /** The branch without a counter row after the insert is reached exactly when another namespace
      holds the prefix in this scope. */
  lemma NoCounterRow(t: Tables, q: Request)
    requires q.width >= 0
    ensures q.key !in WithCounter(t, q).counters <==> q.key !in t.counters && PrefixTaken(t, q.key, q.prefix)
  {
  }

  lemma FreshPrefix(t: Tables, q: Request)
    requires Inv(t) && CounterRowOk(q.key, q.prefix, q.width)
    ensures Inv(WithCounter(t, q)) && Grown(t, WithCounter(t, q)) && Last(WithCounter(t, q), q.key) == Last(t, q.key)
  {
    FreshCounters(t, q);
    FreshBindings(t, q);
    FreshGrown(t, q);
    hide CountersOk, PrefixesUnique, BindingsOk, MachinesUnique, ReferencesKept, CountersKept, BindingsKept, Conserved;
  }

  lemma FreshCounters(t: Tables, q: Request)
    requires CountersOk(t) && PrefixesUnique(t) && CounterRowOk(q.key, q.prefix, q.width)
    ensures CountersOk(WithCounter(t, q)) && PrefixesUnique(WithCounter(t, q))
  {
    MaximumPositive(q.width);
    hide Maximum, CounterRowOk;
  }

  lemma FreshBindings(t: Tables, q: Request)
    requires BindingsOk(t) && MachinesUnique(t) && q.width >= 0
    ensures BindingsOk(WithCounter(t, q)) && MachinesUnique(WithCounter(t, q))
  {
    hide PrefixTaken;
  }

  lemma FreshGrown(t: Tables, q: Request)
    requires q.width >= 0
    ensures Grown(t, WithCounter(t, q))
  {
    hide PrefixTaken;
    assert forall k :: Last(WithCounter(t, q), k) == Last(t, k);
  }

  lemma RoomAbove(t: Tables, q: Request)
    requires Inv(t) && q.key in t.counters
    ensures Slot(q.key, Last(t, q.key) + 1) !in t.bindings
  {
    hide CountersOk, PrefixesUnique, MachinesUnique;
  }

  /** The row an allocation inserts never violates a key of the binding table. */
  lemma BindingAlwaysFits(t: Tables, q: Request, machine: Bytes)
    requires Inv(t) && q.key in t.counters && SamePolicy(t.counters[q.key].prefix, t.counters[q.key].width, q)
    requires Replay(t, q.key, machine).None?
    ensures var n := Last(t, q.key) + 1;
            BindingFits(WithLast(t, q.key, n), Slot(q.key, n), Binding(machine, q.prefix, q.width))
  {
    hide Replay, CountersOk;
    var n := Last(t, q.key) + 1;
    RoomAbove(t, q);
    forall s | s in t.bindings
      ensures !(s.key.scope == q.key.scope && s.sequence == n && t.bindings[s].prefix == q.prefix)
      ensures !(s.key == q.key && t.bindings[s].machine == machine)
    {
      assert s == Slot(s.key, s.sequence);
      if s.key == q.key {
        assert s.sequence <= Last(t, q.key);
        assert !Bound(t, q.key, s.sequence, machine);
      }
    }
  }

  function Stepped(t: Tables, q: Request, machine: Bytes): Tables
    requires q.key in t.counters && q.width >= 0
  {
    var n := Last(t, q.key) + 1;
    WithBinding(WithLast(t, q.key, n), Slot(q.key, n), Binding(machine, q.prefix, q.width))
  }

  lemma BoundAdvance(t: Tables, q: Request, machine: Bytes)
    requires Inv(t) && q.key in t.counters && SamePolicy(t.counters[q.key].prefix, t.counters[q.key].width, q)
    requires t.counters[q.key].last < Maximum(t.counters[q.key].width) && Replay(t, q.key, machine).None?
    ensures Inv(Stepped(t, q, machine)) && Grown(t, Stepped(t, q, machine))
    ensures Stepped(t, q, machine) != t
  {
    RoomAbove(t, q);
    SteppedCounters(t, q, machine);
    SteppedBindings(t, q, machine);
    SteppedMachines(t, q, machine);
    SteppedGrown(t, q, machine);
    assert Slot(q.key, Last(t, q.key) + 1) in Stepped(t, q, machine).bindings;
    hide CountersOk, PrefixesUnique, BindingsOk, MachinesUnique, ReferencesKept, CountersKept, BindingsKept, Conserved, Stepped;
  }

  lemma SteppedCounters(t: Tables, q: Request, machine: Bytes)
    requires CountersOk(t) && PrefixesUnique(t) && q.key in t.counters
    requires SamePolicy(t.counters[q.key].prefix, t.counters[q.key].width, q)
    requires t.counters[q.key].last < Maximum(t.counters[q.key].width)
    ensures CountersOk(Stepped(t, q, machine)) && PrefixesUnique(Stepped(t, q, machine))
  {
    hide Maximum, CounterRowOk;
  }

  lemma LastCounters(t: Tables, q: Request)
    requires CountersOk(t) && PrefixesUnique(t) && q.key in t.counters
    requires t.counters[q.key].last < Maximum(t.counters[q.key].width)
    ensures CountersOk(WithLast(t, q.key, Last(t, q.key) + 1)) && PrefixesUnique(WithLast(t, q.key, Last(t, q.key) + 1))
  {
    hide Maximum, CounterRowOk;
  }

  lemma LastBindings(t: Tables, q: Request)
    requires BindingsOk(t) && MachinesUnique(t) && q.key in t.counters
    ensures BindingsOk(WithLast(t, q.key, Last(t, q.key) + 1)) && MachinesUnique(WithLast(t, q.key, Last(t, q.key) + 1))
  {
  }

  lemma SteppedBindings(t: Tables, q: Request, machine: Bytes)
    requires BindingsOk(t) && q.key in t.counters
    requires SamePolicy(t.counters[q.key].prefix, t.counters[q.key].width, q)
    ensures BindingsOk(Stepped(t, q, machine))
  {
  }

  lemma SteppedMachines(t: Tables, q: Request, machine: Bytes)
    requires MachinesUnique(t) && q.key in t.counters && q.width >= 0
    requires Replay(t, q.key, machine).None? && Slot(q.key, Last(t, q.key) + 1) !in t.bindings
    ensures MachinesUnique(Stepped(t, q, machine))
  {
    hide Replay, Last;
    forall s | s in t.bindings && s.key == q.key ensures t.bindings[s].machine != machine {
      assert s == Slot(q.key, s.sequence) && !Bound(t, q.key, s.sequence, machine);
    }
  }

  lemma SteppedGrown(t: Tables, q: Request, machine: Bytes)
    requires q.key in t.counters && q.width >= 0 && Slot(q.key, Last(t, q.key) + 1) !in t.bindings
    ensures Grown(t, Stepped(t, q, machine))
  {
    var after, n := Stepped(t, q, machine), Last(t, q.key) + 1;
    forall k ensures Last(after, k) == if k == q.key then n else Last(t, k) {}
    hide Last;
  }

  /** The number is bound to the MID of the request. */
  ghost predicate BoundTo(t: Tables, q: Request, n: nat)
  {
    MachineIdToBytes(q.machineId).Some? && Bound(t, q.key, n, MachineIdToBytes(q.machineId).value)
  }

  /** Every allocation keeps the invariant; it changes nothing, or advances one counter by one and
      binds that number to the MID. */
  lemma AllocationKeeps(t: Tables, q: Request)
    requires Inv(t)
    ensures var (result, after) := Allocation(t, q);
            Inv(after) && Grown(t, after)
            && (result.Failure? ==> after == t)
            && (result.Success? ==> BoundTo(after, q, result.value))
  {
    hide *;
    GrownReflexive(t);
    var (result, after) := Allocation(t, q);
    if AllocationPlain(t, q) {
      PlainAllocation(t, q);
    } else {
      FreshAllocation(t, q);
    }
  }

  /** Allocations that leave the tables as they are. */
  ghost predicate AllocationPlain(t: Tables, q: Request)
  {
    Allocation(t, q).1 == t
  }

  lemma PlainAllocation(t: Tables, q: Request)
    requires AllocationPlain(t, q) && Inv(t)
    ensures Allocation(t, q).1 == t
    ensures Allocation(t, q).0.Success? ==> BoundTo(t, q, Allocation(t, q).0.value)
  {
    hide MachineIdToBytes, CounterRowOk, Advanced, Refusal, WithCounter;
    if Allocation(t, q).0.Success? {
      var machine := MachineIdToBytes(q.machineId).value;
      if Replay(t, q.key, machine).None? {
        AdvancedDiffers(t, q, machine);
      }
    }
  }

  lemma AdvancedDiffers(t: Tables, q: Request, machine: Bytes)
    requires Inv(t) && q.width >= 0 && Refusal(WithCounter(t, q), q).None?
    ensures Advanced(t, q, machine) != t
  {
    hide CountersOk, PrefixesUnique, MachinesUnique;
    assert Slot(q.key, Last(t, q.key) + 1) in Advanced(t, q, machine).bindings;
  }

  lemma FreshAllocation(t: Tables, q: Request)
    requires Inv(t) && !AllocationPlain(t, q)
    ensures var (result, after) := Allocation(t, q);
            result.Success? && Inv(after) && Grown(t, after)
            && BoundTo(after, q, result.value)
  {
    hide *;
    var machine := FreshSteps(t, q);
    var t1 := WithCounter(t, q);
    FreshPrefix(t, q);
    NoRefusal(t1, q);
    ReplayWithCounter(t, q, machine);
    BoundAdvance(t1, q, machine);
    AdvancedUnfold(t, q, machine);
    MakeBoundTo(Advanced(t, q, machine), q, Last(t, q.key) + 1, machine);
    GrownTransitive(t, t1, Stepped(t1, q, machine));
  }

  lemma MakeBoundTo(t: Tables, q: Request, n: nat, machine: Bytes)
    requires MachineIdToBytes(q.machineId) == Some(machine) && Bound(t, q.key, n, machine)
    ensures BoundTo(t, q, n)
  {
  }

  lemma FreshSteps(t: Tables, q: Request) returns (machine: Bytes)
    requires !AllocationPlain(t, q)
    ensures 4 <= q.width <= 18 && MachineIdToBytes(q.machineId) == Some(machine) && Replay(t, q.key, machine).None?
    ensures CounterRowOk(q.key, q.prefix, q.width) && Refusal(WithCounter(t, q), q).None?
    ensures Allocation(t, q) == (Success(Last(t, q.key) + 1), Advanced(t, q, machine))
  {
    hide MachineIdToBytes, CounterRowOk, Refusal, WithCounter, Replay, Advanced, SamePolicy;
    machine := MachineIdToBytes(q.machineId).value;
  }

  lemma NoRefusal(t: Tables, q: Request)
    requires Refusal(t, q).None?
    ensures q.key in t.counters && SamePolicy(t.counters[q.key].prefix, t.counters[q.key].width, q)
    ensures t.counters[q.key].last < Maximum(t.counters[q.key].width)
  {
  }

  lemma ReplayWithCounter(t: Tables, q: Request, machine: Bytes)
    requires q.width >= 0
    ensures Replay(WithCounter(t, q), q.key, machine).None? <==> Replay(t, q.key, machine).None?
  {
    hide Replay;
    assert forall k: nat :: Bound(WithCounter(t, q), q.key, k, machine) <==> Bound(t, q.key, k, machine);
  }

  lemma AdvancedUnfold(t: Tables, q: Request, machine: Bytes)
    requires q.width >= 0 && Refusal(WithCounter(t, q), q).None?
    ensures q.key in WithCounter(t, q).counters && Advanced(t, q, machine) == Stepped(WithCounter(t, q), q, machine)
    ensures Bound(Advanced(t, q, machine), q.key, Last(t, q.key) + 1, machine)
    ensures Advanced(t, q, machine).bindings[Slot(q.key, Last(t, q.key) + 1)] == Binding(machine, q.prefix, q.width)
  {
  }

  /** Once a number is bound to a MID, every later allocation with that key and MID returns it and
      changes nothing, or is refused for another prefix or width and changes nothing. */
  lemma ReplayForever(a: Tables, b: Tables, q: Request, n: nat)
    requires Inv(a) && Inv(b) && Grown(a, b) && 4 <= q.width <= 18 && MachineIdToBytes(q.machineId).Some?
    requires Bound(a, q.key, n, MachineIdToBytes(q.machineId).value)
    ensures q.key in a.counters
    ensures Allocation(b, q)
            == (if SamePolicy(a.counters[q.key].prefix, a.counters[q.key].width, q) then Success(n)
                else Failure(InvalidAllocationPolicy), b)
  {
    var machine := MachineIdToBytes(q.machineId).value;
    hide *;
    BoundLater(a, b, q.key, n, machine);
    MachinesOf(b);
    ReplayIs(b, q.key, machine, n);
    ReplayedAllocation(b, q, n, machine);
  }

  lemma MachinesOf(t: Tables)
    requires Inv(t)
    ensures MachinesUnique(t)
  {
    hide CountersOk, PrefixesUnique, BindingsOk, MachinesUnique;
  }

  lemma BoundLater(a: Tables, b: Tables, key: Key, n: nat, machine: Bytes)
    requires Inv(a) && Grown(a, b) && Bound(a, key, n, machine)
    ensures Bound(b, key, n, machine) && b.bindings[Slot(key, n)] == a.bindings[Slot(key, n)] && key in a.counters
    ensures a.bindings[Slot(key, n)].prefix == a.counters[key].prefix && a.bindings[Slot(key, n)].width == a.counters[key].width
  {
    hide CountersOk, PrefixesUnique, MachinesUnique, ReferencesKept, CountersKept, Conserved;
  }

  lemma ReplayedAllocation(t: Tables, q: Request, n: nat, machine: Bytes)
    requires 4 <= q.width <= 18 && MachineIdToBytes(q.machineId) == Some(machine)
    requires Bound(t, q.key, n, machine) && Replay(t, q.key, machine) == Some(n)
    ensures Allocation(t, q)
            == (if SamePolicy(t.bindings[Slot(q.key, n)].prefix, t.bindings[Slot(q.key, n)].width, q) then Success(n)
                else Failure(InvalidAllocationPolicy), t)
  {
    hide MachineIdToBytes, CounterRowOk, Refusal, WithCounter, Advanced, SamePolicy, Replay;
  }

  /** An allocation touches the counter and the bindings of its own key only. */
  lemma AllocationFrame(t: Tables, q: Request, key: Key)
    requires key != q.key
    ensures var after := Allocation(t, q).1;
            after.references == t.references
            && (key in after.counters <==> key in t.counters)
            && (key in t.counters ==> after.counters[key] == t.counters[key])
            && forall n: nat, m :: Bound(after, key, n, m) <==> Bound(t, key, n, m)
  {
    hide Replay, Maximum, CounterRowOk, MachineIdToBytes, PrefixTaken;
  }

  // ----- random references

  predicate ReferenceRowOk(reference: string, m: Mapping)
  {
    4 <= |reference| <= 100 && 1 <= |m.namespace| <= 63 && 'a' <= m.namespace[0] <= 'z' && |m.machine| == 16
  }

  /** INSERT … ON CONFLICT DO NOTHING; the answer says whether a row was inserted. */
  function Reservation(t: Tables, reference: string, m: Mapping): (Result<bool, Error>, Tables)
  {
    if !ReferenceRowOk(reference, m) then (Failure(AllocationConflict), t)
    else if reference in t.references then (Success(false), t)
    else (Success(true), t.(references := t.references[reference := m]))
  }

  lemma ReservationKeeps(t: Tables, reference: string, m: Mapping)
    requires Inv(t)
    ensures var (result, after) := Reservation(t, reference, m);
            Inv(after) && Grown(t, after) && after.counters == t.counters && after.bindings == t.bindings
            && (result == Success(true) <==> after != t)
            && (result == Success(true) ==> reference !in t.references && after.references == t.references[reference := m])
  {
    hide *;
    var after := Reservation(t, reference, m).1;
    ReservationShape(t, reference, m);
    SameCounters(t, after);
    SameBindings(t, after);
    SameGrown(t, after);
    KeepsInv(t, after);
  }

  lemma ReservationShape(t: Tables, reference: string, m: Mapping)
    ensures var (result, after) := Reservation(t, reference, m);
            after.counters == t.counters && after.bindings == t.bindings && ReferencesKept(t, after)
            && (result == Success(true) <==> after != t)
            && (result == Success(true) ==> reference !in t.references && after.references == t.references[reference := m])
  {
    hide ReferenceRowOk;
    if Reservation(t, reference, m).0 == Success(true) {
      assert reference in Reservation(t, reference, m).1.references;
    }
  }

  lemma KeepsInv(a: Tables, b: Tables)
    requires Inv(a)
    requires CountersOk(a) && PrefixesUnique(a) ==> CountersOk(b) && PrefixesUnique(b)
    requires BindingsOk(a) && MachinesUnique(a) ==> BindingsOk(b) && MachinesUnique(b)
    ensures Inv(b)
  {
    hide CountersOk, PrefixesUnique, BindingsOk, MachinesUnique;
  }

  lemma SameCounters(a: Tables, b: Tables)
    requires a.counters == b.counters
    ensures CountersOk(a) && PrefixesUnique(a) ==> CountersOk(b) && PrefixesUnique(b)
  {
    hide CounterRowOk, Maximum;
  }

  lemma SameBindings(a: Tables, b: Tables)
    requires a.counters == b.counters && a.bindings == b.bindings
    ensures BindingsOk(a) && MachinesUnique(a) ==> BindingsOk(b) && MachinesUnique(b)
  {
  }

  lemma SameGrown(a: Tables, b: Tables)
    requires a.counters == b.counters && a.bindings == b.bindings && ReferencesKept(a, b)
    ensures Grown(a, b)
  {
    assert forall k :: Last(a, k) == Last(b, k);
    hide Last, ReferencesKept;
  }

  /** The two-table lookup: a random reference first, then the number of a sequential one. */
  function Lookup(t: Tables, reference: string, namespace: string): Option<Mapping>
  {
    if reference in t.references && t.references[reference].namespace == namespace then Some(t.references[reference])
    else match ParseSequentialParts(reference)
      case None => None
      case Some(parts) =>
        var slot := Slot(Key(namespace, parts.scope), parts.sequence);
        if slot in t.bindings && t.bindings[slot].prefix == parts.prefix
        then Some(Mapping(t.bindings[slot].machine, namespace))
        else None
  }

  // ----- uncommitted tables

  /** The uncommitted tables of an open transaction: consistent, and without loss. */
  ghost predicate PendingOk(t: Tables, pending: Tables)
  {
    Inv(pending) && ReferencesKept(t, pending) && BindingsKept(t, pending)
  }

  lemma PendingGrown(t: Tables, pending: Tables)
    requires Inv(pending) && Grown(t, pending)
    ensures PendingOk(t, pending)
  {
    hide Inv, ReferencesKept, CountersKept, BindingsKept, Conserved;
  }

  lemma PendingSame(t: Tables)
    requires Inv(t)
    ensures PendingOk(t, t)
  {
    hide Inv;
  }

  /** Once the counter is inserted, and once it is updated. */
  lemma PendingCounter(t: Tables, q: Request)
    requires Inv(t) && q.width >= 0 && CounterRowOk(q.key, q.prefix, q.width)
    ensures PendingOk(t, WithCounter(t, q))
    ensures Refusal(WithCounter(t, q), q).None? ==>
              q.key in WithCounter(t, q).counters && PendingOk(t, WithLast(WithCounter(t, q), q.key, Last(t, q.key) + 1))
  {
    hide *;
    var t1 := WithCounter(t, q);
    FreshPrefix(t, q);
    PendingGrown(t, t1);
    if Refusal(t1, q).None? {
      NoRefusal(t1, q);
      InvSplit(t1);
      LastCounters(t1, q);
      LastBindings(t1, q);
      InvJoin(WithLast(t1, q.key, Last(t, q.key) + 1));
      LastKeeps(t, t1, q);
    }
  }

  lemma InvSplit(t: Tables)
    requires Inv(t)
    ensures CountersOk(t) && PrefixesUnique(t) && BindingsOk(t) && MachinesUnique(t)
  {
    hide CountersOk, PrefixesUnique, BindingsOk, MachinesUnique;
  }

  lemma InvJoin(t: Tables)
    requires CountersOk(t) && PrefixesUnique(t) && BindingsOk(t) && MachinesUnique(t)
    ensures Inv(t)
  {
    hide CountersOk, PrefixesUnique, BindingsOk, MachinesUnique;
  }

  lemma LastKeeps(t: Tables, t1: Tables, q: Request)
    requires PendingOk(t, t1) && q.key in t1.counters && Inv(WithLast(t1, q.key, Last(t, q.key) + 1))
    ensures PendingOk(t, WithLast(t1, q.key, Last(t, q.key) + 1))
  {
    hide Inv, Last;
  }

  /** A reservation among the uncommitted rows. */
  lemma PendingReservation(t: Tables, pending: Tables, reference: string, m: Mapping)
    requires PendingOk(t, pending)
    ensures PendingOk(t, Reservation(pending, reference, m).1)
  {
    hide *;
    PendingParts(t, pending);
    ReservationKeeps(pending, reference, m);
    var after := Reservation(pending, reference, m).1;
    PendingGrown(pending, after);
    PendingParts(pending, after);
    PendingTwice(t, pending, after);
  }

  lemma PendingParts(t: Tables, pending: Tables)
    requires PendingOk(t, pending)
    ensures Inv(pending) && ReferencesKept(t, pending) && BindingsKept(t, pending)
  {
    hide Inv, ReferencesKept, BindingsKept;
  }

  lemma PendingTwice(a: Tables, b: Tables, c: Tables)
    requires PendingOk(a, b) && PendingOk(b, c)
    ensures PendingOk(a, c)
  {
    hide Inv;
  }

  // ----- the keys of the binding table, one by one

  /** A binding goes in exactly when no row has its namespace, scope and number, none its prefix, scope and
      number, none its namespace, scope and MID, and the counter row it refers to exists. */
  lemma BindingFitsExactly(t: Tables, namespace: string, scope: string, n: nat, b: Binding)
    ensures BindingFits(t, Slot(Key(namespace, scope), n), b)
            <==> (forall s :: s in t.bindings ==> !(s.key.namespace == namespace && s.key.scope == scope && s.sequence == n))
                 && (forall s :: s in t.bindings ==> !(t.bindings[s].prefix == b.prefix && s.key.scope == scope && s.sequence == n))
                 && (forall s :: s in t.bindings ==> !(s.key.namespace == namespace && s.key.scope == scope
                                                       && t.bindings[s].machine == b.machine))
                 && (exists k :: k in t.counters && k.namespace == namespace && k.scope == scope)
  {
    forall s | s in t.bindings && s.key.namespace == namespace && s.key.scope == scope ensures s.key == Key(namespace, scope) {
    }
    if k :| k in t.counters && k.namespace == namespace && k.scope == scope { assert k == Key(namespace, scope); }
    if s :| s in t.bindings && s.key.namespace == namespace && s.key.scope == scope && s.sequence == n {
      assert s == Slot(Key(namespace, scope), n);
    }
  }
}
