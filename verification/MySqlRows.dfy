/** The rows of a MySQL allocation: what the upsert locks, what a transaction has written but not
    committed, and what becomes of the tables when it is committed, on purpose or by accident. */
module MySqlRows {
  import opened Wrappers
  import opened Alphabet
  import opened MachineId
  import opened StorageText
  import opened Tables

  /** A locked counter row: where it stood (nowhere, when the upsert inserted it) and its value. */
  datatype Held = Held(source: Option<Key>, row: Counter)

  /** How far a transaction has written: the upsert, the counter, the binding. */
  datatype Done = Upserted | Updated(n: nat) | Inserted(n: nat)

  /** The uncommitted rows of an open transaction. */
  datatype Open = Open(q: Request, held: Held, done: Done)

  /** The sixteen bytes of a MID in the 8-4-4-4-12 form, in either case. */
  function MachineOf(q: Request): Option<Bytes>
  {
    if Shaped(Lower(q.machineId)) then MachineIdToBytes(q.machineId) else None
  }

  ghost predicate HasBindings(t: Tables, key: Key)
  {
    exists s :: s in t.bindings && s.key == key
  }

  /** INSERT … ON DUPLICATE KEY UPDATE namespace = VALUES(namespace): the key's own row is locked;
      else the row another namespace holds with this prefix and scope is moved to this namespace,
      unless bindings refer to it; else a fresh row is inserted. */
  ghost function Upsert(t: Tables, q: Request): Option<Held>
  {
    if !CounterRowOk(q.key, q.prefix, q.width) then None
    else if q.key in t.counters then Some(Held(Some(q.key), t.counters[q.key]))
    else if k :| k in t.counters && k.scope == q.key.scope && t.counters[k].prefix == q.prefix && k != q.key then
      if HasBindings(t, k) then None else Some(Held(Some(k), t.counters[k]))
    else Some(Held(None, Counter(q.prefix, q.width, 0)))
  }

  function Keys(q: Request, h: Held): set<Key>
  {
    {q.key} + if h.source.Some? then {h.source.value} else {}
  }

  /** Two transactions lock different rows and different index entries. */
  predicate Apart(q: Request, h: Held, r: Request, g: Held)
  {
    Keys(q, h) !! Keys(r, g) && (q.key.scope == r.key.scope ==> h.row.prefix != g.row.prefix)
  }

  /** The tables with the locked row written back, its counter at `n`, and no binding yet. */
  function Recounted(t: Tables, q: Request, h: Held, n: nat): Tables
  {
    var counters := if h.source.Some? then t.counters - {h.source.value} else t.counters;
    t.(counters := counters[q.key := h.row.(last := n)])
  }

  /** The effect of a finished allocation. */
  function Committed(t: Tables, q: Request, h: Held, n: nat, machine: Bytes): Tables
    requires q.width >= 0
  {
    WithBinding(Recounted(t, q, h, n), Slot(q.key, n), Binding(machine, q.prefix, q.width))
  }

  /** What a commit makes of the rows written so far. */
  function Flushed(t: Tables, o: Open): Tables
  {
    match o.done
    case Upserted => Recounted(t, o.q, o.held, o.held.row.last)
    case Updated(n) => Recounted(t, o.q, o.held, n)
    case Inserted(n) =>
      if MachineOf(o.q).None? || o.q.width < 0 then t
      else Committed(t, o.q, o.held, n, MachineOf(o.q).value)
  }

  function Flush(t: Tables, open: Option<Open>): Tables
  {
    if open.None? then t else Flushed(t, open.value)
  }

  /** No unique key of the binding table refuses the row. */
  predicate InsertFits(t: Tables, q: Request, n: nat, machine: Bytes)
  {
    q.width >= 0 && Slot(q.key, n) !in t.bindings
    && !BindingClash(t, Slot(q.key, n), Binding(machine, q.prefix, q.width))
  }

  // ----- the rows relative to the committed tables

  /** A locked row is as the committed tables have it, and nothing else lays claim to its keys. */
  ghost predicate HeldOk(t: Tables, q: Request, h: Held)
  {
    match h.source
    case None =>
      q.key !in t.counters && !PrefixTaken(t, q.key, q.prefix) && 4 <= q.width <= 18 && CounterRowOk(q.key, q.prefix, q.width)
      && h.row == Counter(q.prefix, q.width, 0)
    case Some(k) =>
      k in t.counters && t.counters[k] == h.row && k.scope == q.key.scope
      && (k != q.key ==> q.key !in t.counters && h.row.prefix == q.prefix && !HasBindings(t, k))
  }

  ghost predicate Granted(h: Held, q: Request, n: nat)
  {
    SamePolicy(h.row.prefix, h.row.width, q) && h.row.last < Maximum(h.row.width) && n == h.row.last + 1
  }

  ghost predicate Settled(t: Tables, q: Request, n: nat)
  {
    MachineOf(q).Some? && Slot(q.key, n) in t.bindings
    && 4 <= q.width <= 18 && t.bindings[Slot(q.key, n)] == Binding(MachineOf(q).value, q.prefix, q.width)
  }

  /** Uncommitted rows fit the committed tables. */
  ghost predicate OpenOk(t: Tables, o: Open)
  {
    HeldOk(t, o.q, o.held) && 4 <= o.q.width <= 18 &&
    match o.done
    case Upserted => true
    case Updated(n) => Granted(o.held, o.q, n)
    case Inserted(n) => Granted(o.held, o.q, n) && Unbound(t, o.q)
  }

  ghost predicate Unbound(t: Tables, q: Request)
  {
    MachineOf(q).Some? && Replay(t, q.key, MachineOf(q).value).None?
  }

  /** Two open transactions lock different rows and different index entries. */
  predicate OpenApart(o: Open, p: Open)
  {
    Apart(o.q, o.held, p.q, p.held)
  }

  // ----- conservation, per reference prefix and scope

  ghost predicate Holds(t: Tables, k: Key, prefix: string, scope: string)
  {
    k in t.counters && k.scope == scope && t.counters[k].prefix == prefix
  }

  /** The counter of a reference prefix in a scope, whichever namespace it stands under. */
  ghost function PrefixLast(t: Tables, prefix: string, scope: string): nat
  {
    if k :| Holds(t, k, prefix, scope) then t.counters[k].last else 0
  }

  ghost predicate Numbered(t: Tables, prefix: string, scope: string, n: nat)
  {
    exists s :: s in t.bindings && s.key.scope == scope && s.sequence == n && t.bindings[s].prefix == prefix
  }

  /** Whatever happens: no row is lost, and new numbers lie between the old counter and the new one. */
  ghost predicate Ascended(a: Tables, b: Tables)
  {
    ReferencesKept(a, b) && BindingsKept(a, b) && forall p, scope :: Ascending(a, b, p, scope)
  }

  ghost predicate Ascending(a: Tables, b: Tables, p: string, scope: string)
  {
    PrefixLast(a, p, scope) <= PrefixLast(b, p, scope)
    && forall n: nat :: Numbered(b, p, scope, n) ==>
         Numbered(a, p, scope, n) || PrefixLast(a, p, scope) < n <= PrefixLast(b, p, scope)
  }

  /** Conservation for a prefix and scope: the counter advanced by exactly the numbers newly bound. */
  ghost predicate NumbersGrown(a: Tables, b: Tables, p: string, scope: string)
  {
    forall n: nat :: PrefixLast(a, p, scope) < n <= PrefixLast(b, p, scope) ==> Numbered(b, p, scope, n)
  }

  /** Nothing lost, and conservation for every prefix and scope, whichever namespace a counter stands
      under. */
  ghost predicate PrefixGrown(a: Tables, b: Tables)
  {
    Ascended(a, b) && forall p, scope :: NumbersGrown(a, b, p, scope)
  }

  lemma AscendedReflexive(a: Tables)
    ensures Ascended(a, a) && PrefixGrown(a, a)
  {
    hide PrefixLast, Numbered;
  }

  lemma AscendedTransitive(a: Tables, b: Tables, c: Tables)
    requires Ascended(a, b) && Ascended(b, c)
    ensures Ascended(a, c)
  {
    forall p, scope ensures Ascending(a, c, p, scope) {
      assert Ascending(a, b, p, scope) && Ascending(b, c, p, scope);
      hide PrefixLast, Numbered;
    }
    hide Ascending;
  }

  /** A number once passed over is never bound, so conservation over two stretches is conservation over
      each of them. */
  lemma NumbersSplit(a: Tables, b: Tables, c: Tables, p: string, scope: string)
    requires Ascended(a, b) && Ascended(b, c)
    ensures NumbersGrown(a, c, p, scope) <==> NumbersGrown(a, b, p, scope) && NumbersGrown(b, c, p, scope)
  {
    hide PrefixLast;
    assert Ascending(a, b, p, scope) && Ascending(b, c, p, scope);
    forall n: nat | Numbered(b, p, scope, n) ensures Numbered(c, p, scope, n) {
      NumberedKept(b, c, p, scope, n);
    }
    hide Numbered, ReferencesKept, BindingsKept;
  }

  lemma NumberedKept(a: Tables, b: Tables, p: string, scope: string, n: nat)
    requires BindingsKept(a, b) && Numbered(a, p, scope, n)
    ensures Numbered(b, p, scope, n)
  {
    var s :| s in a.bindings && s.key.scope == scope && s.sequence == n && a.bindings[s].prefix == p;
    assert s in b.bindings && b.bindings[s] == a.bindings[s];
  }

  lemma PrefixLastIs(t: Tables, k: Key, prefix: string, scope: string)
    requires PrefixesUnique(t) && Holds(t, k, prefix, scope)
    ensures PrefixLast(t, prefix, scope) == t.counters[k].last
  {
  }

  lemma PrefixLastNone(t: Tables, prefix: string, scope: string)
    requires forall k :: !Holds(t, k, prefix, scope)
    ensures PrefixLast(t, prefix, scope) == 0
  {
  }

  lemma InvUnique(t: Tables)
    requires Inv(t)
    ensures CountersOk(t) && PrefixesUnique(t) && BindingsOk(t) && MachinesUnique(t)
  {
    hide CountersOk, PrefixesUnique, BindingsOk, MachinesUnique;
  }

  // ----- writing the counter row

  lemma RecountCounters(t: Tables, q: Request, h: Held, n: nat)
    requires CountersOk(t) && PrefixesUnique(t) && HeldOk(t, q, h) && n <= Maximum(h.row.width)
    ensures CountersOk(Recounted(t, q, h, n)) && PrefixesUnique(Recounted(t, q, h, n))
  {
    hide Maximum, HasBindings;
    ScopeStays(t, q, h);
    hide CounterRowOk;
  }

  lemma ScopeStays(t: Tables, q: Request, h: Held)
    requires CountersOk(t) && HeldOk(t, q, h)
    ensures CounterRowOk(q.key, h.row.prefix, h.row.width)
  {
    hide Maximum, HasBindings;
  }

  lemma RecountBindings(t: Tables, q: Request, h: Held, n: nat)
    requires BindingsOk(t) && MachinesUnique(t) && HeldOk(t, q, h) && h.row.last <= n
    ensures BindingsOk(Recounted(t, q, h, n)) && MachinesUnique(Recounted(t, q, h, n))
    ensures BindingsKept(t, Recounted(t, q, h, n)) && ReferencesKept(t, Recounted(t, q, h, n))
  {
    hide Maximum, CounterRowOk, PrefixTaken;
  }

  lemma RecountInv(t: Tables, q: Request, h: Held, n: nat)
    requires Inv(t) && HeldOk(t, q, h) && h.row.last <= n <= Maximum(h.row.width)
    ensures Inv(Recounted(t, q, h, n))
    ensures BindingsKept(t, Recounted(t, q, h, n)) && ReferencesKept(t, Recounted(t, q, h, n))
  {
    RecountCounters(t, q, h, n);
    RecountBindings(t, q, h, n);
    hide CountersOk, PrefixesUnique, BindingsOk, MachinesUnique, HeldOk, Recounted, BindingsKept, ReferencesKept;
  }

  lemma RecountPrefixLast(t: Tables, q: Request, h: Held, n: nat, p: string, scope: string)
    requires PrefixesUnique(t) && HeldOk(t, q, h) && PrefixesUnique(Recounted(t, q, h, n))
    ensures var after := Recounted(t, q, h, n);
            if p == h.row.prefix && scope == q.key.scope
            then PrefixLast(after, p, scope) == n && PrefixLast(t, p, scope) == h.row.last
            else PrefixLast(after, p, scope) == PrefixLast(t, p, scope)
  {
    hide PrefixLast, Maximum, CounterRowOk, HasBindings;
    var after := Recounted(t, q, h, n);
    if p == h.row.prefix && scope == q.key.scope {
      assert Holds(after, q.key, p, scope);
      PrefixLastIs(after, q.key, p, scope);
      if h.source.Some? {
        assert Holds(t, h.source.value, p, scope);
        PrefixLastIs(t, h.source.value, p, scope);
      } else {
        assert forall k :: !Holds(t, k, p, scope);
        PrefixLastNone(t, p, scope);
      }
    } else {
      if k :| Holds(t, k, p, scope) {
        assert Holds(after, k, p, scope);
        PrefixLastIs(t, k, p, scope);
        PrefixLastIs(after, k, p, scope);
      } else {
        PrefixLastNone(t, p, scope);
        forall k ensures !Holds(after, k, p, scope) { assert !Holds(t, k, p, scope); }
        PrefixLastNone(after, p, scope);
      }
    }
  }

  lemma SameNumbered(a: Tables, b: Tables, p: string, scope: string, n: nat)
    requires a.bindings == b.bindings
    ensures Numbered(a, p, scope, n) <==> Numbered(b, p, scope, n)
  {
    if Numbered(a, p, scope, n) {
      var s :| s in a.bindings && s.key.scope == scope && s.sequence == n && a.bindings[s].prefix == p;
      assert s in b.bindings && b.bindings[s] == a.bindings[s];
    }
    if Numbered(b, p, scope, n) {
      var s :| s in b.bindings && s.key.scope == scope && s.sequence == n && b.bindings[s].prefix == p;
      assert s in a.bindings && a.bindings[s] == b.bindings[s];
    }
  }

  /** A number above the counter is not bound. */
  lemma NumberedBelow(t: Tables, prefix: string, scope: string, n: nat)
    requires Inv(t) && Numbered(t, prefix, scope, n)
    ensures 1 <= n <= PrefixLast(t, prefix, scope)
  {
    hide CountersOk, MachinesUnique, PrefixLast;
    var s :| s in t.bindings && s.key.scope == scope && s.sequence == n && t.bindings[s].prefix == prefix;
    assert Holds(t, s.key, prefix, scope);
    PrefixLastIs(t, s.key, prefix, scope);
  }

  /** A counter row written back without a binding: nothing is lost, and conservation holds exactly
      where the counter did not move. */
  lemma RecountGrows(t: Tables, q: Request, h: Held, n: nat, p: string, scope: string)
    requires Inv(t) && HeldOk(t, q, h) && h.row.last <= n <= Maximum(h.row.width)
    ensures var after := Recounted(t, q, h, n);
            Ascending(t, after, p, scope)
            && (NumbersGrown(t, after, p, scope) <==> p != h.row.prefix || scope != q.key.scope || n == h.row.last)
  {
    hide *;
    var after := Recounted(t, q, h, n);
    RecountInv(t, q, h, n);
    InvUnique(t);
    InvUnique(after);
    RecountPrefixLast(t, q, h, n, p, scope);
    RecountedBindings(t, q, h, n);
    forall k: nat ensures Numbered(after, p, scope, k) <==> Numbered(t, p, scope, k) {
      SameNumbered(t, after, p, scope, k);
    }
    AscendingIs(t, after, p, scope);
    if p == h.row.prefix && scope == q.key.scope && n > h.row.last {
      if Numbered(t, p, scope, n) { NumberedBelow(t, p, scope, n); }
    }
  }

  lemma RecountedBindings(t: Tables, q: Request, h: Held, n: nat)
    ensures Recounted(t, q, h, n).bindings == t.bindings && Recounted(t, q, h, n).references == t.references
  {
  }

  lemma AscendingIs(a: Tables, b: Tables, p: string, scope: string)
    ensures Ascending(a, b, p, scope) <==>
              PrefixLast(a, p, scope) <= PrefixLast(b, p, scope)
              && forall n: nat :: Numbered(b, p, scope, n) ==>
                   Numbered(a, p, scope, n) || PrefixLast(a, p, scope) < n <= PrefixLast(b, p, scope)
    ensures NumbersGrown(a, b, p, scope) <==>
              forall n: nat :: PrefixLast(a, p, scope) < n <= PrefixLast(b, p, scope) ==> Numbered(b, p, scope, n)
  {
    hide Numbered, PrefixLast;
  }

  // ----- a whole allocation

  lemma GrantedIs(h: Held, q: Request, n: nat)
    requires Granted(h, q, n)
    ensures h.row.last <= n <= Maximum(h.row.width) && n == h.row.last + 1
    ensures h.row.prefix == q.prefix && h.row.width == q.width && q.width >= 0
  {
    hide Maximum;
  }

  lemma FreshSlot(t: Tables, q: Request, h: Held, n: nat)
    requires BindingsOk(t) && HeldOk(t, q, h) && Granted(h, q, n)
    ensures Slot(q.key, n) !in t.bindings
  {
    hide Maximum, CounterRowOk, PrefixTaken;
  }

  lemma BindingRows(t: Tables, q: Request, n: nat, machine: Bytes)
    requires BindingsOk(t) && MachinesUnique(t) && Replay(t, q.key, machine).None? && Slot(q.key, n) !in t.bindings
    requires q.key in t.counters && 1 <= n <= t.counters[q.key].last && q.width >= 0
    requires t.counters[q.key].prefix == q.prefix && t.counters[q.key].width == q.width
    ensures var after := WithBinding(t, Slot(q.key, n), Binding(machine, q.prefix, q.width));
            BindingsOk(after) && MachinesUnique(after) && BindingsKept(t, after) && after.counters == t.counters
            && after.references == t.references
  {
    BindingMachines(t, q, n, machine);
    hide Replay, MachinesUnique;
  }

  lemma BindingMachines(t: Tables, q: Request, n: nat, machine: Bytes)
    requires MachinesUnique(t) && Replay(t, q.key, machine).None? && Slot(q.key, n) !in t.bindings && q.width >= 0
    ensures MachinesUnique(WithBinding(t, Slot(q.key, n), Binding(machine, q.prefix, q.width)))
  {
    hide Replay;
    forall s | s in t.bindings && s.key == q.key ensures t.bindings[s].machine != machine {
      assert s == Slot(q.key, s.sequence) && !Bound(t, q.key, s.sequence, machine);
    }
  }

  lemma RecountedRow(t: Tables, q: Request, h: Held, n: nat)
    ensures var after := Recounted(t, q, h, n); q.key in after.counters && after.counters[q.key] == h.row.(last := n)
  {
  }

  lemma UnboundRecounted(t: Tables, q: Request, h: Held, n: nat, key: Key, machine: Bytes)
    ensures Replay(Recounted(t, q, h, n), key, machine).None? <==> Replay(t, key, machine).None?
  {
    RecountedBindings(t, q, h, n);
    hide Replay, Recounted;
    var after := Recounted(t, q, h, n);
    assert forall k: nat :: Bound(after, key, k, machine) <==> Bound(t, key, k, machine);
  }

  lemma CommitInv(t: Tables, q: Request, h: Held, n: nat, machine: Bytes)
    requires Inv(t) && HeldOk(t, q, h) && Granted(h, q, n) && Replay(t, q.key, machine).None? && q.width >= 0
    ensures Inv(Committed(t, q, h, n, machine)) && Slot(q.key, n) !in t.bindings
    ensures ReferencesKept(t, Committed(t, q, h, n, machine)) && BindingsKept(t, Committed(t, q, h, n, machine))
  {
    hide *;
    InvUnique(t);
    GrantedIs(h, q, n);
    FreshSlot(t, q, h, n);
    RecountInv(t, q, h, n);
    var middle := Recounted(t, q, h, n);
    InvUnique(middle);
    RecountedRow(t, q, h, n);
    RecountedBindings(t, q, h, n);
    UnboundRecounted(t, q, h, n, q.key, machine);
    BindingRows(middle, q, n, machine);
    CommittedIs(t, q, h, n, machine);
    KeptTwice(t, middle, Committed(t, q, h, n, machine));
    SameCounters(middle, Committed(t, q, h, n, machine));
    MakeInv(Committed(t, q, h, n, machine));
  }

  lemma MakeInv(t: Tables)
    requires CountersOk(t) && PrefixesUnique(t) && BindingsOk(t) && MachinesUnique(t)
    ensures Inv(t)
  {
    hide CountersOk, PrefixesUnique, BindingsOk, MachinesUnique;
  }

  lemma KeptTwice(a: Tables, b: Tables, c: Tables)
    requires BindingsKept(a, b) && BindingsKept(b, c) && ReferencesKept(a, b) && b.references == c.references
    ensures BindingsKept(a, c) && ReferencesKept(a, c)
  {
  }

  lemma CommittedIs(t: Tables, q: Request, h: Held, n: nat, machine: Bytes)
    requires q.width >= 0
    ensures Committed(t, q, h, n, machine)
            == WithBinding(Recounted(t, q, h, n), Slot(q.key, n), Binding(machine, q.prefix, q.width))
    ensures Committed(t, q, h, n, machine).counters == Recounted(t, q, h, n).counters
  {
  }

  lemma CommitNumbered(t: Tables, q: Request, h: Held, n: nat, machine: Bytes, p: string, scope: string, k: nat)
    requires Slot(q.key, n) !in t.bindings && q.width >= 0
    ensures Numbered(Committed(t, q, h, n, machine), p, scope, k)
            <==> Numbered(t, p, scope, k) || (p == q.prefix && scope == q.key.scope && k == n)
  {
    var after := Committed(t, q, h, n, machine);
    if Numbered(t, p, scope, k) {
      var s :| s in t.bindings && s.key.scope == scope && s.sequence == k && t.bindings[s].prefix == p;
      assert s in after.bindings && after.bindings[s] == t.bindings[s];
    }
    if p == q.prefix && scope == q.key.scope && k == n {
      assert Slot(q.key, n) in after.bindings && Slot(q.key, n).sequence == k;
    }
  }

  lemma SamePrefixLast(a: Tables, b: Tables, p: string, scope: string)
    requires PrefixesUnique(a) && a.counters == b.counters
    ensures PrefixLast(a, p, scope) == PrefixLast(b, p, scope)
  {
    hide PrefixLast;
    if k :| Holds(a, k, p, scope) {
      assert Holds(b, k, p, scope);
      PrefixLastIs(a, k, p, scope);
      PrefixLastIs(b, k, p, scope);
    } else {
      assert forall k :: Holds(b, k, p, scope) ==> Holds(a, k, p, scope);
      PrefixLastNone(a, p, scope);
      PrefixLastNone(b, p, scope);
    }
  }

  /** A commit binds the next number of its prefix and scope, and nothing else changes there. */
  lemma CommitGrows(t: Tables, q: Request, h: Held, n: nat, machine: Bytes)
    requires Inv(t) && HeldOk(t, q, h) && Granted(h, q, n) && Replay(t, q.key, machine).None? && q.width >= 0
    ensures Inv(Committed(t, q, h, n, machine)) && PrefixGrown(t, Committed(t, q, h, n, machine))
  {
    hide *;
    var middle, after := Recounted(t, q, h, n), Committed(t, q, h, n, machine);
    CommitInv(t, q, h, n, machine);
    GrantedIs(h, q, n);
    RecountInv(t, q, h, n);
    CommittedIs(t, q, h, n, machine);
    InvUnique(t);
    InvUnique(middle);
    forall p, scope ensures Ascending(t, after, p, scope) && NumbersGrown(t, after, p, scope) {
      RecountPrefixLast(t, q, h, n, p, scope);
      SamePrefixLast(middle, after, p, scope);
      forall k: nat ensures Numbered(after, p, scope, k)
          <==> Numbered(t, p, scope, k) || (p == q.prefix && scope == q.key.scope && k == n) {
        CommitNumbered(t, q, h, n, machine, p, scope, k);
      }
      AscendingIs(t, after, p, scope);
    }
    MakePrefixGrown(t, after);
  }

  lemma MakePrefixGrown(a: Tables, b: Tables)
    requires ReferencesKept(a, b) && BindingsKept(a, b) && forall p, scope :: Ascending(a, b, p, scope)
    ensures Ascended(a, b)
    ensures (forall p, scope :: NumbersGrown(a, b, p, scope)) ==> PrefixGrown(a, b)
  {
    hide NumbersGrown, Ascending, ReferencesKept, BindingsKept;
  }

  // ----- whatever an open transaction leaves

  /** Committing the rows written so far, however far that is: the keys hold and nothing is lost; a
      prefix and scope conserve their numbers unless the counter was written and the binding was not. */
  lemma FlushGrows(t: Tables, o: Open)
    requires Inv(t) && OpenOk(t, o)
    ensures Inv(Flushed(t, o)) && Ascended(t, Flushed(t, o))
    ensures forall p, scope :: (NumbersGrown(t, Flushed(t, o), p, scope)
                                <==> !(o.done.Updated? && p == o.q.prefix && scope == o.q.key.scope))
  {
    hide *;
    OpenParts(t, o);
    if o.done.Inserted? {
      CommitGrows(t, o.q, o.held, o.done.n, MachineOf(o.q).value);
      GrownParts(t, Flushed(t, o));
    } else {
      var n := if o.done.Updated? then o.done.n else o.held.row.last;
      RecountInv(t, o.q, o.held, n);
      forall p, scope ensures Ascending(t, Flushed(t, o), p, scope)
          && (NumbersGrown(t, Flushed(t, o), p, scope)
              <==> !(o.done.Updated? && p == o.q.prefix && scope == o.q.key.scope)) {
        RecountGrows(t, o.q, o.held, n, p, scope);
      }
      MakePrefixGrown(t, Flushed(t, o));
    }
  }

  lemma GrownParts(a: Tables, b: Tables)
    requires PrefixGrown(a, b)
    ensures Ascended(a, b) && forall p, scope :: NumbersGrown(a, b, p, scope)
  {
    hide Ascended, NumbersGrown;
  }

  lemma OpenParts(t: Tables, o: Open)
    requires CountersOk(t) || Inv(t)
    requires OpenOk(t, o)
    ensures HeldOk(t, o.q, o.held) && 4 <= o.q.width <= 18
    ensures o.done.Upserted? ==>
              o.held.row.last <= Maximum(o.held.row.width)
              && Flushed(t, o) == Recounted(t, o.q, o.held, o.held.row.last)
    ensures o.done.Updated? ==>
              Granted(o.held, o.q, o.done.n) && o.held.row.last < o.done.n <= Maximum(o.held.row.width)
              && o.held.row.prefix == o.q.prefix && Flushed(t, o) == Recounted(t, o.q, o.held, o.done.n)
    ensures o.done.Inserted? ==>
              Granted(o.held, o.q, o.done.n) && MachineOf(o.q).Some?
              && Replay(t, o.q.key, MachineOf(o.q).value).None?
              && Flushed(t, o) == Committed(t, o.q, o.held, o.done.n, MachineOf(o.q).value)
  {
    HeldMaximum(t, o.q, o.held);
    hide CountersOk, PrefixesUnique, BindingsOk, MachinesUnique, HeldOk, Maximum, MachineOf, Replay, Recounted, Committed;
  }

  lemma HeldMaximum(t: Tables, q: Request, h: Held)
    requires CountersOk(t) || Inv(t)
    requires HeldOk(t, q, h)
    ensures h.row.last <= Maximum(h.row.width)
  {
    if h.source.None? { MaximumPositive(q.width); }
    hide Maximum, CounterRowOk, PrefixesUnique, BindingsOk, MachinesUnique, PrefixTaken, HasBindings;
  }

  // ----- lock holders do not disturb each other

  /** A lock holder's view survives another one's counter row. */
  lemma HeldStable(t: Tables, q: Request, h: Held, r: Request, g: Held, n: nat)
    requires HeldOk(t, q, h) && HeldOk(t, r, g) && Apart(q, h, r, g)
    ensures HeldOk(Recounted(t, r, g, n), q, h)
  {
    hide Maximum, CounterRowOk;
    assert r.key in Keys(r, g) && q.key in Keys(q, h);
    if g.source.Some? { assert g.source.value in Keys(r, g); }
    if h.source.Some? { assert h.source.value in Keys(q, h); }
  }

  lemma HeldBinding(t: Tables, q: Request, h: Held, slot: Slot, b: Binding)
    requires HeldOk(t, q, h) && slot.key !in Keys(q, h)
    ensures HeldOk(WithBinding(t, slot, b), q, h)
  {
    hide Maximum, CounterRowOk;
    if h.source.Some? { assert h.source.value in Keys(q, h); }
  }

  lemma ApartKeys(q: Request, h: Held, r: Request, g: Held)
    requires Apart(q, h, r, g)
    ensures r.key !in Keys(q, h) && q.key != r.key && Apart(r, g, q, h)
  {
    assert q.key in Keys(q, h) && r.key in Keys(r, g);
  }

  lemma UnboundStable(t: Tables, key: Key, m: Bytes, slot: Slot, b: Binding)
    requires key != slot.key && Replay(t, key, m).None?
    ensures Replay(WithBinding(t, slot, b), key, m).None?
  {
    hide Replay;
    var after := WithBinding(t, slot, b);
    assert forall k: nat :: Bound(after, key, k, m) ==> Bound(t, key, k, m);
  }

  /** Uncommitted rows of one transaction stay in order when those of another are committed. */
  lemma OpenStable(t: Tables, o: Open, p: Open)
    requires OpenOk(t, o) && OpenOk(t, p) && CountersOk(t) && OpenApart(o, p)
    ensures OpenOk(Flushed(t, p), o)
  {
    hide *;
    OpenParts(t, o);
    OpenParts(t, p);
    OpenApartIs(o, p);
    ApartKeys(o.q, o.held, p.q, p.held);
    var n := if p.done.Upserted? then p.held.row.last else p.done.n;
    var middle := Recounted(t, p.q, p.held, n);
    HeldStable(t, o.q, o.held, p.q, p.held, n);
    if o.done.Inserted? { UnboundRecounted(t, p.q, p.held, n, o.q.key, MachineOf(o.q).value); }
    if p.done.Inserted? {
      var slot, b := Slot(p.q.key, n), Binding(MachineOf(p.q).value, p.q.prefix, p.q.width);
      CommittedIs(t, p.q, p.held, n, MachineOf(p.q).value);
      HeldBinding(middle, o.q, o.held, slot, b);
      if o.done.Inserted? { UnboundStable(middle, o.q.key, MachineOf(o.q).value, slot, b); }
    }
    MakeOpenOk(Flushed(t, p), o);
  }

  lemma OpenApartIs(o: Open, p: Open)
    ensures OpenApart(o, p) <==> Apart(o.q, o.held, p.q, p.held)
    ensures OpenApart(o, p) ==> OpenApart(p, o)
  {
    if OpenApart(o, p) { ApartKeys(o.q, o.held, p.q, p.held); }
  }

  lemma MakeOpenOk(t: Tables, o: Open)
    requires HeldOk(t, o.q, o.held) && 4 <= o.q.width <= 18
    requires !o.done.Upserted? ==> Granted(o.held, o.q, o.done.n)
    requires o.done.Inserted? ==> MachineOf(o.q).Some? && Replay(t, o.q.key, MachineOf(o.q).value).None?
    ensures OpenOk(t, o)
  {
    hide HeldOk, Granted, MachineOf, Replay;
  }

  // ----- statements

  /** The insert is refused exactly when the MID was bound to this key after the replay read. */
  lemma InsertFitsExactly(t: Tables, q: Request, h: Held, n: nat, machine: Bytes)
    requires Inv(t) && HeldOk(t, q, h) && Granted(h, q, n)
    ensures InsertFits(t, q, n, machine) <==> Replay(t, q.key, machine).None?
  {
    hide CountersOk, CounterRowOk, Maximum, Replay;
    if Replay(t, q.key, machine).Some? {
      var slot := Slot(q.key, Replay(t, q.key, machine).value);
      assert slot in t.bindings && slot.key == q.key && t.bindings[slot].machine == machine;
    } else {
      NoClash(t, q, h, n, machine);
    }
  }

  lemma NoClash(t: Tables, q: Request, h: Held, n: nat, machine: Bytes)
    requires Inv(t) && HeldOk(t, q, h) && Granted(h, q, n) && Replay(t, q.key, machine).None?
    ensures InsertFits(t, q, n, machine)
  {
    FreshSlot(t, q, h, n);
    hide CountersOk, CounterRowOk, Maximum, Replay, MachinesUnique;
    forall s | s in t.bindings
      ensures !(s.key.scope == q.key.scope && s.sequence == n && t.bindings[s].prefix == q.prefix)
      ensures !(s.key == q.key && t.bindings[s].machine == machine)
    {
      assert s == Slot(s.key, s.sequence);
      assert s.key in t.counters && s.sequence <= t.counters[s.key].last;
      assert !Bound(t, s.key, s.sequence, machine) || s.key != q.key;
    }
  }

  lemma UpsertOk(t: Tables, q: Request)
    requires Inv(t)
    ensures Upsert(t, q).Some? ==> HeldOk(t, q, Upsert(t, q).value)
  {
    hide CountersOk, PrefixesUnique, BindingsOk, MachinesUnique, HasBindings;
    CounterWidth(q);
    hide CounterRowOk;
  }

  lemma CounterWidth(q: Request)
    ensures CounterRowOk(q.key, q.prefix, q.width) ==> 4 <= q.width <= 18
  {
  }

  /** Once committed, the number is bound to the MID. */
  lemma CommittedSettled(t: Tables, q: Request, h: Held, n: nat, machine: Bytes)
    requires MachineOf(q) == Some(machine) && 4 <= q.width <= 18
    ensures Settled(Committed(t, q, h, n, machine), q, n)
  {
    hide MachineOf;
  }

  lemma SettledForever(a: Tables, b: Tables, q: Request, n: nat)
    requires BindingsKept(a, b) && Settled(a, q, n)
    ensures Settled(b, q, n)
  {
    hide MachineOf;
  }

  lemma SettledAgree(t: Tables, q: Request, n: nat, r: Request, k: nat)
    requires MachinesUnique(t) && Settled(t, q, n) && Settled(t, r, k) && q.key == r.key
    ensures n == k <==> MachineOf(q) == MachineOf(r)
  {
    hide MachineOf;
    if MachineOf(q) == MachineOf(r) {
      assert Slot(q.key, n) == Slot(q.key, k);
    }
  }
}
