/** The namespace registry: validation in one pass over the definitions, and what an accepted
    registry guarantees. */
module Registry {
  import opened Wrappers
  import opened Errors
  import opened Alphabet
  import opened Text
  import PublicId

  /** A reference definition as the caller writes it. */
  datatype RawReference = RawReference(
    prefix: string, strategy: string, profile: Option<string>, scope: Option<string>, width: int)

  datatype RawDefinition = RawDefinition(publicPrefix: string, reference: Option<RawReference>)

  datatype Reference =
    | Random(prefix: string, payloadLength: nat)
    | Sequential(prefix: string, scope: string, width: nat)

  datatype Definition = Definition(publicPrefix: string, reference: Option<Reference>)

  datatype Registry = Registry(
    definitions: seq<Definition>,
    byPublicPrefix: map<string, Definition>,
    byReferencePrefix: map<string, Definition>)
  {
    function GetByPublicPrefix(p: string): Option<Definition>
    {
      if p in byPublicPrefix then Some(byPublicPrefix[p]) else None
    }

    function GetByReferencePrefix(p: string): Option<Definition>
    {
      if Upper(p) in byReferencePrefix then Some(byReferencePrefix[Upper(p)]) else None
    }
  }

  predicate ReferencePrefixValid(p: string)
  {
    2 <= |p| <= 8 && forall i :: 0 <= i < |p| ==> IsUpper(p[i])
  }

  function ProfileLength(profile: string): Option<nat>
  {
    if profile == "compact" then Some(8)
    else if profile == "high" then Some(12)
    else if profile == "standard" then Some(10)
    else None
  }

  function RegisterReference(r: RawReference): Result<Reference, Error>
  {
    if !ReferencePrefixValid(r.prefix) then Failure(InvalidRefPrefix)
    else if r.strategy == "random" then
      match ProfileLength(if r.profile.Some? then r.profile.value else "standard")
      case None => Failure(InvalidNamespaceDefinition)
      case Some(n) => Success(Random(r.prefix, n))
    else if r.strategy == "sequence" then
      if r.width < 4 || r.width > 18 then Failure(InvalidRefLength)
      else Success(Sequential(r.prefix, if r.scope.Some? then r.scope.value else "none", r.width))
    else Failure(InvalidNamespaceDefinition)
  }

  /** A definition on its own: registered, or the error that rejects it. */
  function Register(d: RawDefinition): Result<Definition, Error>
  {
    if !PublicId.PrefixValid(d.publicPrefix) then Failure(InvalidPublicPrefix)
    else match d.reference
      case None => Success(Definition(d.publicPrefix, None))
      case Some(raw) =>
        match RegisterReference(raw)
        case Failure(e) => Failure(e)
        case Success(r) => Success(Definition(d.publicPrefix, Some(r)))
  }

  /** What a definition is registered as, entry by entry: its own prefixes; the payload length of the
      profile, by default that of `standard`; its own width, and its scope or `none`. */
  predicate RegisteredAs(raw: RawDefinition, d: Definition)
  {
    d.publicPrefix == raw.publicPrefix
    && match raw.reference
       case None => d.reference.None?
       case Some(r) =>
         d.reference.Some? && d.reference.value.prefix == r.prefix
         && match d.reference.value
            case Random(_, n) =>
              r.strategy == "random"
              && (r.profile, n) in {(None, 10), (Some("standard"), 10), (Some("compact"), 8), (Some("high"), 12)}
            case Sequential(_, scope, width) =>
              r.strategy == "sequence" && width == r.width && scope == if r.scope.Some? then r.scope.value else "none"
  }

  /** A definition registers exactly as that, when its prefixes are well formed and its width is in range. */
  lemma RegisteredExactly(raw: RawDefinition, d: Definition)
    ensures Register(raw) == Success(d)
            <==> RegisteredAs(raw, d) && PublicId.PrefixValid(raw.publicPrefix)
                 && (raw.reference.Some? ==>
                       ReferencePrefixValid(raw.reference.value.prefix)
                       && (raw.reference.value.strategy == "sequence" ==> 4 <= raw.reference.value.width <= 18))
  {
    hide PublicId.PrefixValid, ReferencePrefixValid;
  }

  predicate PrefixClash(p: string, q: string)
  {
    StartsWith(p, q) || StartsWith(q, p)
  }

  /** Two registered definitions can live in one registry. */
  predicate Compatible(d: Definition, e: Definition)
  {
    d.publicPrefix != e.publicPrefix
    && (d.reference.Some? && e.reference.Some? ==> !PrefixClash(d.reference.value.prefix, e.reference.value.prefix))
  }

  /** What the code accepts, without any order: each definition registers, and no two get in each
      other's way. The documented rules, which also restrict scopes, are `Documented` below. */
  predicate Acceptable(definitions: seq<RawDefinition>)
  {
    (forall i :: 0 <= i < |definitions| ==> Register(definitions[i]).Success?)
    && forall i, j :: 0 <= i < j < |definitions| ==>
         Register(definitions[i]).Success? && Register(definitions[j]).Success?
         && Compatible(Register(definitions[i]).value, Register(definitions[j]).value)
  }

  predicate DefinitionValid(d: Definition)
  {
    PublicId.PrefixValid(d.publicPrefix)
    && (d.reference.Some? ==>
          ReferencePrefixValid(d.reference.value.prefix)
          && match d.reference.value
             case Random(_, n) => n == 8 || n == 10 || n == 12
             case Sequential(_, _, w) => 4 <= w <= 18)
  }

  lemma RegisterValid(d: RawDefinition)
    requires Register(d).Success?
    ensures DefinitionValid(Register(d).value)
  {
  }

  predicate PairwiseCompatible(ds: seq<Definition>)
  {
    forall i, j :: 0 <= i < j < |ds| ==> Compatible(ds[i], ds[j])
  }

  /** The public-prefix map holds exactly the definitions. */
  ghost predicate PublicIndex(ds: seq<Definition>, m: map<string, Definition>)
  {
    (forall i :: 0 <= i < |ds| ==> ds[i].publicPrefix in m && m[ds[i].publicPrefix] == ds[i])
    && forall p :: p in m ==> m[p] in ds && m[p].publicPrefix == p
  }

  /** The reference-prefix map holds exactly the definitions that have a reference. */
  ghost predicate ReferenceIndex(ds: seq<Definition>, m: map<string, Definition>)
  {
    (forall i :: 0 <= i < |ds| && ds[i].reference.Some? ==>
       ds[i].reference.value.prefix in m && m[ds[i].reference.value.prefix] == ds[i])
    && forall p :: p in m ==> m[p] in ds && m[p].reference.Some? && m[p].reference.value.prefix == p
  }

  ghost predicate Valid(r: Registry)
  {
    (forall i :: 0 <= i < |r.definitions| ==> DefinitionValid(r.definitions[i]))
    && PairwiseCompatible(r.definitions)
    && PublicIndex(r.definitions, r.byPublicPrefix)
    && ReferenceIndex(r.definitions, r.byReferencePrefix)
  }

  /** The error of definition `i`, seen after the definitions before it were accepted. */
  ghost predicate RejectedAt(definitions: seq<RawDefinition>, i: nat, e: Error)
  {
    i < |definitions| && Acceptable(definitions[..i]) &&
    match Register(definitions[i])
    case Failure(own) =>
      e == own || (e == DuplicatePublicPrefix && exists k :: 0 <= k < i && definitions[k].publicPrefix == definitions[i].publicPrefix)
    case Success(d) =>
      exists k :: 0 <= k < i && Clash(definitions[k], d, e)
  }

  predicate Clash(earlier: RawDefinition, d: Definition, e: Error)
  {
    match Register(earlier)
    case Failure(_) => false
    case Success(c) =>
      match e
      case DuplicatePublicPrefix => c.publicPrefix == d.publicPrefix
      case DuplicateRefPrefix =>
        c.reference.Some? && d.reference.Some? && c.reference.value.prefix == d.reference.value.prefix
      case AmbiguousRefPrefix =>
        c.reference.Some? && d.reference.Some? && PrefixClash(c.reference.value.prefix, d.reference.value.prefix)
      case _ => false
  }

  lemma UpperFixed(p: string)
    requires ReferencePrefixValid(p)
    ensures Upper(p) == p
  {
  }

  lemma RejectedNotAcceptable(definitions: seq<RawDefinition>, i: nat, e: Error)
    requires RejectedAt(definitions, i, e)
    ensures !Acceptable(definitions)
  {
    if Acceptable(definitions) {
      var d := Register(definitions[i]).value;
      var k :| 0 <= k < i && Clash(definitions[k], d, e);
      assert Compatible(Register(definitions[k]).value, d);
      StartsWithSelf(d);
    }
  }

  lemma StartsWithSelf(d: Definition)
    ensures d.reference.Some? ==> PrefixClash(d.reference.value.prefix, d.reference.value.prefix)
  {
  }

  /** Accepting one more definition. */
  lemma AcceptOneMore(definitions: seq<RawDefinition>, i: nat, registered: seq<Definition>)
    requires i < |definitions| && |registered| == i && Acceptable(definitions[..i])
    requires forall k :: 0 <= k < i ==> Register(definitions[k]) == Success(registered[k])
    requires Register(definitions[i]).Success?
    requires forall k :: 0 <= k < i ==> Compatible(registered[k], Register(definitions[i]).value)
    ensures Acceptable(definitions[..i + 1])
  {
    var more := definitions[..i + 1];
    assert forall k :: 0 <= k < i ==> more[k] == definitions[..i][k];
  }

  /** What the loop knows after `i` definitions. */
  ghost predicate Progress(definitions: seq<RawDefinition>, i: nat, r: Registry)
  {
    |r.definitions| == i <= |definitions| && Acceptable(definitions[..i]) && Valid(r)
    && forall k :: 0 <= k < i ==> Register(definitions[k]) == Success(r.definitions[k])
  }

  method CreateNamespaceRegistry(definitions: seq<RawDefinition>) returns (r: Result<Registry, Error>)
    ensures r.Success? <==> Acceptable(definitions)
    ensures r.Success? ==>
              Valid(r.value) && |r.value.definitions| == |definitions|
              && forall i :: 0 <= i < |definitions| ==>
                   Register(definitions[i]) == Success(r.value.definitions[i])
                   && RegisteredAs(definitions[i], r.value.definitions[i])
    ensures r.Failure? ==> exists i: nat :: RejectedAt(definitions, i, r.error)
  {
    var byPublicPrefix: map<string, Definition> := map[];
    var byReferencePrefix: map<string, Definition> := map[];
    var registered: seq<Definition> := [];
    StartProgress(definitions);
    for i := 0 to |definitions|
      invariant Progress(definitions, i, Registry(registered, byPublicPrefix, byReferencePrefix))
    {
      hide *;
      var next := CheckNext(definitions, i, Registry(registered, byPublicPrefix, byReferencePrefix));
      if next.Failure? {
        RejectedNotAcceptable(definitions, i, next.error);
        return Failure(next.error);
      }
      var namespace := next.value;
      MakeProgress(definitions, i, Registry(registered, byPublicPrefix, byReferencePrefix), namespace);
      registered := registered + [namespace];
      byPublicPrefix := byPublicPrefix[namespace.publicPrefix := namespace];
      if namespace.reference.Some? {
        byReferencePrefix := byReferencePrefix[Upper(namespace.reference.value.prefix) := namespace];
      }
    }
    assert definitions[..|definitions|] == definitions;
    forall i | 0 <= i < |definitions| ensures RegisteredAs(definitions[i], registered[i]) {
      RegisteredExactly(definitions[i], registered[i]);
    }
    r := Success(Registry(registered, byPublicPrefix, byReferencePrefix));
  }

  lemma StartProgress(definitions: seq<RawDefinition>)
    ensures Progress(definitions, 0, Registry([], map[], map[]))
  {
    assert definitions[..0] == [];
  }

  lemma MakeProgress(definitions: seq<RawDefinition>, i: nat, r: Registry, d: Definition)
    requires Progress(definitions, i, r) && i < |definitions| && Register(definitions[i]) == Success(d)
    requires d.publicPrefix !in r.byPublicPrefix
    requires d.reference.Some? ==> forall k :: 0 <= k < i && r.definitions[k].reference.Some? ==>
                                     !PrefixClash(r.definitions[k].reference.value.prefix, d.reference.value.prefix)
    ensures Progress(definitions, i + 1, Registry(
              r.definitions + [d], r.byPublicPrefix[d.publicPrefix := d],
              if d.reference.Some? then r.byReferencePrefix[Upper(d.reference.value.prefix) := d] else r.byReferencePrefix))
  {
    hide Valid, Acceptable, Compatible, PrefixClash, Upper, RegisterReference;
    RegisterValid(definitions[i]);
    if d.reference.Some? { UpperFixed(d.reference.value.prefix); }
    Extended(r.definitions, r.byPublicPrefix, r.byReferencePrefix, d);
    AcceptOneMore(definitions, i, r.definitions);
  }

  /** The checks on definition `i`, in the order of the loop body. */
  method CheckNext(definitions: seq<RawDefinition>, i: nat, sofar: Registry) returns (r: Result<Definition, Error>)
    requires Progress(definitions, i, sofar) && i < |definitions|
    ensures r.Failure? ==> RejectedAt(definitions, i, r.error)
    ensures r.Success? ==>
              var d := r.value;
              Register(definitions[i]) == Success(d) && d.publicPrefix !in sofar.byPublicPrefix
              && (d.reference.Some? ==> forall k :: 0 <= k < i && sofar.definitions[k].reference.Some? ==>
                    !PrefixClash(sofar.definitions[k].reference.value.prefix, d.reference.value.prefix))
  {
    hide PublicId.PrefixValid, RegisterReference, Acceptable, PrefixClash, PairwiseCompatible, PublicIndex, ReferenceIndex;
    var definition := definitions[i];
    if !PublicId.PrefixValid(definition.publicPrefix) { return Failure(InvalidPublicPrefix); }
    if definition.publicPrefix in sofar.byPublicPrefix {
      DuplicatePublic(definitions, i, sofar.definitions, sofar.byPublicPrefix);
      return Failure(DuplicatePublicPrefix);
    }
    r := Register(definition);
    if r.Failure? || r.value.reference.None? { return; }
    RegisterValid(definition);
    var clash := FindClash(r.value, sofar.definitions, sofar.byReferencePrefix);
    if clash.Some? {
      var (k, error) := clash.value;
      assert Clash(definitions[k], r.value, error);
      r := Failure(error);
    }
  }

  lemma DuplicatePublic(definitions: seq<RawDefinition>, i: nat, registered: seq<Definition>, m: map<string, Definition>)
    requires i < |definitions| && |registered| == i && Acceptable(definitions[..i]) && PublicIndex(registered, m)
    requires forall k :: 0 <= k < i ==> Register(definitions[k]) == Success(registered[k])
    requires definitions[i].publicPrefix in m
    ensures RejectedAt(definitions, i, DuplicatePublicPrefix)
  {
    var c := m[definitions[i].publicPrefix];
    var k :| 0 <= k < |registered| && registered[k] == c;
    assert definitions[k].publicPrefix == definitions[i].publicPrefix;
    if Register(definitions[i]).Success? {
      assert Clash(definitions[k], Register(definitions[i]).value, DuplicatePublicPrefix);
    }
  }

  /** The comparisons with the reference prefixes seen so far. */
  method FindClash(namespace: Definition, registered: seq<Definition>, m: map<string, Definition>)
    returns (clash: Option<(nat, Error)>)
    requires namespace.reference.Some? && ReferencePrefixValid(namespace.reference.value.prefix)
    requires ReferenceIndex(registered, m)
    ensures clash.None? ==> forall k :: 0 <= k < |registered| && registered[k].reference.Some? ==>
                              !PrefixClash(registered[k].reference.value.prefix, namespace.reference.value.prefix)
    ensures clash.Some? ==>
              var (k, e) := clash.value;
              k < |registered| && registered[k].reference.Some?
              && if e == DuplicateRefPrefix then registered[k].reference.value.prefix == namespace.reference.value.prefix
                 else e == AmbiguousRefPrefix
                      && PrefixClash(registered[k].reference.value.prefix, namespace.reference.value.prefix)
  {
    var prefix := Upper(namespace.reference.value.prefix);
    UpperFixed(namespace.reference.value.prefix);
    if prefix in m {
      var k :| 0 <= k < |registered| && registered[k] == m[prefix];
      return Some((k, DuplicateRefPrefix));
    }
    for k := 0 to |registered|
      invariant forall j :: 0 <= j < k && registered[j].reference.Some? ==>
                  !PrefixClash(registered[j].reference.value.prefix, prefix)
    {
      if registered[k].reference.Some? {
        var earlier := registered[k].reference.value.prefix;
        if StartsWith(earlier, prefix) || StartsWith(prefix, earlier) { return Some((k, AmbiguousRefPrefix)); }
      }
    }
    clash := None;
  }

  lemma Extended(ds: seq<Definition>, p: map<string, Definition>, q: map<string, Definition>, d: Definition)
    requires Valid(Registry(ds, p, q)) && DefinitionValid(d) && d.publicPrefix !in p
    requires d.reference.Some? ==> forall k :: 0 <= k < |ds| && ds[k].reference.Some? ==>
                                     !PrefixClash(ds[k].reference.value.prefix, d.reference.value.prefix)
    ensures forall k :: 0 <= k < |ds| ==> Compatible(ds[k], d)
    ensures Valid(Registry(ds + [d], p[d.publicPrefix := d],
                           if d.reference.Some? then q[d.reference.value.prefix := d] else q))
  {
    var es := ds + [d];
    assert es[|ds|] == d;
    var p' := p[d.publicPrefix := d];
    forall x | x in p' ensures p'[x] in es && p'[x].publicPrefix == x {
      if x in p && x != d.publicPrefix { assert p[x] in ds; }
    }
    var q' := if d.reference.Some? then q[d.reference.value.prefix := d] else q;
    forall x | x in q' ensures q'[x] in es && q'[x].reference.Some? && q'[x].reference.value.prefix == x {
      if x in q && !(d.reference.Some? && x == d.reference.value.prefix) { assert q[x] in ds; }
    }
    if d.reference.Some? { NotYetKeyed(ds, q, d); }
  }

  lemma NotYetKeyed(ds: seq<Definition>, q: map<string, Definition>, d: Definition)
    requires ReferenceIndex(ds, q) && d.reference.Some?
    requires forall k :: 0 <= k < |ds| && ds[k].reference.Some? ==>
               !PrefixClash(ds[k].reference.value.prefix, d.reference.value.prefix)
    ensures forall k :: 0 <= k < |ds| && ds[k].reference.Some? ==> ds[k].reference.value.prefix != d.reference.value.prefix
  {
    StartsWithSelf(d);
  }

  // ----- order

  /** Whether a collection is accepted does not depend on the order of its definitions. */
  lemma AcceptanceIgnoresOrder(a: seq<RawDefinition>, b: seq<RawDefinition>)
    requires multiset(a) == multiset(b)
    ensures Acceptable(a) <==> Acceptable(b)
  {
    if Acceptable(a) { AcceptableReordered(a, b); }
    if Acceptable(b) { AcceptableReordered(b, a); }
  }

  lemma AcceptableReordered(a: seq<RawDefinition>, b: seq<RawDefinition>)
    requires multiset(a) == multiset(b) && Acceptable(a)
    ensures Acceptable(b)
  {
    forall j | 0 <= j < |b| ensures Register(b[j]).Success? {
      var i := Occurrence(a, b, j);
    }
    forall j, k | 0 <= j < k < |b|
      ensures Register(b[j]).Success? && Register(b[k]).Success?
              && Compatible(Register(b[j]).value, Register(b[k]).value)
    {
      var i, m := TwoOccurrences(a, b, j, k);
      if i < m {
        assert Compatible(Register(a[i]).value, Register(a[m]).value);
      } else {
        assert Compatible(Register(a[m]).value, Register(a[i]).value);
      }
    }
  }

  lemma Occurrence<T>(a: seq<T>, b: seq<T>, j: nat) returns (i: nat)
    requires multiset(a) == multiset(b) && j < |b|
    ensures i < |a| && a[i] == b[j]
  {
    assert b[j] in multiset(b);
    assert b[j] in multiset(a);
    i :| i < |a| && a[i] == b[j];
  }

  /** Two positions of `b` come from two positions of `a`. */
  lemma TwoOccurrences<T>(a: seq<T>, b: seq<T>, j: nat, k: nat) returns (i: nat, m: nat)
    requires multiset(a) == multiset(b) && j < k < |b|
    ensures i < |a| && m < |a| && i != m && a[i] == b[j] && a[m] == b[k]
  {
    i := Occurrence(a, b, j);
    var a', b' := a[..i] + a[i + 1..], b[..j] + b[j + 1..];
    WithoutOne(a, i);
    WithoutOne(b, j);
    assert b'[k - 1] == b[k];
    var n := Occurrence(a', b', k - 1);
    m := if n < i then n else n + 1;
  }

  lemma WithoutOne<T>(s: seq<T>, i: nat)
    requires i < |s|
    ensures multiset(s[..i] + s[i + 1..]) == multiset(s) - multiset{s[i]}
  {
    assert s == s[..i] + [s[i]] + s[i + 1..];
  }

  // ----- finding the namespace of a text

  /** At most one reference prefix of a valid registry starts a given text. */
  lemma OnePrefix(r: Registry, s: string, d: Definition, e: Definition)
    requires Valid(r) && d in r.definitions && e in r.definitions
    requires d.reference.Some? && e.reference.Some?
    requires StartsWith(s, d.reference.value.prefix) && StartsWith(s, e.reference.value.prefix)
    ensures d == e
  {
    var i :| 0 <= i < |r.definitions| && r.definitions[i] == d;
    var j :| 0 <= j < |r.definitions| && r.definitions[j] == e;
    SharedStart(s, d.reference.value.prefix, e.reference.value.prefix);
    if i != j { DistinctPrefixes(r.definitions, i, j); }
  }

  lemma DistinctPrefixes(ds: seq<Definition>, i: nat, j: nat)
    requires PairwiseCompatible(ds) && i < |ds| && j < |ds| && i != j
    requires ds[i].reference.Some? && ds[j].reference.Some?
    ensures ds[i].publicPrefix != ds[j].publicPrefix
    ensures !PrefixClash(ds[i].reference.value.prefix, ds[j].reference.value.prefix)
  {
    assert if i < j then Compatible(ds[i], ds[j]) else Compatible(ds[j], ds[i]);
  }

  lemma SharedStart(s: string, p: string, q: string)
    requires StartsWith(s, p) && StartsWith(s, q)
    ensures PrefixClash(p, q)
  {
    if |p| <= |q| {
      assert q[..|p|] == s[..|q|][..|p|] == s[..|p|];
    } else {
      assert p[..|q|] == s[..|p|][..|q|] == s[..|q|];
    }
  }

  // ----- the documented rules

  predicate Letters(p: string)
  {
    forall i :: 0 <= i < |p| ==> IsUpper(p[i]) || IsLower(p[i])
  }

  /** The rules for one reference: 2 to 8 ASCII letters, a known strategy, a supported profile length
      or a width of 4 to 18 digits with a supported scope. */
  predicate DocumentedReference(r: RawReference)
  {
    2 <= |r.prefix| <= 8 && Letters(r.prefix) && (r.strategy == "random" || r.strategy == "sequence")
    && (r.strategy == "random" ==> r.profile in {None, Some("compact"), Some("standard"), Some("high")})
    && (r.strategy == "sequence" ==> 4 <= r.width <= 18 && ScopeSupported(r))
  }

  predicate ScopeSupported(r: RawReference)
  {
    r.scope.None? || r.scope.value == "none" || r.scope.value == "calendar-year"
  }

  /** A TypeID prefix that names a namespace. */
  predicate DocumentedPublicPrefix(p: string)
  {
    1 <= |p| <= 63 && (forall i :: 0 <= i < |p| ==> IsLower(p[i]) || p[i] == '_') && p[0] != '_' && p[|p| - 1] != '_'
  }

  /** No two definitions share a public prefix or, case aside, a reference prefix, and no reference
      prefix is the beginning of another. */
  predicate DocumentedPair(d: RawDefinition, e: RawDefinition)
  {
    d.publicPrefix != e.publicPrefix
    && (d.reference.Some? && e.reference.Some? ==>
          Upper(d.reference.value.prefix) != Upper(e.reference.value.prefix)
          && !PrefixClash(d.reference.value.prefix, e.reference.value.prefix))
  }

  predicate DocumentedDefinition(d: RawDefinition)
  {
    DocumentedPublicPrefix(d.publicPrefix) && (d.reference.Some? ==> DocumentedReference(d.reference.value))
  }

  /** No reason the specification lists for rejecting a collection applies to it. */
  predicate Documented(definitions: seq<RawDefinition>)
  {
    (forall i :: 0 <= i < |definitions| ==> DocumentedDefinition(definitions[i]))
    && forall i, j :: 0 <= i < j < |definitions| ==> DocumentedPair(definitions[i], definitions[j])
  }

  /** Every sequential definition has no scope, or one of the two supported ones. */
  predicate ScopesSupported(definitions: seq<RawDefinition>)
  {
    forall i :: 0 <= i < |definitions| ==> DefinitionScopeSupported(definitions[i])
  }

  predicate DefinitionScopeSupported(d: RawDefinition)
  {
    d.reference.Some? && d.reference.value.strategy == "sequence" ==> ScopeSupported(d.reference.value)
  }

  predicate UpperPrefix(d: RawDefinition)
  {
    d.reference.Some? ==> Upper(d.reference.value.prefix) == d.reference.value.prefix
  }

  predicate UpperPrefixes(definitions: seq<RawDefinition>)
  {
    forall i :: 0 <= i < |definitions| ==> UpperPrefix(definitions[i])
  }

  lemma UpperLetters(p: string)
    ensures ReferencePrefixValid(p) <==> 2 <= |p| <= 8 && Letters(p) && Upper(p) == p
  {
    if Letters(p) && Upper(p) == p {
      forall i | 0 <= i < |p| ensures IsUpper(p[i]) { assert Upper(p)[i] == UpperChar(p[i]); }
    }
    if ReferencePrefixValid(p) { UpperFixed(p); }
  }

  /** One definition: it registers, with a supported scope, exactly when the rules allow it and its
      reference prefix is written in upper case. */
  lemma DefinitionDocumented(d: RawDefinition)
    ensures Register(d).Success? && DefinitionScopeSupported(d) <==> DocumentedDefinition(d) && UpperPrefix(d)
    ensures Register(d).Success? ==>
              Register(d).value.publicPrefix == d.publicPrefix && (Register(d).value.reference.Some? <==> d.reference.Some?)
              && (d.reference.Some? ==> Register(d).value.reference.value.prefix == d.reference.value.prefix)
    ensures Register(d).Success? ==> UpperPrefix(d)
  {
    PublicPrefixDocumented(d.publicPrefix);
    if d.reference.Some? { UpperLetters(d.reference.value.prefix); }
    hide Upper, Letters, ReferencePrefixValid, DocumentedPublicPrefix;
  }

  lemma PublicPrefixDocumented(p: string)
    ensures PublicId.PrefixValid(p) <==> DocumentedPublicPrefix(p)
  {
  }

  lemma PairDocumented(d: RawDefinition, e: RawDefinition)
    requires Register(d).Success? && Register(e).Success?
    ensures Compatible(Register(d).value, Register(e).value) <==> DocumentedPair(d, e)
  {
    hide *;
    DefinitionDocumented(d);
    DefinitionDocumented(e);
    PairUnfold(d, e);
  }

  lemma PairUnfold(d: RawDefinition, e: RawDefinition)
    requires Register(d).Success? && Register(e).Success? && UpperPrefix(d) && UpperPrefix(e)
    requires Register(d).value.publicPrefix == d.publicPrefix && Register(e).value.publicPrefix == e.publicPrefix
    requires Register(d).value.reference.Some? <==> d.reference.Some?
    requires Register(e).value.reference.Some? <==> e.reference.Some?
    requires d.reference.Some? ==> Register(d).value.reference.value.prefix == d.reference.value.prefix
    requires e.reference.Some? ==> Register(e).value.reference.value.prefix == e.reference.value.prefix
    ensures Compatible(Register(d).value, Register(e).value) <==> DocumentedPair(d, e)
  {
    hide Register, Upper;
    if d.reference.Some? && e.reference.Some? && d.reference.value.prefix == e.reference.value.prefix {
      StartsWithSelf(Register(d).value);
    }
  }

  /** For all collections: with supported scopes the code accepts exactly what the specification
      allows, reference prefixes being in upper case. */
  lemma DocumentedExactly(definitions: seq<RawDefinition>)
    ensures Acceptable(definitions) && ScopesSupported(definitions) <==> Documented(definitions) && UpperPrefixes(definitions)
  {
    hide Register, Compatible, DocumentedPair, DocumentedDefinition, DefinitionScopeSupported, UpperPrefix;
    forall i | 0 <= i < |definitions|
      ensures Register(definitions[i]).Success? && DefinitionScopeSupported(definitions[i])
              <==> DocumentedDefinition(definitions[i]) && UpperPrefix(definitions[i])
    {
      DefinitionDocumented(definitions[i]);
    }
    forall i, j | 0 <= i < j < |definitions| && Register(definitions[i]).Success? && Register(definitions[j]).Success?
      ensures Compatible(Register(definitions[i]).value, Register(definitions[j]).value)
              <==> DocumentedPair(definitions[i], definitions[j])
    {
      PairDocumented(definitions[i], definitions[j]);
    }
  }

  /** So, on collections with upper-case prefixes, code and specification agree exactly when no accepted
      sequential definition has an unsupported scope. */
  lemma ScopeGap(definitions: seq<RawDefinition>)
    requires UpperPrefixes(definitions)
    ensures (Acceptable(definitions) <==> Documented(definitions)) <==> (Acceptable(definitions) ==> ScopesSupported(definitions))
    ensures ScopesSupported(definitions) ==> (Acceptable(definitions) <==> Documented(definitions))
  {
    DocumentedExactly(definitions);
    hide Acceptable, UpperPrefixes;
    hide Documented, ScopesSupported;
  }

  /** A collection the specification rejects and the code accepts. */
  lemma WeeklyAccepted() returns (definitions: seq<RawDefinition>)
    ensures Acceptable(definitions) && UpperPrefixes(definitions) && !Documented(definitions)
  {
    var weekly := RawReference("ORD", "sequence", None, Some("weekly"), 4);
    definitions := [RawDefinition("order", Some(weekly))];
    assert IsUpper('O') && IsUpper('R') && IsUpper('D');
    assert PublicId.PrefixValid("order") && ReferencePrefixValid("ORD");
    UpperFixed("ORD");
    assert Register(definitions[0]).Success?;
    assert !ScopeSupported(weekly);
    assert !DocumentedDefinition(definitions[0]);
  }

  /** A collection the specification's list does not reject and the code does. */
  lemma LowerRefused() returns (definitions: seq<RawDefinition>)
    ensures !Acceptable(definitions) && Documented(definitions) && ScopesSupported(definitions)
  {
    var lower := RawReference("ord", "random", None, None, 0);
    definitions := [RawDefinition("order", Some(lower))];
    assert IsLower('o') && IsLower('r') && IsLower('d');
    assert DocumentedPublicPrefix("order") && Letters("ord");
    assert DocumentedDefinition(definitions[0]);
    assert !IsUpper("ord"[0]);
    assert Register(definitions[0]).Failure?;
  }
}
