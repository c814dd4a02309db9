/** Making references, and what comes back when they are parsed. */
module Formatting {
  import opened Wrappers
  import opened Errors
  import opened Positional
  import opened Alphabet
  import opened Text
  import opened DecimalText
  import opened Checksum
  import opened Registry
  import opened References

  /** A canonical payload with its check symbol. */
  predicate Payload(ref: Reference, payload: string, check: char)
  {
    |payload| == PayloadLength(ref) && CheckSymbol(payload, PayloadAlphabet(ref)) == Success(check)
  }

  lemma PayloadReads(ref: Reference, payload: string, check: char)
    requires Payload(ref, payload, check)
    ensures Read(payload, PayloadAlphabet(ref)).Some?
    ensures NormalPayload(ref, payload) == Success(payload)
    ensures Accepts(ref, payload + [check], payload)
  {
    var c := payload + [check];
    assert c[..|c| - 1] == payload;
    hide Data, Decimal;
    if ref.Random? {
      forall i | 0 <= i < |payload| ensures Alias(payload[i]) == payload[i] {
        assert payload[i] in Data();
        NotAliased(payload[i]);
      }
      assert Aliased(payload) == payload;
    }
  }

  lemma NotAliased(c: char)
    requires c in Data()
    ensures Alias(c) == c
  {
  }

  /** An accepted body stands for a canonical payload. */
  lemma AcceptsPayload(ref: Reference, c: string, payload: string)
    requires Accepts(ref, c, payload)
    ensures Payload(ref, payload, c[|c| - 1])
  {
  }

  /** Parsing a canonical text returns exactly what it was made of. */
  lemma CanonicalParses(r: Registry, d: Definition, payload: string, check: char)
    requires Valid(r) && d in r.definitions && d.reference.Some? && Payload(d.reference.value, payload, check)
    ensures |payload| == PayloadLength(d.reference.value)
    ensures ParseReference(Canonical(d.reference.value, payload, check), r) == Success(Parsed(d, payload, check))
    ensures |Canonical(d.reference.value, payload, check)| <= 34
  {
    var ref, c := d.reference.value, payload + [check];
    assert |payload| == PayloadLength(ref);
    hide *;
    PayloadReads(ref, payload, check);
    CanonicalWritten(ref, payload, check);
    DefinitionBounds(r, d);
    AcceptedSymbols(ref, c, payload);
    CanonicalUpper(ref, payload, check);
    ParseWritten(Canonical(ref, payload, check), r, d, c, payload);
    assert c[|c| - 1] == check;
  }

  lemma CanonicalWritten(ref: Reference, payload: string, check: char)
    requires |payload| == PayloadLength(ref)
    ensures Written(Canonical(ref, payload, check), ref, payload + [check])
  {
  }

  lemma CanonicalUpper(ref: Reference, payload: string, check: char)
    requires |payload| == PayloadLength(ref) && ReferencePrefixValid(ref.prefix)
    requires forall i :: 0 <= i < |payload + [check]| ==> !IsLower((payload + [check])[i]) && (payload + [check])[i] != '-'
    ensures Upper(Canonical(ref, payload, check)) == Canonical(ref, payload, check)
    ensures '_' !in payload + [check] ==> '_' !in Canonical(ref, payload, check)
  {
    var c, s := payload + [check], Canonical(ref, payload, check);
    CanonicalWritten(ref, payload, check);
    assert '-' !in c;
    hide Canonical, Written, PayloadLength;
    WrittenCompact(s, ref, c);
    CompactResult(s);
    forall i | 0 <= i < |s| ensures !IsLower(s[i]) && ('_' !in c ==> s[i] != '_') {
      assert s[i] in s;
      assert s[i] == '-' || s[i] in ref.prefix + c;
    }
    assert Upper(s) == s;
  }

  /** Normalizing is idempotent: the canonical text of an accepted one parses to the same thing. */
  lemma ParseIdempotent(value: string, r: Registry)
    requires Valid(r) && ParseReference(value, r).Success?
    ensures ParseReference(ParseReference(value, r).value.value, r) == ParseReference(value, r)
    ensures |value| <= 34
  {
    hide *;
    var d, c, payload := AcceptedIsWritten(value, r);
    AcceptsPayload(d.reference.value, c, payload);
    AcceptsLength(d.reference.value, c, payload);
    ParseWritten(value, r, d, c, payload);
    CanonicalParses(r, d, payload, c[|c| - 1]);
    ParsedValue(d, payload, c[|c| - 1]);
  }

  lemma ParsedValue(d: Definition, payload: string, check: char)
    requires d.reference.Some? && |payload| == PayloadLength(d.reference.value)
    ensures Parsed(d, payload, check).value == Canonical(d.reference.value, payload, check)
    ensures Parsed(d, payload, check).payload == payload && Parsed(d, payload, check).checkSymbol == check
    ensures Parsed(d, payload, check).namespace == d.publicPrefix
  {
  }

  /** The accepted set: a text parses to `x` exactly when it is, up to letter case, one of the
      three written forms of some accepted body of some definition, and `x` is its canonical reading. */
  lemma AcceptedSet(value: string, r: Registry, x: ParsedReference)
    requires Valid(r)
    ensures ParseReference(value, r) == Success(x)
            <==> exists d: Definition, c: string, payload: string :: Reading(r, value, d, c, payload, x)
  {
    hide *;
    if ParseReference(value, r) == Success(x) {
      var d, c, payload := AcceptedIsWritten(value, r);
      MakeReading(r, value, d, c, payload, x);
    }
    if d: Definition, c: string, payload: string :| Reading(r, value, d, c, payload, x) {
      UseReading(r, value, d, c, payload, x);
    }
  }

  ghost predicate Reading(r: Registry, value: string, d: Definition, c: string, payload: string, x: ParsedReference)
  {
    d in r.definitions && d.reference.Some?
    && Accepts(d.reference.value, c, payload) && Written(Upper(value), d.reference.value, c)
    && |payload| == PayloadLength(d.reference.value) && x == Parsed(d, payload, c[|c| - 1])
  }

  lemma MakeReading(r: Registry, value: string, d: Definition, c: string, payload: string, x: ParsedReference)
    requires d in r.definitions && d.reference.Some?
    requires Accepts(d.reference.value, c, payload) && Written(Upper(value), d.reference.value, c)
    requires |payload| == PayloadLength(d.reference.value) && x == Parsed(d, payload, c[|c| - 1])
    ensures Reading(r, value, d, c, payload, x)
  {
  }

  lemma UseReading(r: Registry, value: string, d: Definition, c: string, payload: string, x: ParsedReference)
    requires Valid(r) && Reading(r, value, d, c, payload, x)
    ensures ParseReference(value, r) == Success(x)
  {
    ParseWritten(value, r, d, c, payload);
  }

  /** Hyphenless location does not depend on the order of registration: two registries with the
      same definitions parse every text alike. */
  lemma ParseIgnoresOrder(value: string, r: Registry, q: Registry, x: ParsedReference)
    requires Valid(r) && Valid(q)
    requires forall d :: d in r.definitions <==> d in q.definitions
    ensures ParseReference(value, r) == Success(x) <==> ParseReference(value, q) == Success(x)
  {
    AcceptedSet(value, r, x);
    AcceptedSet(value, q, x);
    hide ParseReference, Accepts, Written, Parsed, Valid, PayloadLength;
    forall d: Definition, c: string, payload: string
      ensures Reading(r, value, d, c, payload, x) <==> Reading(q, value, d, c, payload, x)
    {
    }
  }

  // ----- random candidates

  function RequireReference(r: Registry, namespace: string): Result<Definition, Error>
  {
    match r.GetByPublicPrefix(namespace)
    case None => Failure(UnknownNamespace)
    case Some(d) => if d.reference.None? then Failure(InvalidNamespaceDefinition) else Success(d)
  }

  lemma RequiredDefinition(r: Registry, namespace: string)
    requires Valid(r) && RequireReference(r, namespace).Success?
    ensures var d := RequireReference(r, namespace).value;
            d in r.definitions && d.reference.Some? && d.publicPrefix == namespace
  {
  }

  /** The payload a byte array makes: the low five bits of each byte. */
  function PayloadOfBytes(bytes: seq<nat>): (s: string)
    ensures |s| == |bytes|
  {
    DataAscends();
    seq(|bytes|, i requires 0 <= i < |bytes| => Data()[Remainder(bytes[i], 32)])
  }

  function Candidate(r: Registry, namespace: string, bytes: seq<nat>): Result<string, Error>
  {
    match RequireReference(r, namespace)
    case Failure(e) => Failure(e)
    case Success(d) =>
      match d.reference.value
      case Sequential(_, _, _) => Failure(InvalidNamespaceDefinition)
      case Random(_, n) =>
        if |bytes| != n then Failure(InvalidRandomSource)
        else match CheckSymbol(PayloadOfBytes(bytes), Data())
          case Failure(e) => Failure(e)
          case Success(check) => Success(Canonical(d.reference.value, PayloadOfBytes(bytes), check))
  }

  method CreateReferenceCandidate(r: Registry, namespace: string, bytes: seq<nat>) returns (result: Result<string, Error>)
    requires Valid(r)
    ensures result == Candidate(r, namespace, bytes)
  {
    hide *;
    var required := RequireReference(r, namespace);
    CandidateFailures(r, namespace, bytes);
    if required.Failure? { return Failure(required.error); }
    var d := required.value;
    RequiredDefinition(r, namespace);
    if d.reference.value.Sequential? { return Failure(InvalidNamespaceDefinition); }
    if |bytes| != d.reference.value.payloadLength { return Failure(InvalidRandomSource); }
    var payload := "";
    assert |Data()| == 32 by { DataAscends(); }
    for i := 0 to |bytes|
      invariant payload == PayloadOfBytes(bytes)[..i]
    {
      PayloadByte(bytes, i);
      payload := payload + [Data()[Remainder(bytes[i], 32)]];
    }
    assert payload == PayloadOfBytes(bytes);
    RandomPayload(r, d, payload, bytes);
    var check := CalculateReferenceCheckSymbol(payload);
    CandidateFrom(r, namespace, bytes, d, check.value);
    var reference := FormatReference(d.reference.value.prefix, payload, check.value);
    result := Success(reference);
  }

  lemma PayloadByte(bytes: seq<nat>, i: nat)
    requires i < |bytes|
    ensures |Data()| == 32 && PayloadOfBytes(bytes)[i] == Data()[Remainder(bytes[i], 32)]
    ensures PayloadOfBytes(bytes)[..i + 1] == PayloadOfBytes(bytes)[..i] + [PayloadOfBytes(bytes)[i]]
  {
    DataAscends();
  }

  lemma CandidateFailures(r: Registry, namespace: string, bytes: seq<nat>)
    ensures RequireReference(r, namespace).Failure? ==>
              Candidate(r, namespace, bytes) == Failure(RequireReference(r, namespace).error)
    ensures RequireReference(r, namespace).Success? ==> RequireReference(r, namespace).value.reference.Some?
    ensures RequireReference(r, namespace).Success? ==>
              var ref := RequireReference(r, namespace).value.reference.value;
              (ref.Sequential? ==> Candidate(r, namespace, bytes) == Failure(InvalidNamespaceDefinition))
              && (ref.Random? && |bytes| != ref.payloadLength ==>
                    Candidate(r, namespace, bytes) == Failure(InvalidRandomSource))
  {
    hide Canonical, CheckSymbol, PayloadOfBytes;
  }

  /** Bytes of the right number always make a payload with a check symbol. */
  lemma RandomPayload(r: Registry, d: Definition, payload: string, bytes: seq<nat>)
    requires Valid(r) && d in r.definitions && d.reference.Some? && d.reference.value.Random?
    requires payload == PayloadOfBytes(bytes) && |bytes| == d.reference.value.payloadLength
    ensures payload != [] && CheckSymbol(payload, Data()).Success?
    ensures Payload(d.reference.value, payload, CheckSymbol(payload, Data()).value)
  {
    DefinitionBounds(r, d);
    DataAscends();
    hide Data, Valid, Remainder;
    assert Read(payload, Data()).Some?;
  }

  lemma CandidateFrom(r: Registry, namespace: string, bytes: seq<nat>, d: Definition, check: char)
    requires RequireReference(r, namespace) == Success(d) && d.reference.Some? && d.reference.value.Random?
    requires |bytes| == d.reference.value.payloadLength && CheckSymbol(PayloadOfBytes(bytes), Data()) == Success(check)
    ensures Candidate(r, namespace, bytes)
            == Success(Canonical(Random(d.reference.value.prefix, |bytes|), PayloadOfBytes(bytes), check))
  {
    hide Canonical, CheckSymbol, PayloadOfBytes;
  }

  /** A candidate parses back to its namespace and to the symbols of its bytes; one is made exactly
      for a random namespace and the right number of bytes. */
  lemma CandidateRoundTrip(r: Registry, namespace: string, bytes: seq<nat>)
    requires Valid(r)
    ensures Candidate(r, namespace, bytes).Success?
            <==> RequireReference(r, namespace).Success?
                 && RequireReference(r, namespace).value.reference.value.Random?
                 && |bytes| == RequireReference(r, namespace).value.reference.value.payloadLength
    ensures Candidate(r, namespace, bytes).Success? ==>
              var reference := Candidate(r, namespace, bytes).value;
              var parsed := ParseReference(reference, r);
              parsed.Success? && parsed.value.value == reference && parsed.value.namespace == namespace
              && parsed.value.payload == PayloadOfBytes(bytes) && parsed.value.scope.None? && parsed.value.sequence.None?
  {
    hide *;
    CandidateFailures(r, namespace, bytes);
    var required := RequireReference(r, namespace);
    if required.Success? {
      RequiredDefinition(r, namespace);
      var d := required.value;
      if d.reference.value.Random? && |bytes| == d.reference.value.payloadLength {
        var payload := PayloadOfBytes(bytes);
        RandomPayload(r, d, payload, bytes);
        var check := CheckSymbol(payload, Data()).value;
        CandidateFrom(r, namespace, bytes, d, check);
        CanonicalParses(r, d, payload, check);
        ParsedRandom(d, payload, check);
      }
    }
  }

  lemma ParsedRandom(d: Definition, payload: string, check: char)
    requires d.reference.Some? && d.reference.value.Random? && |payload| == PayloadLength(d.reference.value)
    ensures d.reference.value == Random(d.reference.value.prefix, |payload|)
    ensures var p := Parsed(d, payload, check);
            p.value == Canonical(d.reference.value, payload, check) && p.namespace == d.publicPrefix
            && p.payload == payload && p.scope.None? && p.sequence.None?
  {
  }

  // ----- sequential references

  predicate FourDigits(s: string)
  {
    |s| == 4 && forall i :: 0 <= i < 4 ==> IsDigit(s[i])
  }

  function FormatSequentialReference(r: Registry, namespace: string, sequence: int, scope: Option<string>): Result<string, Error>
  {
    match RequireReference(r, namespace)
    case Failure(e) => Failure(e)
    case Success(d) =>
      match d.reference.value
      case Random(_, _) => Failure(InvalidNamespaceDefinition)
      case Sequential(prefix, kind, width) =>
        if sequence < 0 then Failure(InvalidRef)
        else if |ToDecimal(sequence)| > width then Failure(SequenceOverflow)
        else
          var padded := PadStart(ToDecimal(sequence), width);
          if kind == "calendar-year" then
            if scope.None? || !FourDigits(scope.value) then Failure(InvalidRef)
            else match CheckSymbol(scope.value + padded, Decimal())
              case Failure(e) => Failure(e)
              case Success(check) => Success(FormatSequentialParts(prefix, padded, check, scope))
          else
            if scope.Some? then Failure(InvalidRef)
            else match CheckSymbol(padded, Decimal())
              case Failure(e) => Failure(e)
              case Success(check) => Success(FormatSequentialParts(prefix, padded, check, scope))
  }

  /** The scopes a sequential namespace can be formatted with. */
  predicate ScopeFits(ref: Reference, scope: Option<string>)
  {
    if HasScope(ref) then scope.Some? && FourDigits(scope.value) else scope.None?
  }

  function ScopedPayload(sequence: nat, width: nat, scope: Option<string>): string
  {
    if scope.Some? then scope.value + FixedWidth(sequence, width) else FixedWidth(sequence, width)
  }

  lemma DecimalPayload(ref: Reference, sequence: nat, scope: Option<string>)
    requires ref.Sequential? && ref.width > 0 && ScopeFits(ref, scope) && sequence < Pow(10, ref.width)
    ensures var payload := ScopedPayload(sequence, ref.width, scope);
            CheckSymbol(payload, Decimal()).Success? && Payload(ref, payload, CheckSymbol(payload, Decimal()).value)
  {
    var payload, padded := ScopedPayload(sequence, ref.width, scope), FixedWidth(sequence, ref.width);
    FixedWidthRead(sequence, ref.width);
    hide Decimal, FixedWidth, Value;
    forall i | 0 <= i < |payload| ensures payload[i] in Decimal() {
      if scope.Some? && i < 4 {
        assert payload[i] == scope.value[i];
        DecimalSymbol(scope.value[i]);
      } else {
        assert payload[i] == padded[if scope.Some? then i - 4 else i];
      }
    }
  }

  lemma FormatUnfold(r: Registry, namespace: string, sequence: int, scope: Option<string>, d: Definition)
    requires RequireReference(r, namespace) == Success(d) && d.reference.Some? && d.reference.value.Sequential?
    requires d.reference.value.width > 0
    ensures FormatSequentialReference(r, namespace, sequence, scope).Success?
            <==> 0 <= sequence < Pow(10, d.reference.value.width) && ScopeFits(d.reference.value, scope)
    ensures FormatSequentialReference(r, namespace, sequence, scope).Success? ==>
              var payload := ScopedPayload(sequence, d.reference.value.width, scope);
              CheckSymbol(payload, Decimal()).Success? && |payload| == PayloadLength(d.reference.value)
              && FormatSequentialReference(r, namespace, sequence, scope)
                 == Success(Canonical(d.reference.value, payload, CheckSymbol(payload, Decimal()).value))
  {
    var ref := d.reference.value;
    if sequence >= 0 { PadFits(sequence, ref.width); }
    hide ToDecimal, PadStart, Canonical, CheckSymbol, FixedWidth, Decimal, FormatSequentialParts, Pow, FourDigits, Payload;
    if 0 <= sequence < Pow(10, ref.width) && ScopeFits(ref, scope) {
      DecimalPayload(ref, sequence, scope);
      var payload := ScopedPayload(sequence, ref.width, scope);
      ScopeLength(scope);
      SequentialTemplate(ref, scope, FixedWidth(sequence, ref.width), CheckSymbol(payload, Decimal()).value);
    }
  }

  lemma FormatCases(r: Registry, namespace: string, n: int, scope: Option<string>, d: Definition)
    requires RequireReference(r, namespace) == Success(d) && d.reference.Some? && d.reference.value.Sequential?
    requires d.reference.value.width > 0
    ensures n < 0 ==> FormatSequentialReference(r, namespace, n, scope) == Failure(InvalidRef)
    ensures n >= 0 && n >= Pow(10, d.reference.value.width) ==>
              FormatSequentialReference(r, namespace, n, scope) == Failure(SequenceOverflow)
    ensures 0 <= n < Pow(10, d.reference.value.width) && !ScopeFits(d.reference.value, scope) ==>
              FormatSequentialReference(r, namespace, n, scope) == Failure(InvalidRef)
  {
    if n >= 0 { PadFits(n, d.reference.value.width); }
    hide ToDecimal, PadStart, CheckSymbol, FormatSequentialParts, Pow, FourDigits;
  }

  lemma ScopeLength(scope: Option<string>)
    ensures scope.Some? && FourDigits(scope.value) ==> |scope.value| == 4
  {
  }

  /** A formatted sequential reference parses back to its namespace, scope and number; one is made
      exactly for numbers that fit the width and scopes that suit the namespace. */
  lemma SequentialRoundTrip(r: Registry, namespace: string, sequence: int, scope: Option<string>)
    requires Valid(r) && RequireReference(r, namespace).Success?
    requires RequireReference(r, namespace).value.reference.value.Sequential?
    ensures var ref := RequireReference(r, namespace).value.reference.value;
            var made := FormatSequentialReference(r, namespace, sequence, scope);
            (made.Success? <==> 0 <= sequence < Pow(10, ref.width) && ScopeFits(ref, scope))
            && (made.Success? ==>
                  var parsed := ParseReference(made.value, r);
                  parsed.Success? && parsed.value.value == made.value && parsed.value.namespace == namespace
                  && parsed.value.scope == scope && parsed.value.sequence == Some(FixedWidth(sequence, ref.width)))
  {
    hide *;
    RequiredDefinition(r, namespace);
    var d := RequireReference(r, namespace).value;
    DefinitionBounds(r, d);
    var ref := d.reference.value;
    SequentialWidth(r, d);
    FormatUnfold(r, namespace, sequence, scope, d);
    if FormatSequentialReference(r, namespace, sequence, scope).Success? {
      var payload := ScopedPayload(sequence, ref.width, scope);
      DecimalPayload(ref, sequence, scope);
      CanonicalParses(r, d, payload, CheckSymbol(payload, Decimal()).value);
      ParsedSequential(d, sequence, scope, CheckSymbol(payload, Decimal()).value);
    }
  }

  lemma SequentialWidth(r: Registry, d: Definition)
    requires Valid(r) && d in r.definitions && d.reference.Some? && d.reference.value.Sequential?
    ensures 4 <= d.reference.value.width <= 18
  {
    var i :| 0 <= i < |r.definitions| && r.definitions[i] == d;
    assert DefinitionValid(d);
  }

  lemma ParsedSequential(d: Definition, sequence: nat, scope: Option<string>, check: char)
    requires d.reference.Some? && d.reference.value.Sequential? && ScopeFits(d.reference.value, scope)
    ensures var ref := d.reference.value;
            var payload := ScopedPayload(sequence, ref.width, scope);
            |payload| == PayloadLength(ref)
            && Parsed(d, payload, check)
               == ParsedReference(Canonical(ref, payload, check), d.publicPrefix, payload, scope,
                                  Some(FixedWidth(sequence, ref.width)), check)
  {
    hide FixedWidth, Canonical;
    var payload := ScopedPayload(sequence, d.reference.value.width, scope);
    if scope.Some? {
      assert payload[..4] == scope.value && payload[4..] == FixedWidth(sequence, d.reference.value.width);
    }
  }
}
