/** Which inputs are refused, and with which error: each error has its own condition, and exactly one of
    these conditions holds of a refused input. */
module Refusals {
  import opened Wrappers
  import opened Errors
  import opened Positional
  import opened Alphabet
  import opened Text
  import opened Hyphenation
  import opened Checksum
  import opened DecimalText
  import opened Registry
  import opened References
  import opened Formatting
  import opened MachineId
  import opened TypeId
  import opened PublicId
  import opened Unified
  import opened StorageText
  import opened Tables

  // ----- MIDs and PIDs

  /** Hexadecimal digits with hyphens behind the 8th, 12th, 16th and 20th. */
  predicate HexGroups(s: string)
  {
    |s| == 36 && s[8] == '-' && s[13] == '-' && s[18] == '-' && s[23] == '-'
    && forall i :: 0 <= i < 36 && i != 8 && i != 13 && i != 18 && i != 23 ==> IsHexSymbol(s[i])
  }

  lemma ShapedExactly(s: string)
    ensures Shaped(s) <==> HexGroups(s)
  {
    hide Hex, IsHexSymbol;
    forall c ensures c in Hex() <==> IsHexSymbol(c) { HexMember(c); }
  }

  ghost predicate MidRefusal(value: string, e: Error)
  {
    var v := Lower(value);
    match e
    case InvalidUuidVersion => HexGroups(v) && v[14] != '7'
    case InvalidMid => !HexGroups(v) || (v[14] == '7' && v[19] != '8' && v[19] != '9' && v[19] != 'a' && v[19] != 'b')
    case _ => false
  }

  /** A text is no MID because of its shape or its variant, or because of its version. */
  lemma MidRefused(value: string, e: Error)
    ensures ParseMachineId(value) == Failure(e) <==> MidRefusal(value, e)
  {
    ShapedExactly(Lower(value));
    hide Shaped, HexGroups, Lower;
  }

  /** The text in front of the last underscore, and the text behind it. */
  predicate SplitsLast(value: string, namespace: string, suffix: string)
  {
    value == namespace + ['_'] + suffix && '_' !in suffix
  }

  ghost predicate PidRefusal(value: string, e: Error)
  {
    match e
    case InvalidPublicPrefix =>
      Lower(value) == value && forall namespace, suffix :: SplitsLast(value, namespace, suffix) ==> !PrefixValid(namespace)
    case InvalidPid =>
      Lower(value) != value
      || exists namespace, suffix :: SplitsLast(value, namespace, suffix) && PrefixValid(namespace) && !NamesMid(suffix)
    case _ => false
  }

  /** The suffix decodes to the number of a MID. */
  predicate NamesMid(suffix: string)
  {
    Decoded(suffix).Success? && IsMachineId(FormatMachine(Decoded(suffix).value))
  }

  /** A text is no PID because of its prefix, or because of anything else. */
  lemma PidRefused(value: string, e: Error)
    ensures ParsePublicId(value) == Failure(e) <==> PidRefusal(value, e)
  {
    hide *;
    DecodedFails(value);
    PidRefusalIs(value, e);
    var at := LastIndexOf(value, '_');
    OnlySplit(value);
    if Lower(value) == value { PidCases(value, at); }
    if at.Some? {
      var namespace, suffix := value[..at.value], value[at.value + 1..];
      if PrefixValid(namespace) && !NamesMid(suffix) { assert SplitsLast(value, namespace, suffix); }
    }
  }

  lemma PidRefusalIs(value: string, e: Error)
    ensures PidRefusal(value, e)
            <==> if Lower(value) != value then e == InvalidPid
                 else (e == InvalidPublicPrefix && forall n, s :: SplitsLast(value, n, s) ==> !PrefixValid(n))
                      || (e == InvalidPid && exists n, s :: SplitsLast(value, n, s) && PrefixValid(n) && !NamesMid(s))
  {
    hide Lower, SplitsLast, PrefixValid, NamesMid;
  }

  /** The last underscore, and no other, splits the text. */
  lemma OnlySplit(value: string)
    ensures var at := LastIndexOf(value, '_');
            at.Some? ==> at.value < |value| && SplitsLast(value, value[..at.value], value[at.value + 1..])
    ensures var at := LastIndexOf(value, '_');
            forall n, s :: SplitsLast(value, n, s) ==> at.Some? && n == value[..at.value] && s == value[at.value + 1..]
  {
    hide *;
    forall n, s | SplitsLast(value, n, s)
      ensures LastIndexOf(value, '_') == Some(|n|) && |n| < |value| && n == value[..|n|] && s == value[|n| + 1..]
    {
      SplitIsLast(value, n, s);
    }
    LastSplits(value);
  }

  lemma SplitIsLast(value: string, n: string, s: string)
    requires SplitsLast(value, n, s)
    ensures LastIndexOf(value, '_') == Some(|n|) && |n| < |value| && n == value[..|n|] && s == value[|n| + 1..]
  {
    LastIndexUnique(n, '_', s);
    hide LastIndexOf;
  }

  lemma LastSplits(value: string)
    ensures var at := LastIndexOf(value, '_');
            at.Some? ==> at.value < |value| && SplitsLast(value, value[..at.value], value[at.value + 1..])
  {
    hide *;
    var at := LastIndexOf(value, '_');
    if at.Some? {
      SplitAt(value, at.value);
    }
  }

  lemma SplitAt(value: string, i: nat)
    requires i < |value| && value[i] == '_' && '_' !in value[i + 1..]
    ensures SplitsLast(value, value[..i], value[i + 1..])
  {
  }

  lemma PidCases(value: string, at: Option<nat>)
    requires Lower(value) == value && at == LastIndexOf(value, '_')
    ensures at.None? ==> ParsePublicId(value) == Failure(InvalidPublicPrefix)
    ensures at.Some? ==>
              at.value < |value|
              && var namespace, suffix := value[..at.value], value[at.value + 1..];
                 if !PrefixValid(namespace) then ParsePublicId(value) == Failure(InvalidPublicPrefix)
                 else if !NamesMid(suffix) then ParsePublicId(value) == Failure(InvalidPid)
                 else ParsePublicId(value).Success?
  {
    hide PrefixValid, IsMachineId, FormatMachine, LastIndexOf, Lower, TypeIdSymbols, Value;
  }

  lemma DecodedFails(value: string)
    ensures Lower(value) != value ==> ParsePublicId(value) == Failure(InvalidPid)
  {
  }

  /** No PID is built for an invalid prefix, whatever the MID, or from a text that is no MID. */
  lemma BuildRefused(machineId: string, namespace: string, e: Error)
    ensures PublicIdFromMachineId(machineId, namespace) == Failure(e)
            <==> if PrefixValid(namespace) then MidRefusal(machineId, e) else e == InvalidPublicPrefix
  {
    MidRefused(machineId, e);
    hide MidRefusal, PrefixValid, ParseMachineId, Suffix, MachineNumber;
  }

  // ----- references

  predicate Permissible(c: char)
  {
    IsUpper(c) || IsLower(c) || IsDigit(c) || c in "*~$=_-"
  }

  predicate Admissible(value: string)
  {
    1 <= |value| <= 100 && forall i :: 0 <= i < |value| ==> Permissible(value[i])
  }

  lemma PermittedExactly(c: char)
    ensures Permitted(c) <==> Permissible(c)
  {
  }

  /** The text begins, in any letter case, with the prefix of the definition; a hyphen behind that is not
      part of the body, and there is one unless there is none anywhere. */
  predicate LocatedAt(value: string, r: Registry, d: Definition, body: string)
  {
    d in r.definitions && d.reference.Some?
    && (Upper(value) == d.reference.value.prefix + "-" + body
        || (Upper(value) == d.reference.value.prefix + body && '-' !in body))
  }

  lemma LocatedExactly(value: string, r: Registry, d: Definition, body: string)
    requires Valid(r)
    ensures LocatedAt(value, r, d, body) <==> LocateNamespace(Upper(value), r) == Success((body, d))
  {
    hide *;
    LocatedAtIs(value, r, d, body);
    if LocatedAt(value, r, d, body) {
      if Upper(value) == d.reference.value.prefix + "-" + body {
        LocateHyphenated(r, d, body);
      } else {
        LocateJoined(r, d, body);
      }
    }
    if LocateNamespace(Upper(value), r) == Success((body, d)) {
      UpperTwice(value);
      LocatedReference(Upper(value), r, d, body);
      LocatedForm(Upper(value), r, body, d);
    }
  }

  lemma LocatedAtIs(value: string, r: Registry, d: Definition, body: string)
    ensures LocatedAt(value, r, d, body)
            <==> d in r.definitions && d.reference.Some?
                 && (Upper(value) == d.reference.value.prefix + "-" + body
                     || (Upper(value) == d.reference.value.prefix + body && '-' !in body))
  {
    hide Upper;
  }

  lemma LocatedReference(s: string, r: Registry, d: Definition, body: string)
    requires Valid(r) && LocateNamespace(s, r) == Success((body, d))
    ensures d.reference.Some?
  {
    hide PairwiseCompatible, DefinitionValid, Upper, PublicIndex;
  }

  lemma LocateFails(s: string, r: Registry)
    ensures LocateNamespace(s, r).Failure? ==> LocateNamespace(s, r) == Failure(UnknownNamespace)
  {
  }

  /** A symbol of a payload before aliases are resolved. */
  predicate RawSymbol(ref: Reference, c: char)
  {
    if ref.Random? then IsDataSymbol(c) || c == 'O' || c == 'I' || c == 'L' else IsDigit(c)
  }

  predicate RawSymbols(ref: Reference, s: string)
  {
    forall i :: 0 <= i < |s| ==> RawSymbol(ref, s[i])
  }

  /** The right number of symbols, with no hyphens or with the canonical ones. */
  predicate WellGrouped(ref: Reference, body: string)
  {
    GroupSum(ref);
    var c := Compact(body);
    |c| == PayloadLength(ref) + 1 && (body == c || body == Hyphenate(c, GroupLengths(ref)))
  }

  /** Digits and letters for the value; the aliases of 0 and 1 resolved. */
  function Plain(ref: Reference, s: string): string
  {
    if ref.Random? then Aliased(s) else s
  }

  predicate BodyRefusal(ref: Reference, body: string, e: Error)
  {
    var c, n := Compact(body), PayloadLength(ref);
    match e
    case InvalidRefLength => |c| != n + 1
    case InvalidRef => |c| == n + 1 && !WellGrouped(ref, body)
    case InvalidRefSymbol => WellGrouped(ref, body) && |c| == n + 1 && !(RawSymbols(ref, c[..n]) && c[n] in Check())
    case InvalidChecksum =>
      WellGrouped(ref, body) && |c| == n + 1 && RawSymbols(ref, c[..n]) && c[n] in Check()
      && CheckSymbol(Plain(ref, c[..n]), PayloadAlphabet(ref)) != Success(c[n])
    case _ => false
  }

  lemma BodyRefused(body: string, d: Definition, e: Error)
    requires d.reference.Some?
    ensures ParseBody(body, d) == Failure(e) <==> BodyRefusal(d.reference.value, body, e)
  {
    hide *;
    var ref, c := d.reference.value, Compact(body);
    BodyRefusalIs(ref, body, e);
    BodyCases(body, d);
    if |c| == PayloadLength(ref) + 1 {
      GroupedExactly(ref, body);
      NormalExactly(ref, c[..PayloadLength(ref)]);
    } else {
      GroupedLength(ref, body);
    }
  }

  lemma BodyRefusalIs(ref: Reference, body: string, e: Error)
    ensures var c, n := Compact(body), PayloadLength(ref);
            BodyRefusal(ref, body, e)
            <==> (e == InvalidRefLength && |c| != n + 1)
                 || (e == InvalidRef && |c| == n + 1 && !WellGrouped(ref, body))
                 || (e == InvalidRefSymbol && WellGrouped(ref, body) && |c| == n + 1 && !(RawSymbols(ref, c[..n]) && c[n] in Check()))
                 || (e == InvalidChecksum && WellGrouped(ref, body) && |c| == n + 1 && RawSymbols(ref, c[..n]) && c[n] in Check()
                     && CheckSymbol(Plain(ref, c[..n]), PayloadAlphabet(ref)) != Success(c[n]))
  {
    hide Compact, PayloadLength, WellGrouped, RawSymbols, Plain, CheckSymbol, Check, PayloadAlphabet;
  }

  lemma BodyCases(body: string, d: Definition)
    requires d.reference.Some?
    ensures var ref := d.reference.value;
            var c, n := Compact(body), PayloadLength(ref);
            if |c| != n + 1 then ParseBody(body, d) == Failure(InvalidRefLength)
            else if !HyphenationOk(body, GroupLengths(ref)) then ParseBody(body, d) == Failure(InvalidRef)
            else match NormalPayload(ref, c[..n])
              case Failure(e) => ParseBody(body, d) == Failure(e)
              case Success(payload) =>
                if c[n] !in Check() then ParseBody(body, d) == Failure(InvalidRefSymbol)
                else if CheckSymbol(payload, PayloadAlphabet(ref)) != Success(c[n]) then ParseBody(body, d) == Failure(InvalidChecksum)
                else ParseBody(body, d).Success?
  {
    hide Compact, HyphenationOk, GroupLengths, CheckSymbol, Check, Parsed, PayloadLength, PayloadAlphabet;
  }

  lemma GroupedLength(ref: Reference, body: string)
    ensures WellGrouped(ref, body) ==> |Compact(body)| == PayloadLength(ref) + 1
  {
    hide Compact, Hyphenate, GroupLengths;
  }

  lemma GroupedExactly(ref: Reference, body: string)
    requires |Compact(body)| == PayloadLength(ref) + 1
    ensures WellGrouped(ref, body) <==> HyphenationOk(body, GroupLengths(ref))
  {
    GroupSum(ref);
    CompactResult(body);
    if '-' !in body { CompactHyphenFree(body); }
    hide GroupLengths, PayloadLength, Compact, Hyphenate, Split, Lengths;
    HyphenateSound(Compact(body), GroupLengths(ref));
    if Lengths(Split(body)) == GroupLengths(ref) { HyphenateComplete(body, GroupLengths(ref)); }
  }

  lemma NormalExactly(ref: Reference, raw: string)
    ensures NormalPayload(ref, raw) == if RawSymbols(ref, raw) then Success(Plain(ref, raw)) else Failure(InvalidRefSymbol)
  {
    var plain := Plain(ref, raw);
    hide Data, Decimal, IsDataSymbol, IsDigit;
    forall i | 0 <= i < |raw| ensures plain[i] in PayloadAlphabet(ref) <==> RawSymbol(ref, raw[i]) {
      AliasMember(raw[i]);
      DecimalMember(raw[i]);
    }
  }

  lemma AliasMember(c: char)
    ensures Alias(c) in Data() <==> IsDataSymbol(c) || c == 'O' || c == 'I' || c == 'L'
  {
    DataMember(Alias(c));
    DataMember(c);
    hide Data;
  }

  ghost predicate ReferenceRefusal(value: string, r: Registry, e: Error)
  {
    if !Admissible(value) then e == InvalidRef
    else if forall d, body :: !LocatedAt(value, r, d, body) then e == UnknownNamespace
    else exists d, body :: LocatedAt(value, r, d, body) && BodyRefusal(d.reference.value, body, e)
  }

  /** A text is no reference: for its characters or length, because no registered prefix stands in front,
      or for what stands behind that: its length, its hyphens, a symbol, or the check symbol. */
  lemma ReferenceRefused(value: string, r: Registry, e: Error)
    requires Valid(r)
    ensures ParseReference(value, r) == Failure(e) <==> ReferenceRefusal(value, r, e)
  {
    hide Valid, LocatedAt, LocateNamespace, BodyRefusal, ParseBody, Permitted, Permissible, Upper;
    forall c ensures Permitted(c) <==> Permissible(c) { PermittedExactly(c); }
    LocateFails(Upper(value), r);
    forall d, body ensures LocatedAt(value, r, d, body) <==> LocateNamespace(Upper(value), r) == Success((body, d)) {
      LocatedExactly(value, r, d, body);
    }
    if LocateNamespace(Upper(value), r).Success? {
      var (body, d) := LocateNamespace(Upper(value), r).value;
      assert LocatedAt(value, r, d, body);
      LocatedReference(Upper(value), r, d, body);
      BodyRefused(body, d, e);
    }
  }

  // ----- the classifier

  /** A text is of no kind when it has no underscore, is no hexadecimal text of the shape of a MID, and does
      not begin with two to eight letters and then a hyphen or digit. */
  predicate NoKind(value: string)
  {
    '_' !in value && !HexGroups(Lower(value))
    && forall n :: 2 <= n <= 8 && n < |value| && (forall i :: 0 <= i < n ==> IsLetter(value[i])) ==>
         value[n] != '-' && !IsDigit(value[n])
  }

  lemma KindRefused(value: string, r: Registry)
    ensures DetectIdentifierKind(value).None? <==> NoKind(value)
    ensures NoKind(value) ==> Parse(value, r) == Failure(InvalidKind)
  {
    ShapedExactly(Lower(value));
    hide Shaped, HexGroups, Lower, ParseMachineId, ParsePublicId, ParseReference;
    LeadLetters(value);
  }

  lemma LeadLetters(value: string)
    ensures ReferenceLead(value)
            <==> exists n :: 2 <= n <= 8 && n < |value| && (forall i :: 0 <= i < n ==> IsLetter(value[i]))
                             && (value[n] == '-' || IsDigit(value[n]))
  {
    var n := LetterRun(value);
    LetterRunIs(value);
    forall k | 0 <= k < |value| && (forall i :: 0 <= i < k ==> IsLetter(value[i])) && (value[k] == '-' || IsDigit(value[k]))
      ensures k == n
    {
    }
    hide LetterRun;
  }

  lemma {:induction false} LetterRunIs(s: string)
    ensures forall i :: 0 <= i < LetterRun(s) ==> IsLetter(s[i])
  {
    if s != [] && IsLetter(s[0]) {
      LetterRunIs(s[1..]);
      forall i | 0 <= i < LetterRun(s) ensures IsLetter(s[i]) {
        if i > 0 { assert s[i] == s[1..][i - 1]; }
      }
    }
  }

  // ----- the registry, and making references

  predicate UpperLettersOnly(p: string)
  {
    2 <= |p| <= 8 && forall i :: 0 <= i < |p| ==> IsUpper(p[i])
  }

  predicate RegisterRefusal(d: RawDefinition, e: Error)
  {
    if !DocumentedPublicPrefix(d.publicPrefix) then e == InvalidPublicPrefix
    else if d.reference.None? then false
    else
      var r := d.reference.value;
      match e
      case InvalidRefPrefix => !UpperLettersOnly(r.prefix)
      case InvalidNamespaceDefinition =>
        UpperLettersOnly(r.prefix)
        && (if r.strategy == "random" then r.profile !in {None, Some("compact"), Some("standard"), Some("high")}
            else r.strategy != "sequence")
      case InvalidRefLength => UpperLettersOnly(r.prefix) && r.strategy == "sequence" && !(4 <= r.width <= 18)
      case _ => false
  }

  /** A definition by itself is refused for its public prefix, its reference prefix, its strategy or profile,
      or its width. */
  lemma RegisterRefused(d: RawDefinition, e: Error)
    ensures Register(d) == Failure(e) <==> RegisterRefusal(d, e)
  {
    PublicPrefixDocumented(d.publicPrefix);
    hide PrefixValid, DocumentedPublicPrefix;
  }

  predicate Registered(r: Registry, namespace: string, d: Definition)
  {
    d in r.definitions && d.publicPrefix == namespace
  }

  lemma RegisteredIs(r: Registry, namespace: string, d: Definition)
    requires Valid(r)
    ensures Registered(r, namespace, d) <==> r.GetByPublicPrefix(namespace) == Some(d)
  {
    hide DefinitionValid, PairwiseCompatible, ReferenceIndex;
    if d in r.definitions {
      var i :| 0 <= i < |r.definitions| && r.definitions[i] == d;
    }
  }

  ghost predicate CandidateRefusal(r: Registry, namespace: string, bytes: seq<nat>, e: Error)
  {
    match e
    case UnknownNamespace => forall d :: !Registered(r, namespace, d)
    case InvalidNamespaceDefinition =>
      exists d :: Registered(r, namespace, d) && !(d.reference.Some? && d.reference.value.Random?)
    case InvalidRandomSource =>
      exists d :: Registered(r, namespace, d) && d.reference.Some? && d.reference.value.Random?
                  && |bytes| != d.reference.value.payloadLength
    case _ => false
  }

  /** No candidate is made in an unknown or another kind of namespace, or of another number of bytes. */
  lemma CandidateRefused(r: Registry, namespace: string, bytes: seq<nat>, e: Error)
    requires Valid(r)
    ensures Candidate(r, namespace, bytes) == Failure(e) <==> CandidateRefusal(r, namespace, bytes, e)
  {
    hide Valid, Candidate, Registered;
    forall d ensures Registered(r, namespace, d) <==> r.GetByPublicPrefix(namespace) == Some(d) { RegisteredIs(r, namespace, d); }
    RequiredCases(r, namespace);
    CandidateFailures(r, namespace, bytes);
    CandidateRoundTrip(r, namespace, bytes);
    CandidateNames(r, namespace);
    hide CheckSymbol;
  }

  lemma RequiredCases(r: Registry, namespace: string)
    ensures RequireReference(r, namespace)
            == match r.GetByPublicPrefix(namespace)
               case None => Failure(UnknownNamespace)
               case Some(d) => if d.reference.None? then Failure(InvalidNamespaceDefinition) else Success(d)
  {
  }

  lemma CandidateNames(r: Registry, namespace: string)
    requires Valid(r)
    ensures r.GetByPublicPrefix(namespace).Some? ==> Registered(r, namespace, r.GetByPublicPrefix(namespace).value)
  {
    hide DefinitionValid, PairwiseCompatible, ReferenceIndex;
  }

  ghost predicate FormatRefusal(r: Registry, namespace: string, n: int, scope: Option<string>, e: Error)
  {
    match e
    case UnknownNamespace => forall d :: !Registered(r, namespace, d)
    case InvalidNamespaceDefinition =>
      exists d :: Registered(r, namespace, d) && !(d.reference.Some? && d.reference.value.Sequential?)
    case SequenceOverflow =>
      exists d :: Registered(r, namespace, d) && d.reference.Some? && d.reference.value.Sequential?
                  && n >= 0 && n >= Pow(10, d.reference.value.width)
    case InvalidRef =>
      exists d :: Registered(r, namespace, d) && d.reference.Some? && d.reference.value.Sequential?
                  && (n < 0 || (n < Pow(10, d.reference.value.width) && !ScopeFits(d.reference.value, scope)))
    case _ => false
  }

  /** No number is written in an unknown or another kind of namespace, beyond its width, or with the wrong
      kind of scope. */
  lemma FormatRefused(r: Registry, namespace: string, n: int, scope: Option<string>, e: Error)
    requires Valid(r)
    ensures FormatSequentialReference(r, namespace, n, scope) == Failure(e) <==> FormatRefusal(r, namespace, n, scope, e)
  {
    hide *;
    forall d ensures Registered(r, namespace, d) <==> r.GetByPublicPrefix(namespace) == Some(d) { RegisteredIs(r, namespace, d); }
    FormatRefusalIs(r, namespace, n, scope, e, r.GetByPublicPrefix(namespace));
    RequiredCases(r, namespace);
    FormatOther(r, namespace, n, scope);
    if RequireReference(r, namespace).Success? && RequireReference(r, namespace).value.reference.value.Sequential? {
      var d := RequireReference(r, namespace).value;
      RequiredDefinition(r, namespace);
      SequentialWidth(r, d);
      FormatUnfold(r, namespace, n, scope, d);
      FormatCases(r, namespace, n, scope, d);
    }
  }

  lemma FormatRefusalIs(
    r: Registry, namespace: string, n: int, scope: Option<string>, e: Error, found: Option<Definition>)
    requires forall d :: Registered(r, namespace, d) <==> found == Some(d)
    ensures FormatRefusal(r, namespace, n, scope, e)
            <==> if found.None? then e == UnknownNamespace
                 else if !(found.value.reference.Some? && found.value.reference.value.Sequential?) then
                   e == InvalidNamespaceDefinition
                 else if n < 0 then e == InvalidRef
                 else if n >= Pow(10, found.value.reference.value.width) then e == SequenceOverflow
                 else !ScopeFits(found.value.reference.value, scope) && e == InvalidRef
  {
    hide Registered, ScopeFits, Pow;
    if found.Some? { assert Registered(r, namespace, found.value); }
  }

  lemma FormatOther(r: Registry, namespace: string, n: int, scope: Option<string>)
    ensures RequireReference(r, namespace).Failure? ==>
              FormatSequentialReference(r, namespace, n, scope) == Failure(RequireReference(r, namespace).error)
    ensures RequireReference(r, namespace).Success? ==> RequireReference(r, namespace).value.reference.Some?
    ensures RequireReference(r, namespace).Success? && RequireReference(r, namespace).value.reference.value.Random? ==>
              FormatSequentialReference(r, namespace, n, scope) == Failure(InvalidNamespaceDefinition)
  {
    hide ToDecimal, PadStart, CheckSymbol, FormatSequentialParts;
  }

  // ----- allocation

  /** The row of a counter is one the schema takes: no scope or four digits, and a reference prefix. */
  predicate SchemaTakes(q: Request)
  {
    (q.key.scope == [] || (|q.key.scope| == 4 && forall i :: 0 <= i < 4 ==> IsDigit(q.key.scope[i])))
    && UpperLettersOnly(q.prefix)
  }

  predicate OtherPolicy(t: Tables, q: Request)
  {
    q.key in t.counters && (t.counters[q.key].prefix != q.prefix || t.counters[q.key].width != q.width)
  }

  /** The MID already has a number under the key. */
  ghost predicate Numbered(t: Tables, q: Request)
  {
    MachineIdToBytes(q.machineId).Some? && exists n: nat :: Bound(t, q.key, n, MachineIdToBytes(q.machineId).value)
  }

  ghost predicate AllocationRefusal(t: Tables, q: Request, e: Error)
  {
    if !(4 <= q.width <= 18) then e == InvalidAllocationPolicy
    else if MachineIdToBytes(q.machineId).None? then e == InvalidMid
    else if Numbered(t, q) then e == InvalidAllocationPolicy && OtherPolicy(t, q)
    else match e
      case AllocationConflict => !SchemaTakes(q)
      case InvalidAllocationPolicy =>
        SchemaTakes(q) && (OtherPolicy(t, q) || (q.key !in t.counters && PrefixTaken(t, q.key, q.prefix)))
      case SequenceOverflow =>
        SchemaTakes(q) && q.key in t.counters && !OtherPolicy(t, q) && t.counters[q.key].last + 1 >= Pow(10, q.width)
      case _ => false
  }

  /** No number is given for a bad width or MID, for another policy than that of the key, beyond what the
      width holds, or where the schema refuses the counter. */
  lemma AllocationRefused(t: Tables, q: Request, e: Error)
    requires Inv(t)
    ensures Allocation(t, q).0 == Failure(e) <==> AllocationRefusal(t, q, e)
  {
    hide *;
    AllocationRefusalIs(t, q, e);
    AllocationSteps(t, q);
    if 4 <= q.width <= 18 && MachineIdToBytes(q.machineId).Some? {
      var machine := MachineIdToBytes(q.machineId).value;
      NumberedExactly(t, q, machine);
      if Replay(t, q.key, machine).Some? {
        PolicyOfBound(t, q, Replay(t, q.key, machine).value, machine);
      } else {
        SchemaExactly(q);
        RefusalExactly(t, q);
      }
    }
  }

  lemma AllocationRefusalIs(t: Tables, q: Request, e: Error)
    ensures !(4 <= q.width <= 18) ==> (AllocationRefusal(t, q, e) <==> e == InvalidAllocationPolicy)
    ensures 4 <= q.width <= 18 && MachineIdToBytes(q.machineId).None? ==> (AllocationRefusal(t, q, e) <==> e == InvalidMid)
    ensures 4 <= q.width <= 18 && MachineIdToBytes(q.machineId).Some? && Numbered(t, q) ==>
              (AllocationRefusal(t, q, e) <==> e == InvalidAllocationPolicy && OtherPolicy(t, q))
    ensures 4 <= q.width <= 18 && MachineIdToBytes(q.machineId).Some? && !Numbered(t, q) ==>
              (AllocationRefusal(t, q, e)
               <==> (e == AllocationConflict && !SchemaTakes(q))
                    || (e == InvalidAllocationPolicy && SchemaTakes(q)
                        && (OtherPolicy(t, q) || (q.key !in t.counters && PrefixTaken(t, q.key, q.prefix))))
                    || (e == SequenceOverflow && SchemaTakes(q) && q.key in t.counters && !OtherPolicy(t, q)
                        && t.counters[q.key].last + 1 >= Pow(10, q.width)))
  {
    hide MachineIdToBytes, Numbered, OtherPolicy, SchemaTakes, PrefixTaken, Pow;
  }

  lemma AllocationSteps(t: Tables, q: Request)
    ensures !(4 <= q.width <= 18) ==> Allocation(t, q).0 == Failure(InvalidAllocationPolicy)
    ensures 4 <= q.width <= 18 && MachineIdToBytes(q.machineId).None? ==> Allocation(t, q).0 == Failure(InvalidMid)
    ensures 4 <= q.width <= 18 && MachineIdToBytes(q.machineId).Some? ==>
              match Replay(t, q.key, MachineIdToBytes(q.machineId).value)
              case Some(n) =>
                Slot(q.key, n) in t.bindings
                && Allocation(t, q).0
                   == if SamePolicy(t.bindings[Slot(q.key, n)].prefix, t.bindings[Slot(q.key, n)].width, q) then Success(n)
                      else Failure(InvalidAllocationPolicy)
              case None =>
                if !CounterRowOk(q.key, q.prefix, q.width) then Allocation(t, q).0 == Failure(AllocationConflict)
                else match Refusal(WithCounter(t, q), q)
                  case Some(e) => Allocation(t, q).0 == Failure(e)
                  case None => Allocation(t, q).0.Success?
  {
    hide MachineIdToBytes, Replay, SamePolicy, CounterRowOk, Refusal, WithCounter, Advanced, Last;
  }

  lemma NumberedExactly(t: Tables, q: Request, machine: Bytes)
    requires MachineIdToBytes(q.machineId) == Some(machine)
    ensures Numbered(t, q) <==> Replay(t, q.key, machine).Some?
  {
    hide MachineIdToBytes;
  }

  lemma PolicyOfBound(t: Tables, q: Request, n: nat, machine: Bytes)
    requires Inv(t) && Replay(t, q.key, machine) == Some(n) && Slot(q.key, n) in t.bindings
    ensures SamePolicy(t.bindings[Slot(q.key, n)].prefix, t.bindings[Slot(q.key, n)].width, q) <==> !OtherPolicy(t, q)
  {
    hide CountersOk, PrefixesUnique, MachinesUnique, Replay;
  }

  lemma SchemaExactly(q: Request)
    requires 4 <= q.width <= 18
    ensures CounterRowOk(q.key, q.prefix, q.width) <==> SchemaTakes(q)
  {
  }

  lemma RefusalExactly(t: Tables, q: Request)
    requires 4 <= q.width <= 18
    ensures Refusal(WithCounter(t, q), q)
            == if OtherPolicy(t, q) || (q.key !in t.counters && PrefixTaken(t, q.key, q.prefix)) then Some(InvalidAllocationPolicy)
               else if q.key in t.counters && t.counters[q.key].last + 1 >= Pow(10, q.width) then Some(SequenceOverflow)
               else None
  {
    MaximumPositive(q.width);
    hide PrefixTaken, Pow;
  }

  /** The rows a reservation is refused for: too short or too long, no lower-case letter in front of the
      namespace or a namespace that is too long, or a MID of another size. */
  lemma ReservationRefused(t: Tables, reference: string, m: Mapping)
    ensures Reservation(t, reference, m).0
            == if |reference| < 4 || |reference| > 100 || m.namespace == [] || |m.namespace| > 63
                  || m.namespace[0] < 'a' || m.namespace[0] > 'z' || |m.machine| != 16 then Failure(AllocationConflict)
               else Success(reference !in t.references)
  {
  }
}
