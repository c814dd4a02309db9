/** The classifier in front of the three parsers, and the normalizer behind it. */
module Unified {
  import opened Wrappers
  import opened Errors
  import opened Alphabet
  import opened Text
  import opened Hyphenation
  import opened Checksum
  import opened Registry
  import opened References
  import opened Formatting
  import opened MachineId
  import opened PublicId

  datatype Kind = Mid | Pid | Ref

  datatype ParsedIdentifier =
    | ParsedMid(value: string)
    | ParsedPid(value: string, namespace: string, machineId: string)
    | ParsedRef(value: string, reference: ParsedReference)

  predicate IsLetter(c: char) { IsUpper(c) || IsLower(c) }

  /** How many letters the text starts with. */
  function LetterRun(s: string): (n: nat)
    ensures n <= |s|
    ensures n < |s| ==> !IsLetter(s[n])
  {
    if s == [] || !IsLetter(s[0]) then 0 else 1 + LetterRun(s[1..])
  }

  /** Two to eight letters, then a hyphen or a digit. */
  predicate ReferenceLead(s: string)
  {
    var n := LetterRun(s);
    2 <= n <= 8 && n < |s| && (s[n] == '-' || IsDigit(s[n]))
  }

  function DetectIdentifierKind(value: string): Option<Kind>
  {
    if '_' in value then Some(Pid)
    else if Shaped(Lower(value)) then Some(Mid)
    else if ReferenceLead(value) then Some(Ref)
    else None
  }

  function ParseIdentifier(value: string, kind: Kind, r: Registry): Result<ParsedIdentifier, Error>
  {
    match kind
    case Mid =>
      (match ParseMachineId(value)
       case Failure(e) => Failure(e)
       case Success(mid) => Success(ParsedMid(mid)))
    case Pid =>
      (match ParsePublicId(value)
       case Failure(e) => Failure(e)
       case Success(parsed) =>
         if r.GetByPublicPrefix(parsed.namespace).None? then Failure(UnknownNamespace)
         else Success(ParsedPid(parsed.value, parsed.namespace, parsed.machineId)))
    case Ref =>
      match ParseReference(value, r)
      case Failure(e) => Failure(e)
      case Success(parsed) => Success(ParsedRef(parsed.value, parsed))
  }

  function Parse(value: string, r: Registry): Result<ParsedIdentifier, Error>
  {
    match DetectIdentifierKind(value)
    case None => Failure(InvalidKind)
    case Some(kind) => ParseIdentifier(value, kind, r)
  }

  // ----- canonical forms and their kinds

  lemma {:induction false} LetterRunOf(letters: string, rest: string)
    requires forall i :: 0 <= i < |letters| ==> IsLetter(letters[i])
    ensures LetterRun(letters + rest) == |letters| + LetterRun(rest)
  {
    if letters == [] {
      assert letters + rest == rest;
    } else {
      LetterRunOf(letters[1..], rest);
      assert (letters + rest)[1..] == letters[1..] + rest;
    }
  }

  lemma MachineKind(mid: string)
    requires IsMachineId(mid)
    ensures DetectIdentifierKind(mid) == Some(Mid) && |mid| == 36 && '_' !in mid && Lower(mid) == mid
  {
    LowerHex(mid);
    hide Lower, Hex;
    forall i | 0 <= i < |mid| ensures mid[i] != '_' {
      if !HyphenPlace(i) { HexNoUnderscore(mid[i]); }
    }
  }

  lemma HexNoUnderscore(c: char)
    requires c in Hex()
    ensures c != '_'
  {
  }

  lemma PublicKind(pid: string)
    requires ParsePublicId(pid).Success?
    ensures '_' in pid && DetectIdentifierKind(pid) == Some(Pid)
  {
    var i, v := AcceptedPid(pid);
  }

  /** The canonical text of a reference is classified as a reference. */
  lemma CanonicalKind(r: Registry, d: Definition, payload: string, check: char)
    requires Valid(r) && d in r.definitions && d.reference.Some? && Payload(d.reference.value, payload, check)
    ensures |payload| == PayloadLength(d.reference.value)
    ensures var s := Canonical(d.reference.value, payload, check);
            DetectIdentifierKind(s) == Some(Ref) && |s| <= 34 && '_' !in s
  {
    hide *;
    var ref, c := d.reference.value, payload + [check];
    PayloadReads(ref, payload, check);
    AcceptsNormal(ref, c, payload);
    AcceptedSymbols(ref, c, payload);
    DefinitionBounds(r, d);
    NoUnderscore(c);
    CanonicalUpper(ref, payload, check);
    CanonicalParses(r, d, payload, check);
    var s := Canonical(ref, payload, check);
    var body := BehindPrefix(ref, payload, check);
    LeadOf(s, ref.prefix, body);
    KindOfReference(s);
  }

  lemma AcceptsNormal(ref: Reference, c: string, payload: string)
    requires Accepts(ref, c, payload)
    ensures |payload| == PayloadLength(ref)
  {
  }

  lemma NoUnderscore(c: string)
    requires forall i :: 0 <= i < |c| ==> c[i] != '_'
    ensures '_' !in c
  {
  }

  lemma BehindPrefix(ref: Reference, payload: string, check: char) returns (body: string)
    requires |payload| == PayloadLength(ref)
    ensures Canonical(ref, payload, check) == ref.prefix + ("-" + body)
  {
    GroupSum(ref);
    body := Hyphenate(payload + [check], GroupLengths(ref));
    Associate(ref.prefix, "-", body);
  }

  lemma LeadOf(s: string, prefix: string, body: string)
    requires ReferencePrefixValid(prefix) && s == prefix + ("-" + body)
    ensures ReferenceLead(s)
  {
    LetterRunOf(prefix, "-" + body);
  }

  lemma KindOfReference(s: string)
    requires '_' !in s && |s| < 36 && ReferenceLead(s)
    ensures DetectIdentifierKind(s) == Some(Ref)
  {
  }

  /** Normalizing keeps the kind and is idempotent, for every accepted text: the normal form is
      classified alike and parses to the very same result. */
  lemma NormalizeIdempotent(value: string, r: Registry)
    requires Valid(r) && Parse(value, r).Success?
    ensures var normal := Parse(value, r).value.value;
            DetectIdentifierKind(normal) == DetectIdentifierKind(value) && Parse(normal, r) == Parse(value, r)
  {
    hide *;
    ParseUnfolded(value, r);
    var kind := DetectIdentifierKind(value).value;
    match kind {
      case Mid => MachineFixed(value, r);
      case Pid => PublicFixed(value, r);
      case Ref => ReferenceFixed(value, r);
    }
  }

  lemma ParseUnfolded(value: string, r: Registry)
    requires Parse(value, r).Success?
    ensures DetectIdentifierKind(value).Some?
    ensures Parse(value, r) == ParseIdentifier(value, DetectIdentifierKind(value).value, r)
  {
  }

  lemma MachineFixed(value: string, r: Registry)
    requires DetectIdentifierKind(value) == Some(Mid) && Parse(value, r).Success?
    ensures var normal := Parse(value, r).value.value;
            DetectIdentifierKind(normal) == Some(Mid) && Parse(normal, r) == Parse(value, r)
  {
    hide DetectIdentifierKind, ParseMachineId, IsMachineId;
    ParseIsCanonical(value);
    var mid := ParseMachineId(value).value;
    MachineKind(mid);
    MachineSelf(mid);
  }

  lemma PublicFixed(value: string, r: Registry)
    requires DetectIdentifierKind(value) == Some(Pid) && Parse(value, r).Success?
    ensures Parse(value, r).value.value == value
  {
    hide DetectIdentifierKind, ParsePublicId;
    PublicToMachineToPublic(value);
  }

  lemma ReferenceFixed(value: string, r: Registry)
    requires Valid(r) && DetectIdentifierKind(value) == Some(Ref) && Parse(value, r).Success?
    ensures var normal := Parse(value, r).value.value;
            DetectIdentifierKind(normal) == Some(Ref) && Parse(normal, r) == Parse(value, r)
  {
    ReferenceParsed(value, r);
    hide *;
    var d, c, payload := AcceptedIsWritten(value, r);
    AcceptsPayload(d.reference.value, c, payload);
    AcceptsLength(d.reference.value, c, payload);
    CanonicalKind(r, d, payload, c[|c| - 1]);
    ParsedValue(d, payload, c[|c| - 1]);
    ParseIdempotent(value, r);
    ReferenceParses(ParseReference(value, r).value.value, r);
  }

  lemma ReferenceParsed(value: string, r: Registry)
    requires DetectIdentifierKind(value) == Some(Ref) && Parse(value, r).Success?
    ensures ParseReference(value, r).Success?
    ensures Parse(value, r) == Success(ParsedRef(ParseReference(value, r).value.value, ParseReference(value, r).value))
  {
  }

  lemma ReferenceParses(value: string, r: Registry)
    requires DetectIdentifierKind(value) == Some(Ref) && ParseReference(value, r).Success?
    ensures Parse(value, r) == Success(ParsedRef(ParseReference(value, r).value.value, ParseReference(value, r).value))
  {
  }

  /** A text with an underscore is accepted exactly when it is a PID of a registered namespace; any other
      PID is refused as of an unknown namespace. */
  lemma PublicAccepted(value: string, r: Registry, x: ParsedIdentifier)
    requires Valid(r) && '_' in value
    ensures Parse(value, r) == Success(x)
            <==> ParsePublicId(value).Success? && (exists d :: d in r.definitions && d.publicPrefix == ParsePublicId(value).value.namespace)
                 && x == ParsedPid(value, ParsePublicId(value).value.namespace, ParsePublicId(value).value.machineId)
    ensures ParsePublicId(value).Success?
            && (forall d :: d in r.definitions ==> d.publicPrefix != ParsePublicId(value).value.namespace) ==>
              Parse(value, r) == Failure(UnknownNamespace)
  {
    if ParsePublicId(value).Success? {
      PublicToMachineToPublic(value);
      PublicRegistered(r, ParsePublicId(value).value.namespace);
    }
    hide ParsePublicId, PublicIdFromMachineId, Valid;
  }

  lemma PublicRegistered(r: Registry, namespace: string)
    requires Valid(r)
    ensures r.GetByPublicPrefix(namespace).Some? <==> exists d :: d in r.definitions && d.publicPrefix == namespace
  {
    hide DefinitionValid, PairwiseCompatible, ReferenceIndex;
    if d :| d in r.definitions && d.publicPrefix == namespace {
      var i :| 0 <= i < |r.definitions| && r.definitions[i] == d;
    }
    if namespace in r.byPublicPrefix { assert r.byPublicPrefix[namespace] in r.definitions; }
  }

  /** A text is read as a MID exactly when its lower-case form is one, which is then the value. */
  lemma MachineAccepted(value: string, r: Registry, mid: string)
    ensures Parse(value, r) == Success(ParsedMid(mid)) <==> mid == Lower(value) && IsMachineId(mid)
    ensures IsMachineId(Lower(value)) ==> DetectIdentifierKind(value) == Some(Mid)
  {
    MachineParsed(value, mid);
    if IsMachineId(Lower(value)) { MachineKind(Lower(value)); UnderscoreLower(value); }
    hide ParseMachineId, ParsePublicId, ParseReference, Lower, ReferenceLead, Shaped;
  }

  lemma UnderscoreLower(value: string)
    ensures '_' in Lower(value) <==> '_' in value
  {
    if i :| 0 <= i < |value| && value[i] == '_' { assert Lower(value)[i] == '_'; }
    if i :| 0 <= i < |value| && Lower(value)[i] == '_' { assert value[i] == '_'; }
  }

  /** A canonical MID, a PID and a canonical reference are never the same text: the classifier tells
      them apart, each parses as what it is, and each is its own normal form. */
  lemma KindsDisjoint(mid: string, pid: string, ref: string, r: Registry)
    requires Valid(r) && IsMachineId(mid)
    requires ParsePublicId(pid).Success? && r.GetByPublicPrefix(ParsePublicId(pid).value.namespace).Some?
    requires ParseReference(ref, r).Success? && ParseReference(ref, r).value.value == ref
    ensures DetectIdentifierKind(mid) == Some(Mid) && DetectIdentifierKind(pid) == Some(Pid)
    ensures DetectIdentifierKind(ref) == Some(Ref) && mid != pid && pid != ref && ref != mid
    ensures Parse(mid, r) == Success(ParsedMid(mid))
    ensures Parse(pid, r) == Success(ParsedPid(pid, ParsePublicId(pid).value.namespace, ParsePublicId(pid).value.machineId))
    ensures Parse(ref, r) == Success(ParsedRef(ref, ParseReference(ref, r).value))
  {
    hide DetectIdentifierKind, ParseReference, ParseMachineId, IsMachineId, ParsePublicId, Valid;
    MachineKind(mid);
    MachineSelf(mid);
    PublicKind(pid);
    PublicToMachineToPublic(pid);
    CanonicalReferenceKind(ref, r);
  }

  lemma CanonicalReferenceKind(ref: string, r: Registry)
    requires Valid(r) && ParseReference(ref, r).Success? && ParseReference(ref, r).value.value == ref
    ensures DetectIdentifierKind(ref) == Some(Ref)
  {
    hide *;
    var d, c, payload := AcceptedIsWritten(ref, r);
    AcceptsPayload(d.reference.value, c, payload);
    AcceptsLength(d.reference.value, c, payload);
    CanonicalKind(r, d, payload, c[|c| - 1]);
    ParsedValue(d, payload, c[|c| - 1]);
  }

  // ----- where the classifier is narrower than the parser

  /** The classifier passes on exactly those acceptable references that start with at most eight
      letters; hyphenless ones with a longer run are refused although the parser accepts them. */
  lemma ClassifierGap(value: string, r: Registry)
    requires Valid(r) && ParseReference(value, r).Success?
    ensures Parse(value, r).Success? <==> LetterRun(value) <= 8
    ensures LetterRun(value) > 8 ==> Parse(value, r) == Failure(InvalidKind) && '-' !in value
  {
    hide *;
    var d, c, payload := AcceptedIsWritten(value, r);
    var ref := d.reference.value;
    AcceptsLength(ref, c, payload);
    ParseWritten(value, r, d, c, payload);
    DefinitionBounds(r, d);
    WrittenPermitted(value, ref, c, payload);
    NoUnderscore(value);
    if '-' in value {
      HyphenatedLead(value, ref, c, payload);
    } else {
      if ref.Random? { RandomLength(r, d); }
      JoinedLead(value, ref, c, payload);
    }
    LeadDecides(value, r);
  }

  lemma LeadDecides(value: string, r: Registry)
    requires '_' !in value && |value| <= 34 && ParseReference(value, r).Success?
    ensures ReferenceLead(value) ==> Parse(value, r).Success?
    ensures !ReferenceLead(value) ==> Parse(value, r) == Failure(InvalidKind)
  {
    hide ParseReference, ReferenceLead, LetterRun;
  }

  lemma {:induction false} RunIgnoresCase(s: string)
    ensures LetterRun(Upper(s)) == LetterRun(s)
  {
    if s != [] {
      assert Upper(s)[1..] == Upper(s[1..]);
      RunIgnoresCase(s[1..]);
    }
  }

  lemma HyphenatedLead(value: string, ref: Reference, c: string, payload: string)
    requires ReferencePrefixValid(ref.prefix) && Accepts(ref, c, payload) && |c| == PayloadLength(ref) + 1
    requires Written(Upper(value), ref, c) && '-' in value
    ensures LetterRun(value) <= 8 && ReferenceLead(value)
  {
    hide *;
    AcceptedSymbols(ref, c, payload);
    var body := HyphenatedBody(value, ref, c);
    LeadOf(Upper(value), ref.prefix, body);
    LeadIgnoresCase(value);
  }

  lemma HyphenatedBody(value: string, ref: Reference, c: string) returns (body: string)
    requires ReferencePrefixValid(ref.prefix) && |c| == PayloadLength(ref) + 1 && '-' !in c
    requires Written(Upper(value), ref, c) && '-' in value
    ensures Upper(value) == ref.prefix + ("-" + body)
  {
    GroupSum(ref);
    hide GroupLengths, PayloadLength, Hyphenate;
    PrefixHyphenFree(ref.prefix);
    var k :| 0 <= k < |value| && value[k] == '-';
    assert Upper(value)[k] == '-';
    assert Upper(value) != ref.prefix + c by {
      assert Upper(value) == ref.prefix + c ==> '-' in ref.prefix + c;
    }
    body := if Upper(value) == ref.prefix + "-" + c then c else Hyphenate(c, GroupLengths(ref));
    Associate(ref.prefix, "-", body);
  }

  lemma LeadIgnoresCase(s: string)
    requires ReferenceLead(Upper(s))
    ensures ReferenceLead(s) && LetterRun(s) <= 8
  {
    RunIgnoresCase(s);
  }

  lemma JoinedLead(value: string, ref: Reference, c: string, payload: string)
    requires ReferencePrefixValid(ref.prefix) && Accepts(ref, c, payload) && |c| == PayloadLength(ref) + 1
    requires Written(Upper(value), ref, c) && '-' !in value && PayloadLength(ref) >= 4
    requires ref.Random? ==> PayloadLength(ref) >= 8
    ensures ReferenceLead(value) <==> LetterRun(value) <= 8
  {
    hide *;
    AcceptedSymbols(ref, c, payload);
    JoinedText(value, ref, c);
    RunIgnoresCase(value);
    var n := LetterRun(value);
    PrefixLetters(ref.prefix);
    LetterRunOf(ref.prefix, c);
    if n <= 8 {
      FirstNonLetter(ref, c, payload);
      JoinedLeadAt(value, ref, c);
    } else {
      LongRun(value);
    }
  }

  lemma JoinedText(value: string, ref: Reference, c: string)
    requires |c| == PayloadLength(ref) + 1 && Written(Upper(value), ref, c) && '-' !in value
    ensures Upper(value) == ref.prefix + c
  {
    GroupSum(ref);
    hide GroupLengths, PayloadLength, Hyphenate;
    NoHyphenUpper(value);
    HyphenInside(ref.prefix, c);
    HyphenInside(ref.prefix, Hyphenate(c, GroupLengths(ref)));
  }

  lemma NoHyphenUpper(value: string)
    requires '-' !in value
    ensures '-' !in Upper(value)
  {
  }

  lemma HyphenInside(a: string, b: string)
    ensures '-' in a + "-" + b
  {
    assert (a + "-" + b)[|a|] == '-';
  }

  lemma PrefixLetters(p: string)
    requires ReferencePrefixValid(p)
    ensures 2 <= |p| <= 8 && forall i :: 0 <= i < |p| ==> IsLetter(p[i])
  {
  }

  lemma LongRun(value: string)
    requires LetterRun(value) > 8
    ensures !ReferenceLead(value)
  {
  }

  /** Within eight letters of the start there is payload left, so the run ends at a digit. */
  lemma FirstNonLetter(ref: Reference, c: string, payload: string)
    requires Accepts(ref, c, payload) && |c| == PayloadLength(ref) + 1 && PayloadLength(ref) >= 4
    requires LetterRun(c) <= 6 && (ref.Random? ==> PayloadLength(ref) >= 8)
    ensures LetterRun(c) < |c| && IsDigit(c[LetterRun(c)])
  {
    hide *;
    var k, n := LetterRun(c), |c| - 1;
    AcceptedNormal(ref, c, payload);
    if ref.Sequential? {
      SequentialDigit(ref, c, payload);
    } else {
      PayloadSymbol(ref, c[..n], payload, k);
      NotLetter(c[k]);
    }
  }

  lemma NotLetter(c: char)
    requires !IsLetter(c) && (IsUpper(c) || IsDigit(c))
    ensures IsDigit(c)
  {
  }

  lemma AcceptedNormal(ref: Reference, c: string, payload: string)
    requires Accepts(ref, c, payload)
    ensures |c| > 0 && NormalPayload(ref, c[..|c| - 1]) == Success(payload)
  {
  }

  lemma SequentialDigit(ref: Reference, c: string, payload: string)
    requires Accepts(ref, c, payload) && ref.Sequential? && PayloadLength(ref) >= 4
    ensures |c| > 0 && LetterRun(c) == 0 && IsDigit(c[0])
  {
    hide Decimal, CheckSymbol, PayloadLength;
    assert c[..|c| - 1][0] in Decimal();
    DecimalSymbol(c[0]);
  }

  lemma JoinedLeadAt(value: string, ref: Reference, c: string)
    requires Upper(value) == ref.prefix + c && 2 <= |ref.prefix| && LetterRun(value) <= 8
    requires LetterRun(value) == |ref.prefix| + LetterRun(c) && LetterRun(c) < |c| && IsDigit(c[LetterRun(c)])
    ensures ReferenceLead(value)
  {
    hide LetterRun;
    var n := LetterRun(value);
    assert Upper(value)[n] == c[LetterRun(c)];
  }

  /** Every random namespace has such references. */
  lemma HyphenlessRefused(r: Registry, d: Definition) returns (value: string)
    requires Valid(r) && d in r.definitions && d.reference.Some? && d.reference.value.Random?
    ensures ParseReference(value, r).Success? && Parse(value, r) == Failure(InvalidKind)
  {
    hide *;
    var ref := d.reference.value;
    var n := PayloadLength(ref);
    DefinitionBounds(r, d);
    RandomLength(r, d);
    var payload := AllA(n);
    var check := ChecksOut(ref, payload);
    var c := payload + [check];
    value := ref.prefix + c;
    PayloadReads(ref, payload, check);
    AcceptedSymbols(ref, c, payload);
    JoinedUpper(ref, c);
    assert c[|c| - 1] == check;
    ParseWritten(value, r, d, c, payload);
    PrefixLetters(ref.prefix);
    LettersOnly(payload);
    Associate(ref.prefix, payload, [check]);
    LetterRunOf(ref.prefix + payload, [check]);
    ClassifierGap(value, r);
  }

  lemma RandomLength(r: Registry, d: Definition)
    requires Valid(r) && d in r.definitions && d.reference.Some? && d.reference.value.Random?
    ensures PayloadLength(d.reference.value) >= 8
  {
    var i :| 0 <= i < |r.definitions| && r.definitions[i] == d;
    assert DefinitionValid(d);
  }

  function AllA(n: nat): (s: string)
    ensures |s| == n
  {
    seq(n, i => 'A')
  }

  lemma LettersOnly(s: string)
    requires s == AllA(|s|)
    ensures forall i :: 0 <= i < |s| ==> IsLetter(s[i])
  {
  }

  lemma ChecksOut(ref: Reference, payload: string) returns (check: char)
    requires ref.Random? && |payload| == PayloadLength(ref) > 0 && payload == AllA(|payload|)
    ensures Payload(ref, payload, check)
  {
    DataAscends();
    assert Data()[10] == 'A';
    hide Data;
    assert Read(payload, Data()).Some?;
    check := CheckSymbol(payload, Data()).value;
  }

  lemma JoinedUpper(ref: Reference, c: string)
    requires ReferencePrefixValid(ref.prefix) && |c| == PayloadLength(ref) + 1
    requires forall i :: 0 <= i < |c| ==> !IsLower(c[i])
    ensures Written(Upper(ref.prefix + c), ref, c)
  {
    hide PayloadLength, GroupLengths, Hyphenate;
    assert Upper(ref.prefix + c) == ref.prefix + c;
  }
}
