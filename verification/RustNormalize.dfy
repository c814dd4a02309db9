/** The Rust normalizer, and how it relates to the TypeScript parser. */
module RustNormalize {
  import opened Wrappers
  import opened Errors
  import opened Alphabet
  import opened Positional
  import opened Text
  import opened Hyphenation
  import opened DecimalText
  import opened Checksum
  import opened Registry
  import opened References
  import opened Formatting
  import opened MachineId
  import opened PublicId

  /** The Rust lookup by public prefix: the first definition in the list. */
  function Find(ds: seq<Definition>, namespace: string): (d: Option<Definition>)
    ensures d.Some? ==> d.value in ds && d.value.publicPrefix == namespace
    ensures d.None? ==> forall i :: 0 <= i < |ds| ==> ds[i].publicPrefix != namespace
  {
    if ds == [] then None
    else if ds[0].publicPrefix == namespace then Some(ds[0])
    else assert ds == [ds[0]] + ds[1..]; Find(ds[1..], namespace)
  }

  /** `format_sequential_reference`, which looks the namespace up again by its public prefix. */
  function RustFormatSequential(ds: seq<Definition>, namespace: string, sequence: string, scope: string): Result<string, Error>
  {
    match Find(ds, namespace)
    case None => Failure(UnknownNamespace)
    case Some(d) =>
      if d.reference.None? || d.reference.value.Random? then Failure(UnknownNamespace)
      else
        var ref := d.reference.value;
        if |sequence| > ref.width || exists i :: 0 <= i < |sequence| && !IsDigit(sequence[i]) then Failure(SequenceOverflow)
        else
          var padded := PadStart(sequence, ref.width);
          var payload := scope + padded;
          if Read(payload, Decimal()).None? || payload == [] then Failure(InvalidRefSymbol)
          else
            var check := CheckSymbol(payload, Decimal()).value;
            Success(if scope == [] then ref.prefix + "-" + padded + "-" + [check]
                    else ref.prefix + "-" + scope + "-" + padded + "-" + [check])
  }

  /** Pieces of four symbols, the last one shorter. */
  function Chunks(s: string): seq<string>
  {
    if s == [] then [] else if |s| < 4 then [s] else [s[..4]] + Chunks(s[4..])
  }

  function Grouped(s: string): string
  {
    Join(Chunks(s))
  }

  /** Chunking and joining gives the hyphens of the canonical form. */
  lemma {:induction false} ChunksTrailing(s: string, check: char)
    ensures Sum(RandomLengths(|s|)) == |s + [check]|
    ensures Trailing(Chunks(s)) + [check] == Hyphenate(s + [check], RandomLengths(|s|))
  {
    var c := s + [check];
    if s == [] {
      assert c == [check];
    } else {
      var m := if |s| < 4 then |s| else 4;
      RandomUnfold(|s|);
      ChunksTrailing(s[m..], check);
      assert c[..m] == s[..m] && c[m..] == s[m..] + [check];
      ChunksUnfold(s, m);
      hide Chunks, RandomLengths;
      Associate(s[..m] + "-", Trailing(Chunks(s[m..])), [check]);
    }
  }

  lemma ChunksUnfold(s: string, m: nat)
    requires s != [] && m == if |s| < 4 then |s| else 4
    ensures Trailing(Chunks(s)) == s[..m] + "-" + Trailing(Chunks(s[m..])) && Chunks(s) != []
  {
    if |s| < 4 {
      assert s[..m] == s && s[m..] == [];
    }
    assert ([s[..m]] + Chunks(s[m..]))[1..] == Chunks(s[m..]);
  }

  lemma GroupedCanonical(prefix: string, payload: string, check: char)
    requires payload != []
    ensures prefix + "-" + Grouped(payload) + "-" + [check] == Canonical(Random(prefix, |payload|), payload, check)
  {
    ChunksTrailing(payload, check);
    ChunksUnfold(payload, if |payload| < 4 then |payload| else 4);
    JoinTrailing(Chunks(payload));
    Associate(prefix + "-", Join(Chunks(payload)), "-");
    Associate(prefix + "-", Join(Chunks(payload)) + "-", [check]);
    hide Hyphenate, RandomLengths, Trailing, Join, Chunks;
  }

  /** The part of `normalize` behind the prefix. */
  function RustBody(ds: seq<Definition>, d: Definition, body: string): Result<string, Error>
    requires d.reference.Some?
  {
    var ref, n := d.reference.value, PayloadLength(d.reference.value);
    if |body| != n + 1 then Failure(InvalidRefLength)
    else
      var raw, supplied := body[..n], body[n];
      if ref.Sequential? then
        match CheckSymbol(raw, Decimal())
        case Failure(_) => Failure(InvalidRefSymbol)
        case Success(expected) =>
          if supplied != expected then Failure(InvalidChecksum)
          else
            var scopeLength := if HasScope(ref) then 4 else 0;
            RustFormatSequential(ds, d.publicPrefix, raw[scopeLength..], raw[..scopeLength])
      else
        match CheckSymbol(Aliased(raw), Data())
        case Failure(_) => Failure(InvalidRefSymbol)
        case Success(expected) =>
          if supplied != expected then Failure(InvalidChecksum)
          else Success(ref.prefix + "-" + Grouped(Aliased(raw)) + "-" + [supplied])
  }

  function Normalize(value: string, ds: seq<Definition>): Result<string, Error>
  {
    if '_' in value then
      match ParsePublicId(value)
      case Failure(e) => Failure(e)
      case Success(parsed) =>
        if Find(ds, parsed.namespace).None? then Failure(UnknownNamespace) else Success(parsed.value)
    else if |value| == 36 then ParseMachineId(value)
    else
      var compact := Compact(Upper(value));
      match FirstStarting(ds, compact)
      case None => Failure(UnknownNamespace)
      case Some(d) => RustBody(ds, d, compact[|d.reference.value.prefix|..])
  }

  /** A text with an underscore is normalized exactly when it is a PID of a registered namespace, to itself. */
  lemma RustPublic(value: string, r: Registry, x: string)
    requires '_' in value
    ensures Normalize(value, r.definitions) == Success(x)
            <==> ParsePublicId(value).Success? && x == value
                 && exists d :: d in r.definitions && d.publicPrefix == ParsePublicId(value).value.namespace
  {
    if ParsePublicId(value).Success? { PublicToMachineToPublic(value); }
    hide ParsePublicId, PublicIdFromMachineId;
  }

  /** A text of 36 characters without underscore is normalized exactly when it is a MID in some letter case,
      to its lower-case form. */
  lemma RustMachine(value: string, ds: seq<Definition>, x: string)
    requires '_' !in value && |value| == 36
    ensures Normalize(value, ds) == Success(x) <==> x == Lower(value) && IsMachineId(x)
  {
    MachineParsed(value, x);
    hide ParseMachineId, IsMachineId, Lower;
  }

  lemma FindRegistered(r: Registry, d: Definition)
    requires Valid(r) && d in r.definitions
    ensures Find(r.definitions, d.publicPrefix) == Some(d)
  {
    var found := Find(r.definitions, d.publicPrefix);
    var i :| 0 <= i < |r.definitions| && r.definitions[i] == d;
    assert found.Some?;
    var j :| 0 <= j < |r.definitions| && r.definitions[j] == found.value;
    if i < j { CompatiblePublic(r, i, j); } else if j < i { CompatiblePublic(r, j, i); }
  }

  lemma CompatiblePublic(r: Registry, i: nat, j: nat)
    requires Valid(r) && i < j < |r.definitions|
    ensures r.definitions[i].publicPrefix != r.definitions[j].publicPrefix
  {
    assert Compatible(r.definitions[i], r.definitions[j]);
  }

  /** An accepted body and the canonical text it stands for. */
  ghost predicate Denotes(ref: Reference, body: string, s: string)
  {
    exists payload :: DenotesAs(ref, body, payload, s)
  }

  ghost predicate DenotesAs(ref: Reference, body: string, payload: string, s: string)
  {
    Accepts(ref, body, payload) && |payload| == PayloadLength(ref) && s == Canonical(ref, payload, body[|body| - 1])
  }

  /** A body is normalized exactly when it is accepted, to the canonical text. */
  lemma RustBodyAccepts(r: Registry, d: Definition, body: string, s: string)
    requires Valid(r) && d in r.definitions && d.reference.Some?
    ensures RustBody(r.definitions, d, body) == Success(s) <==> Denotes(d.reference.value, body, s)
  {
    var ref := d.reference.value;
    if |body| == PayloadLength(ref) + 1 {
      DefinitionBounds(r, d);
      if ref.Sequential? {
        RustSequentialBody(r, d, body, s);
      } else {
        RustRandomBody(r, d, body, s);
      }
    }
  }

  lemma RustRandomBody(r: Registry, d: Definition, body: string, s: string)
    requires d.reference.Some? && d.reference.value.Random? && |body| == PayloadLength(d.reference.value) + 1
    requires PayloadLength(d.reference.value) > 0
    ensures RustBody(r.definitions, d, body) == Success(s) <==> Denotes(d.reference.value, body, s)
  {
    var ref, n := d.reference.value, |body| - 1;
    var payload := Aliased(body[..n]);
    GroupedCanonical(ref.prefix, payload, body[n]);
    hide Canonical, Data, CheckAt, Grouped;
    if Denotes(ref, body, s) {
      var p :| DenotesAs(ref, body, p, s);
      assert p == payload;
    }
    if RustBody(r.definitions, d, body) == Success(s) {
      assert DenotesAs(ref, body, payload, s);
    }
  }

  lemma RustSequentialBody(r: Registry, d: Definition, body: string, s: string)
    requires Valid(r) && d in r.definitions
    requires d.reference.Some? && d.reference.value.Sequential? && |body| == PayloadLength(d.reference.value) + 1
    requires PayloadLength(d.reference.value) > 0
    ensures RustBody(r.definitions, d, body) == Success(s) <==> Denotes(d.reference.value, body, s)
  {
    hide *;
    var ref, n := d.reference.value, |body| - 1;
    var raw := body[..n];
    SequentialWidth(r, d);
    FindRegistered(r, d);
    SequentialSteps(r, d, body);
    if CheckSymbol(raw, Decimal()) == Success(body[n]) {
      RustFormats(r, d, raw, body[n]);
      MakeDenotes(ref, body, raw, Canonical(ref, raw, body[n]));
      if Denotes(ref, body, s) {
        DenotesRaw(ref, body, s);
      }
    } else if Denotes(ref, body, s) {
      DenotesRaw(ref, body, s);
    }
  }

  lemma MakeDenotes(ref: Reference, body: string, raw: string, s: string)
    requires ref.Sequential? && |body| == PayloadLength(ref) + 1 && raw == body[..|body| - 1]
    requires CheckSymbol(raw, Decimal()) == Success(body[|body| - 1]) && s == Canonical(ref, raw, body[|body| - 1])
    ensures Denotes(ref, body, s)
  {
    hide Canonical, Decimal, CheckAt;
    assert DenotesAs(ref, body, raw, s);
  }

  lemma DenotesRaw(ref: Reference, body: string, s: string)
    requires ref.Sequential? && |body| == PayloadLength(ref) + 1 && Denotes(ref, body, s)
    ensures var raw := body[..|body| - 1];
            CheckSymbol(raw, Decimal()) == Success(body[|body| - 1]) && s == Canonical(ref, raw, body[|body| - 1])
  {
    hide Canonical, Decimal, CheckAt;
    var p :| DenotesAs(ref, body, p, s);
  }

  lemma SequentialSteps(r: Registry, d: Definition, body: string)
    requires d.reference.Some? && d.reference.value.Sequential? && |body| == PayloadLength(d.reference.value) + 1
    ensures var raw, k := body[..|body| - 1], if HasScope(d.reference.value) then 4 else 0;
            if CheckSymbol(raw, Decimal()) == Success(body[|body| - 1])
            then RustBody(r.definitions, d, body) == RustFormatSequential(r.definitions, d.publicPrefix, raw[k..], raw[..k])
            else RustBody(r.definitions, d, body).Failure?
  {
    hide CheckSymbol, RustFormatSequential, Decimal;
  }

  /** Formatting the digits of an accepted payload again returns its canonical text. */
  lemma RustFormats(r: Registry, d: Definition, raw: string, check: char)
    requires d.reference.Some? && d.reference.value.Sequential? && |raw| == PayloadLength(d.reference.value) > 0
    requires Find(r.definitions, d.publicPrefix) == Some(d) && d.reference.value.width > 0
    requires CheckSymbol(raw, Decimal()) == Success(check)
    ensures var k := if HasScope(d.reference.value) then 4 else 0;
            RustFormatSequential(r.definitions, d.publicPrefix, raw[k..], raw[..k])
            == Success(Canonical(d.reference.value, raw, check))
  {
    var ref := d.reference.value;
    var k := if HasScope(ref) then 4 else 0;
    var sequence, scope := raw[k..], raw[..k];
    assert raw == scope + sequence;
    hide Canonical, CheckAt, Decimal;
    forall i | 0 <= i < |sequence| ensures IsDigit(sequence[i]) {
      assert sequence[i] == raw[k + i];
      DecimalSymbol(raw[k + i]);
    }
    SequentialTemplate(ref, if k == 4 then Some(scope) else None, sequence, check);
    if k == 0 { assert scope == []; }
  }

  /** Too many characters, or one that is no digit, and nothing else, is an overflow. */
  lemma RustFormatOverflow(r: Registry, d: Definition, sequence: string, scope: string)
    requires Valid(r) && d in r.definitions && d.reference.Some? && d.reference.value.Sequential?
    ensures RustFormatSequential(r.definitions, d.publicPrefix, sequence, scope) == Failure(SequenceOverflow)
            <==> |sequence| > d.reference.value.width || exists i :: 0 <= i < |sequence| && !IsDigit(sequence[i])
  {
    FindRegistered(r, d);
    hide *;
    OverflowOf(r.definitions, d, sequence, scope);
  }

  lemma OverflowOf(ds: seq<Definition>, d: Definition, sequence: string, scope: string)
    requires Find(ds, d.publicPrefix) == Some(d) && d.reference.Some? && d.reference.value.Sequential?
    ensures RustFormatSequential(ds, d.publicPrefix, sequence, scope) == Failure(SequenceOverflow)
            <==> |sequence| > d.reference.value.width || exists i :: 0 <= i < |sequence| && !IsDigit(sequence[i])
  {
    hide PadStart, Read, Decimal, CheckSymbol, IsDigit, Find;
  }

  /** Leading zeros up to the width make no difference. */
  lemma RustPads(ds: seq<Definition>, d: Definition, sequence: string, scope: string)
    requires Find(ds, d.publicPrefix) == Some(d) && d.reference.Some? && d.reference.value.Sequential?
    requires |sequence| <= d.reference.value.width
    ensures RustFormatSequential(ds, d.publicPrefix, sequence, scope)
            == RustFormatSequential(ds, d.publicPrefix, PadStart(sequence, d.reference.value.width), scope)
  {
    var width := d.reference.value.width;
    var zeros := width - |sequence|;
    var padded := PadStart(sequence, width);
    assert |padded| == width && PadStart(padded, width) == padded;
    forall i | 0 <= i < |sequence| ensures padded[zeros + i] == sequence[i] {}
    assert forall i :: 0 <= i < zeros ==> IsDigit(padded[i]);
    if i :| 0 <= i < |padded| && !IsDigit(padded[i]) {
      assert !IsDigit(sequence[i - zeros]);
    }
    if i :| 0 <= i < |sequence| && !IsDigit(sequence[i]) {
      assert !IsDigit(padded[zeros + i]);
    }
    hide PadStart, Read, Decimal, CheckSymbol, IsDigit, Find;
  }

  /** On the digits of a number the Rust formatter says what the TypeScript one says, errors included. */
  lemma RustFormatsNumbers(r: Registry, namespace: string, n: nat, scope: Option<string>)
    requires Valid(r) && RequireReference(r, namespace).Success?
    requires RequireReference(r, namespace).value.reference.value.Sequential?
    requires ScopeFits(RequireReference(r, namespace).value.reference.value, scope)
    ensures RustFormatSequential(r.definitions, namespace, ToDecimal(n), if scope.Some? then scope.value else [])
            == FormatSequentialReference(r, namespace, n, scope)
  {
    hide *;
    RequiredDefinition(r, namespace);
    var d := RequireReference(r, namespace).value;
    var ref := d.reference.value;
    SequentialWidth(r, d);
    FindRegistered(r, d);
    PadFits(n, ref.width);
    if n < Pow(10, ref.width) {
      FormatUnfold(r, namespace, n, scope, d);
      var payload := ScopedPayload(n, ref.width, scope);
      RustPads(r.definitions, d, ToDecimal(n), if scope.Some? then scope.value else []);
      PayloadSplit(ref, n, scope);
      RustFormats(r, d, payload, CheckSymbol(payload, Decimal()).value);
    } else {
      RustFormatOverflow(r, d, ToDecimal(n), if scope.Some? then scope.value else []);
      FormatCases(r, namespace, n, scope, d);
    }
  }

  lemma PayloadSplit(ref: Reference, n: nat, scope: Option<string>)
    requires ref.Sequential? && ScopeFits(ref, scope)
    ensures var payload, k := ScopedPayload(n, ref.width, scope), if HasScope(ref) then 4 else 0;
            |payload| == PayloadLength(ref) >= ref.width && payload[k..] == FixedWidth(n, ref.width)
            && payload[..k] == if scope.Some? then scope.value else []
  {
    hide FixedWidth;
  }

  /** Everything the strict parser accepts, the Rust normalizer accepts with the same result. */
  lemma RustAcceptsStrict(value: string, r: Registry)
    requires Valid(r) && ParseReference(value, r).Success?
    ensures Normalize(value, r.definitions) == Success(ParseReference(value, r).value.value)
  {
    hide *;
    var d, c, payload := AcceptedIsWritten(value, r);
    var ref := d.reference.value;
    DefinitionBounds(r, d);
    AcceptedSymbols(ref, c, payload);
    AcceptsLength(ref, c, payload);
    ParseWritten(value, r, d, c, payload);
    WrittenPermitted(value, ref, c, payload);
    WrittenCompact(Upper(value), ref, c);
    StartingWith(r, d, c);
    NormalizeUnfold(value, r, d, c);
    var s := Canonical(ref, payload, c[|c| - 1]);
    AcceptedDenotes(ref, c, payload);
    RustBodyAccepts(r, d, c, s);
    ParsedValue(d, payload, c[|c| - 1]);
  }

  lemma AcceptedDenotes(ref: Reference, c: string, payload: string)
    requires Accepts(ref, c, payload) && |payload| == PayloadLength(ref)
    ensures Denotes(ref, c, Canonical(ref, payload, c[|c| - 1]))
  {
    assert DenotesAs(ref, c, payload, Canonical(ref, payload, c[|c| - 1]));
  }

  lemma DenotedPayload(ref: Reference, c: string, s: string) returns (payload: string)
    requires Denotes(ref, c, s)
    ensures |c| == PayloadLength(ref) + 1 && |payload| == PayloadLength(ref)
    ensures Accepts(ref, c, payload) && s == Canonical(ref, payload, c[|c| - 1])
  {
    payload :| DenotesAs(ref, c, payload, s);
  }

  lemma StartingWith(r: Registry, d: Definition, c: string)
    requires Valid(r) && d in r.definitions && d.reference.Some?
    ensures FirstStarting(r.definitions, d.reference.value.prefix + c) == Some(d)
  {
    var p := d.reference.value.prefix;
    var s := p + c;
    assert StartsWith(s, p);
    var i :| 0 <= i < |r.definitions| && r.definitions[i] == d;
    OnePrefix(r, s, d, FirstStarting(r.definitions, s).value);
  }

  lemma NormalizeUnfold(value: string, r: Registry, d: Definition, body: string)
    requires d.reference.Some? && '_' !in value && |value| != 36
    requires Compact(Upper(value)) == d.reference.value.prefix + body
    requires FirstStarting(r.definitions, Compact(Upper(value))) == Some(d)
    ensures Normalize(value, r.definitions) == RustBody(r.definitions, d, body)
  {
    assert (d.reference.value.prefix + body)[|d.reference.value.prefix|..] == body;
  }

  /** The converse, up to hyphens: leaving MIDs and PIDs aside, the Rust normalizer accepts a text
      exactly when the strict parser accepts it with its hyphens removed, and the results agree. */
  lemma RustAcceptsCompact(value: string, r: Registry)
    requires Valid(r) && '_' !in value && |value| != 36
    ensures var strict := ParseReference(Compact(Upper(value)), r);
            var rust := Normalize(value, r.definitions);
            (rust.Success? <==> strict.Success?) && (rust.Success? ==> rust.value == strict.value.value)
  {
    hide *;
    var u := Compact(Upper(value));
    CompactUpper(value);
    if ParseReference(u, r).Success? {
      CompactAccepted(value, r);
    }
    if Normalize(value, r.definitions).Success? {
      var d, c := NormalizedParts(value, r);
      var ref := d.reference.value;
      RustBodyAccepts(r, d, c, Normalize(value, r.definitions).value);
      var payload := DenotedPayload(ref, c, Normalize(value, r.definitions).value);
      JoinedIsWritten(u, ref, c);
      ParseWritten(u, r, d, c, payload);
      ParsedValue(d, payload, c[|c| - 1]);
    }
  }

  lemma CompactAccepted(value: string, r: Registry)
    requires Valid(r) && '_' !in value && |value| != 36 && ParseReference(Compact(Upper(value)), r).Success?
    ensures Normalize(value, r.definitions) == Success(ParseReference(Compact(Upper(value)), r).value.value)
  {
    hide *;
    var u := Compact(Upper(value));
    CompactUpper(value);
    var d, c, payload := AcceptedIsWritten(u, r);
    AcceptedSymbols(d.reference.value, c, payload);
    AcceptsLength(d.reference.value, c, payload);
    DefinitionBounds(r, d);
    WrittenCompact(Upper(u), d.reference.value, c);
    StartingWith(r, d, c);
    NormalizeUnfold(value, r, d, c);
    AcceptedDenotes(d.reference.value, c, payload);
    RustBodyAccepts(r, d, c, Canonical(d.reference.value, payload, c[|c| - 1]));
    ParsedValue(d, payload, c[|c| - 1]);
  }

  lemma CompactUpper(value: string)
    ensures var u := Compact(Upper(value)); Upper(u) == u && Compact(u) == u
  {
    var s := Upper(value);
    CompactResult(s);
    CompactHyphenFree(Compact(s));
    var u := Compact(s);
    forall i | 0 <= i < |u| ensures UpperChar(u[i]) == u[i] {
      assert u[i] in s;
      var k :| 0 <= k < |s| && s[k] == u[i];
    }
    assert Upper(u) == u;
  }

  lemma NormalizedParts(value: string, r: Registry) returns (d: Definition, c: string)
    requires Valid(r) && '_' !in value && |value| != 36 && Normalize(value, r.definitions).Success?
    ensures d in r.definitions && d.reference.Some? && Compact(Upper(value)) == d.reference.value.prefix + c
    ensures Normalize(value, r.definitions) == RustBody(r.definitions, d, c)
  {
    hide RustBody, Compact, Upper, ParsePublicId, ParseMachineId, Valid;
    var u := Compact(Upper(value));
    d := FirstStarting(r.definitions, u).value;
    c := u[|d.reference.value.prefix|..];
  }

  lemma JoinedIsWritten(u: string, ref: Reference, c: string)
    requires u == ref.prefix + c && Upper(u) == u && |c| == PayloadLength(ref) + 1
    ensures Written(Upper(u), ref, c)
  {
  }
}
