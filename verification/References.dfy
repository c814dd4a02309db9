/** Human references: parsing, formatting, and exactly which texts are accepted. */
module References {
  import opened Wrappers
  import opened Errors
  import opened Alphabet
  import opened Text
  import opened Hyphenation
  import opened Checksum
  import opened Registry

  datatype ParsedReference = ParsedReference(
    value: string, namespace: string, payload: string,
    scope: Option<string>, sequence: Option<string>, checkSymbol: char)

  predicate HasScope(ref: Reference)
  {
    ref.Sequential? && ref.scope == "calendar-year"
  }

  function PayloadLength(ref: Reference): nat
  {
    match ref
    case Random(_, n) => n
    case Sequential(_, _, width) => width + if HasScope(ref) then 4 else 0
  }

  function GroupLengths(ref: Reference): seq<nat>
  {
    match ref
    case Random(_, n) => RandomLengths(n)
    case Sequential(_, _, width) => if HasScope(ref) then [4, width, 1] else [width, 1]
  }

  function PayloadAlphabet(ref: Reference): string
  {
    if ref.Random? then Data() else Decimal()
  }

  function Alias(c: char): char
  {
    if c == 'O' then '0' else if c == 'I' || c == 'L' then '1' else c
  }

  function Aliased(payload: string): (s: string)
    ensures |s| == |payload|
  {
    seq(|payload|, i requires 0 <= i < |payload| => Alias(payload[i]))
  }

  /** The canonical payload of a raw one. */
  function NormalPayload(ref: Reference, raw: string): Result<string, Error>
  {
    var payload := if ref.Random? then Aliased(raw) else raw;
    if Read(payload, PayloadAlphabet(ref)).Some? then Success(payload) else Failure(InvalidRefSymbol)
  }

  method NormalizePayload(payload: string) returns (r: Result<string, Error>)
    ensures forall p, n :: r == NormalPayload(Random(p, n), payload)
  {
    hide *;
    var normalized := "";
    for i := 0 to |payload|
      invariant |normalized| == i
      invariant forall k :: 0 <= k < i ==> normalized[k] == Alias(payload[k]) && normalized[k] in Data()
    {
      var symbol := if payload[i] == 'O' then '0' else if payload[i] == 'I' || payload[i] == 'L' then '1' else payload[i];
      AliasUnfold(payload[i]);
      if symbol !in Data() {
        ForeignPayload(payload, i);
        return Failure(InvalidRefSymbol);
      }
      normalized := normalized + [symbol];
    }
    ReadablePayload(payload, normalized);
    r := Success(normalized);
  }

  lemma AliasUnfold(c: char)
    ensures Alias(c) == if c == 'O' then '0' else if c == 'I' || c == 'L' then '1' else c
  {
  }

  lemma ForeignPayload(payload: string, i: nat)
    requires i < |payload| && Alias(payload[i]) !in Data()
    ensures forall p, n :: NormalPayload(Random(p, n), payload) == Failure(InvalidRefSymbol)
  {
    hide Data;
    assert Aliased(payload)[i] !in Data();
  }

  lemma ReadablePayload(payload: string, normalized: string)
    requires |normalized| == |payload|
    requires forall k :: 0 <= k < |payload| ==> normalized[k] == Alias(payload[k]) && normalized[k] in Data()
    ensures forall p, n :: NormalPayload(Random(p, n), payload) == Success(normalized)
  {
    hide Data;
    assert Aliased(payload) == normalized;
  }

  lemma GroupSum(ref: Reference)
    ensures |GroupLengths(ref)| >= 1 && Sum(GroupLengths(ref)) == PayloadLength(ref) + 1
  {
    if ref.Sequential? {
      var w := ref.width;
      assert [4, w, 1][1..] == [w, 1] && [w, 1][1..] == [1] && [1][1..] == [];
      assert Sum([1]) == 1;
      assert Sum([w, 1]) == w + 1;
    }
  }

  /** The canonical text: prefix, grouped payload and check symbol. */
  function Canonical(ref: Reference, payload: string, check: char): string
    requires |payload| == PayloadLength(ref)
  {
    GroupSum(ref);
    ref.prefix + "-" + Hyphenate(payload + [check], GroupLengths(ref))
  }

  function Parsed(d: Definition, payload: string, check: char): ParsedReference
    requires d.reference.Some? && |payload| == PayloadLength(d.reference.value)
  {
    var ref := d.reference.value;
    ParsedReference(
      Canonical(ref, payload, check), d.publicPrefix, payload,
      if HasScope(ref) then Some(payload[..4]) else None,
      if ref.Random? then None else Some(if HasScope(ref) then payload[4..] else payload),
      check)
  }

  predicate Permitted(c: char)
  {
    IsUpper(c) || IsLower(c) || IsDigit(c) || c == '*' || c == '~' || c == '$' || c == '=' || c == '_' || c == '-'
  }

  /** The first definition, in registration order, whose reference prefix starts the text. */
  function FirstStarting(ds: seq<Definition>, s: string): (d: Option<Definition>)
    ensures d.Some? ==> d.value in ds && d.value.reference.Some? && StartsWith(s, d.value.reference.value.prefix)
    ensures d.None? ==> forall i :: 0 <= i < |ds| && ds[i].reference.Some? ==> !StartsWith(s, ds[i].reference.value.prefix)
  {
    if ds == [] then None
    else if ds[0].reference.Some? && StartsWith(s, ds[0].reference.value.prefix) then Some(ds[0])
    else assert ds == [ds[0]] + ds[1..]; FirstStarting(ds[1..], s)
  }

  function LocateNamespace(s: string, r: Registry): Result<(string, Definition), Error>
  {
    match IndexOf(s, '-')
    case Some(i) =>
      (match r.GetByReferencePrefix(s[..i])
       case Some(d) => Success((s[i + 1..], d))
       case None => Failure(UnknownNamespace))
    case None =>
      (match FirstStarting(r.definitions, s)
       case Some(d) => Success((s[|d.reference.value.prefix|..], d))
       case None => Failure(UnknownNamespace))
  }

  /** The checks on what follows the prefix, in the order of the source. */
  function ParseBody(body: string, d: Definition): Result<ParsedReference, Error>
    requires d.reference.Some?
  {
    var ref := d.reference.value;
    var c, n := Compact(body), PayloadLength(ref);
    if |c| != n + 1 then Failure(InvalidRefLength)
    else if !HyphenationOk(body, GroupLengths(ref)) then Failure(InvalidRef)
    else match NormalPayload(ref, c[..n])
      case Failure(e) => Failure(e)
      case Success(payload) =>
        if c[n] !in Check() then Failure(InvalidRefSymbol)
        else if CheckSymbol(payload, PayloadAlphabet(ref)) != Success(c[n]) then Failure(InvalidChecksum)
        else Success(Parsed(d, payload, c[n]))
  }

  function ParseReference(value: string, r: Registry): Result<ParsedReference, Error>
  {
    if value == [] || |value| > 100 || exists i :: 0 <= i < |value| && !Permitted(value[i]) then Failure(InvalidRef)
    else match LocateNamespace(Upper(value), r)
      case Failure(e) => Failure(e)
      case Success((body, d)) =>
        if d.reference.None? then Failure(InvalidNamespaceDefinition) else ParseBody(body, d)
  }

  // ----- the accepted set

  /** `c` is a payload, aliases allowed, and its check symbol; `payload` is what it stands for. */
  predicate Accepts(ref: Reference, c: string, payload: string)
  {
    |c| == PayloadLength(ref) + 1
    && NormalPayload(ref, c[..|c| - 1]) == Success(payload)
    && CheckSymbol(payload, PayloadAlphabet(ref)) == Success(c[|c| - 1])
  }

  /** The three ways to write it: no hyphen, one after the prefix, or all of them. */
  predicate Written(s: string, ref: Reference, c: string)
    requires |c| == PayloadLength(ref) + 1
  {
    GroupSum(ref);
    s == ref.prefix + c || s == ref.prefix + "-" + c || s == ref.prefix + "-" + Hyphenate(c, GroupLengths(ref))
  }

  lemma CheckInAlphabet(payload: string, alphabet: string)
    requires CheckSymbol(payload, alphabet).Success?
    ensures CheckSymbol(payload, alphabet).value in Check()
  {
    CheckDistinct();
  }

  lemma CheckSymbols(c: char)
    requires c in Check()
    ensures IsUpper(c) || IsDigit(c) || c == '*' || c == '~' || c == '$' || c == '='
  {
    if c in Data() { DataSymbols(c); } else { ExtraSymbols(c); }
  }

  lemma DataSymbols(c: char)
    requires c in Data()
    ensures IsUpper(c) || IsDigit(c)
  {
  }

  lemma ExtraSymbols(c: char)
    requires c in Check() && c !in Data()
    ensures c == '*' || c == '~' || c == '$' || c == '=' || c == 'U'
  {
    var i :| 0 <= i < |Check()| && Check()[i] == c;
    CheckDistinct();
    assert c == Extra()[i - 32];
  }

  /** Symbols of an accepted body: upper case, and no hyphen. */
  lemma AcceptedSymbols(ref: Reference, c: string, payload: string)
    requires Accepts(ref, c, payload)
    ensures |payload| == PayloadLength(ref) && c[|c| - 1] in Check() && '-' !in c
    ensures forall i :: 0 <= i < |c| ==> Permitted(c[i]) && c[i] != '-' && c[i] != '_' && !IsLower(c[i])
  {
    var n := |c| - 1;
    CheckInAlphabet(payload, PayloadAlphabet(ref));
    forall i | 0 <= i < |c| ensures Permitted(c[i]) && c[i] != '-' && c[i] != '_' && !IsLower(c[i]) {
      if i == n {
        CheckSymbols(c[n]);
      } else {
        PayloadSymbol(ref, c[..n], payload, i);
      }
    }
  }

  lemma PayloadSymbol(ref: Reference, raw: string, payload: string, i: nat)
    requires NormalPayload(ref, raw) == Success(payload) && i < |raw|
    ensures IsUpper(raw[i]) || IsDigit(raw[i])
  {
    hide Data, Decimal;
    if ref.Random? {
      assert Aliased(raw)[i] in Data();
      DataSymbols(Alias(raw[i]));
    } else {
      assert raw[i] in Decimal();
      DecimalSymbol(raw[i]);
    }
  }

  /** Every written form of an accepted body parses to the same canonical reference. */
  lemma ParseWritten(value: string, r: Registry, d: Definition, c: string, payload: string)
    requires Valid(r) && d in r.definitions && d.reference.Some?
    requires Accepts(d.reference.value, c, payload) && Written(Upper(value), d.reference.value, c)
    ensures |payload| == PayloadLength(d.reference.value)
    ensures |value| <= 34 && ParseReference(value, r) == Success(Parsed(d, payload, c[|c| - 1]))
  {
    hide *;
    var ref := d.reference.value;
    AcceptedSymbols(ref, c, payload);
    AcceptsLength(ref, c, payload);
    DefinitionBounds(r, d);
    WrittenPermitted(value, ref, c, payload);
    var body := WrittenLocated(Upper(value), r, d, c);
    ParseBodyWritten(body, d, c, payload);
    ParseUnfold(value, r);
  }

  /** Whatever its hyphens, the symbols of a written reference are its prefix and its body. */
  lemma WrittenCompact(s: string, ref: Reference, c: string)
    requires |c| == PayloadLength(ref) + 1 && Written(s, ref, c) && '-' !in c && ReferencePrefixValid(ref.prefix)
    ensures Compact(s) == ref.prefix + c
    ensures |s| <= |ref.prefix| + |c| + |GroupLengths(ref)|
  {
    GroupSum(ref);
    PrefixHyphenFree(ref.prefix);
    hide ReferencePrefixValid, GroupLengths, PayloadLength, Hyphenate;
    HyphenateSound(c, GroupLengths(ref));
    CompactHyphenFree(ref.prefix);
    CompactHyphenFree(c);
    CompactConcat(ref.prefix, c);
    CompactHyphen(ref.prefix, c);
    CompactHyphen(ref.prefix, Hyphenate(c, GroupLengths(ref)));
  }

  lemma PrefixHyphenFree(p: string)
    requires ReferencePrefixValid(p)
    ensures '-' !in p && '_' !in p && forall i :: 0 <= i < |p| ==> Permitted(p[i])
  {
  }

  lemma WrittenPermitted(value: string, ref: Reference, c: string, payload: string)
    requires Accepts(ref, c, payload) && Written(Upper(value), ref, c) && ReferencePrefixValid(ref.prefix)
    ensures |value| <= |ref.prefix| + |c| + |GroupLengths(ref)| && value != []
    ensures forall i :: 0 <= i < |value| ==> Permitted(value[i]) && value[i] != '_'
  {
    hide *;
    AcceptedSymbols(ref, c, payload);
    AcceptsLength(ref, c, payload);
    WrittenCompact(Upper(value), ref, c);
    CompactResult(Upper(value));
    PrefixHyphenFree(ref.prefix);
    forall i | 0 <= i < |value| ensures Permitted(value[i]) && value[i] != '_' {
      var u := Upper(value)[i];
      assert u in Upper(value);
      assert u == '-' || u in ref.prefix + c;
      UpperPermitted(value, i);
    }
    NotEmpty(value);
  }

  lemma AcceptsLength(ref: Reference, c: string, payload: string)
    requires Accepts(ref, c, payload)
    ensures |c| == PayloadLength(ref) + 1
  {
  }

  lemma UpperPermitted(value: string, i: nat)
    requires i < |value| && (Upper(value)[i] == '-' || (Permitted(Upper(value)[i]) && Upper(value)[i] != '_'))
    ensures Permitted(value[i]) && value[i] != '_'
  {
  }

  lemma NotEmpty(value: string)
    ensures Compact(Upper(value)) != [] ==> value != []
  {
  }

  /** The prefix of a written reference leads to its definition and to the body behind it. */
  lemma WrittenLocated(s: string, r: Registry, d: Definition, c: string) returns (body: string)
    requires Valid(r) && d in r.definitions && d.reference.Some?
    requires |c| == PayloadLength(d.reference.value) + 1 && Written(s, d.reference.value, c) && '-' !in c
    ensures LocateNamespace(s, r) == Success((body, d))
    ensures Sum(GroupLengths(d.reference.value)) == |c|
    ensures body == c || body == Hyphenate(c, GroupLengths(d.reference.value))
  {
    var ref := d.reference.value;
    GroupSum(ref);
    if s == ref.prefix + c {
      body := c;
      LocateJoined(r, d, c);
    } else {
      body := if s == ref.prefix + "-" + c then c else Hyphenate(c, GroupLengths(ref));
      hide Hyphenate, GroupLengths;
      LocateHyphenated(r, d, body);
    }
  }

  lemma LocateHyphenated(r: Registry, d: Definition, body: string)
    requires Valid(r) && d in r.definitions && d.reference.Some?
    ensures LocateNamespace(d.reference.value.prefix + "-" + body, r) == Success((body, d))
  {
    var p := d.reference.value.prefix;
    DefinitionBounds(r, d);
    PrefixHyphenFree(p);
    UpperFixed(p);
    FirstIndexUnique(p, '-', body);
    var s := p + "-" + body;
    assert s == p + ['-'] + body && s[..|p|] == p && s[|p| + 1..] == body;
    var i :| 0 <= i < |r.definitions| && r.definitions[i] == d;
  }

  lemma LocateJoined(r: Registry, d: Definition, c: string)
    requires Valid(r) && d in r.definitions && d.reference.Some? && '-' !in c
    ensures LocateNamespace(d.reference.value.prefix + c, r) == Success((c, d))
  {
    var p := d.reference.value.prefix;
    DefinitionBounds(r, d);
    PrefixHyphenFree(p);
    var s := p + c;
    assert IndexOf(s, '-').None?;
    assert StartsWith(s, p) && s[|p|..] == c;
    var i :| 0 <= i < |r.definitions| && r.definitions[i] == d;
    var found := FirstStarting(r.definitions, s);
    OnePrefix(r, s, d, found.value);
  }

  lemma ParseBodyWritten(body: string, d: Definition, c: string, payload: string)
    requires d.reference.Some? && Accepts(d.reference.value, c, payload) && '-' !in c
    requires Sum(GroupLengths(d.reference.value)) == |c|
    requires body == c || body == Hyphenate(c, GroupLengths(d.reference.value))
    ensures |payload| == PayloadLength(d.reference.value)
    ensures ParseBody(body, d) == Success(Parsed(d, payload, c[|c| - 1]))
  {
    var ref := d.reference.value;
    GroupSum(ref);
    AcceptedSymbols(ref, c, payload);
    hide Parsed, GroupLengths, PayloadLength, CheckSymbol, Check, PayloadAlphabet, NormalPayload, Hyphenate, Compact;
    CompactHyphenFree(c);
    HyphenateSound(c, GroupLengths(ref));
  }

  lemma ParseUnfold(value: string, r: Registry)
    requires value != [] && |value| <= 100 && forall i :: 0 <= i < |value| ==> Permitted(value[i])
    requires LocateNamespace(Upper(value), r).Success?
    requires LocateNamespace(Upper(value), r).value.1.reference.Some?
    ensures var (body, d) := LocateNamespace(Upper(value), r).value;
            ParseReference(value, r) == ParseBody(body, d)
  {
  }

  lemma DefinitionBounds(r: Registry, d: Definition)
    requires Valid(r) && d in r.definitions && d.reference.Some?
    ensures ReferencePrefixValid(d.reference.value.prefix) && 4 <= PayloadLength(d.reference.value) <= 22
    ensures |GroupLengths(d.reference.value)| <= 4
    ensures 2 <= |d.reference.value.prefix| <= 8
    ensures |d.reference.value.prefix| + PayloadLength(d.reference.value) + 1 + |GroupLengths(d.reference.value)| <= 34
  {
    var i :| 0 <= i < |r.definitions| && r.definitions[i] == d;
    assert DefinitionValid(d);
    RandomGroups();
  }

  lemma RandomGroups()
    ensures RandomLengths(8) == [4, 4, 1] && RandomLengths(10) == [4, 4, 2, 1] && RandomLengths(12) == [4, 4, 4, 1]
  {
    assert RandomLengths(0) == [1];
    assert RandomLengths(2) == [2] + RandomLengths(0);
    assert RandomLengths(4) == [4] + RandomLengths(0);
    assert RandomLengths(6) == [4] + RandomLengths(2);
    assert RandomLengths(8) == [4] + RandomLengths(4);
    assert RandomLengths(10) == [4] + RandomLengths(6);
    assert RandomLengths(12) == [4] + RandomLengths(8);
  }

  /** Every accepted text is a written form of an accepted body of one definition. */
  lemma AcceptedIsWritten(value: string, r: Registry) returns (d: Definition, c: string, payload: string)
    requires Valid(r) && ParseReference(value, r).Success?
    ensures d in r.definitions && d.reference.Some?
    ensures Accepts(d.reference.value, c, payload) && Written(Upper(value), d.reference.value, c)
    ensures |payload| == PayloadLength(d.reference.value)
    ensures ParseReference(value, r) == Success(Parsed(d, payload, c[|c| - 1]))
  {
    hide *;
    var s := Upper(value);
    var body;
    body, d := ParseParts(value, r);
    c, payload := AcceptedBody(body, d);
    UpperTwice(value);
    LocatedForm(s, r, body, d);
    WrittenFrom(s, d.reference.value, body, c);
  }

  lemma ParseParts(value: string, r: Registry) returns (body: string, d: Definition)
    requires ParseReference(value, r).Success?
    ensures LocateNamespace(Upper(value), r) == Success((body, d)) && d.reference.Some?
    ensures ParseReference(value, r) == ParseBody(body, d)
  {
    var located := LocateNamespace(Upper(value), r).value;
    body, d := located.0, located.1;
  }

  /** Where the body starts, and whether it may contain hyphens. */
  lemma LocatedForm(s: string, r: Registry, body: string, d: Definition)
    requires Valid(r) && LocateNamespace(s, r) == Success((body, d)) && d.reference.Some? && Upper(s) == s
    ensures d in r.definitions
    ensures s == d.reference.value.prefix + "-" + body || (s == d.reference.value.prefix + body && '-' !in body)
  {
    var i := IndexOf(s, '-');
    if i.Some? {
      var p := s[..i.value];
      UpperKey(r, p, d);
      UpperSlice(s, i.value);
      assert s == p + "-" + s[i.value + 1..];
    } else {
      var p := d.reference.value.prefix;
      assert s == p + s[|p|..];
    }
  }

  lemma UpperTwice(s: string)
    ensures Upper(Upper(s)) == Upper(s)
  {
    assert forall c :: UpperChar(UpperChar(c)) == UpperChar(c);
  }

  lemma UpperSlice(s: string, i: nat)
    requires Upper(s) == s && i <= |s|
    ensures Upper(s[..i]) == s[..i]
  {
    forall k | 0 <= k < i ensures UpperChar(s[k]) == s[k] { assert Upper(s)[k] == UpperChar(s[k]); }
  }

  /** A key the reference index finds is in upper case already when no lower-case letter is in it. */
  lemma UpperKey(r: Registry, p: string, d: Definition)
    requires Valid(r) && r.GetByReferencePrefix(p) == Some(d)
    ensures d in r.definitions && d.reference.Some? && d.reference.value.prefix == Upper(p)
  {
  }

  lemma AcceptedBody(body: string, d: Definition) returns (c: string, payload: string)
    requires d.reference.Some? && ParseBody(body, d).Success?
    ensures c == Compact(body) && Accepts(d.reference.value, c, payload)
    ensures HyphenationOk(body, GroupLengths(d.reference.value))
    ensures |payload| == PayloadLength(d.reference.value)
    ensures ParseBody(body, d) == Success(Parsed(d, payload, c[|c| - 1]))
  {
    c := Compact(body);
    payload := NormalPayload(d.reference.value, c[..|c| - 1]).value;
  }

  lemma WrittenFrom(s: string, ref: Reference, body: string, c: string)
    requires c == Compact(body) && |c| == PayloadLength(ref) + 1 && HyphenationOk(body, GroupLengths(ref))
    requires s == ref.prefix + "-" + body || (s == ref.prefix + body && '-' !in body)
    ensures Written(s, ref, c)
  {
    hide GroupLengths, PayloadLength, Compact, Hyphenate;
    if '-' !in body {
      CompactHyphenFree(body);
    } else {
      HyphenateComplete(body, GroupLengths(ref));
    }
  }

  // ----- formatting

  /** Groups joined with a hyphen behind each. */
  function Trailing(groups: seq<string>): string
  {
    if groups == [] then [] else groups[0] + "-" + Trailing(groups[1..])
  }

  function Join(groups: seq<string>): string
  {
    if groups == [] then [] else if |groups| == 1 then groups[0] else groups[0] + "-" + Join(groups[1..])
  }

  lemma {:induction false} JoinTrailing(groups: seq<string>)
    requires groups != []
    ensures Join(groups) + "-" == Trailing(groups)
  {
    if |groups| == 1 {
      assert groups[0] + "-" + [] == groups[0] + "-";
      assert Trailing(groups[1..]) == [];
    } else {
      JoinTrailing(groups[1..]);
      Associate(groups[0] + "-", Join(groups[1..]), "-");
    }
  }

  lemma {:induction false} TrailingAppend(groups: seq<string>, g: string)
    ensures Trailing(groups + [g]) == Trailing(groups) + (g + "-")
  {
    if groups == [] {
      assert groups + [g] == [g];
      assert Trailing([g][1..]) == [];
      assert g + "-" + [] == [] + (g + "-");
    } else {
      TrailingAppend(groups[1..], g);
      assert (groups + [g])[1..] == groups[1..] + [g];
      Associate(groups[0] + "-", Trailing(groups[1..]), g + "-");
    }
  }

  function Left(payload: string, index: nat): nat
  {
    if index < |payload| then |payload| - index else 0
  }

  /** The groups so far and the part still to cut make up the canonical body. */
  ghost predicate Grouping(payload: string, check: char, groups: seq<string>, index: nat)
  {
    var c, rest := payload + [check], Left(payload, index);
    Sum(RandomLengths(|payload|)) == |c| && Sum(RandomLengths(rest)) == rest + 1
    && Hyphenate(c, RandomLengths(|payload|)) == Trailing(groups) + Hyphenate(c[|payload| - rest..], RandomLengths(rest))
  }

  method FormatReference(prefix: string, payload: string, check: char) returns (reference: string)
    requires payload != []
    ensures reference == Canonical(Random(prefix, |payload|), payload, check)
  {
    hide *;
    var groups: seq<string> := [];
    var index := 0;
    StartGrouping(payload, check);
    while index < |payload|
      invariant 0 <= index && (index > 0 ==> groups != [])
      invariant Grouping(payload, check, groups, index)
    {
      var stop := if index + 4 < |payload| then index + 4 else |payload|;
      NextGrouping(payload, check, groups, index, stop);
      groups := groups + [payload[index..stop]];
      index := index + 4;
    }
    EndGrouping(prefix, payload, check, groups, index);
    reference := prefix + "-" + Join(groups) + "-" + [check];
  }

  lemma StartGrouping(payload: string, check: char)
    ensures Grouping(payload, check, [], 0)
  {
    assert (payload + [check])[0..] == payload + [check];
  }

  lemma NextGrouping(payload: string, check: char, groups: seq<string>, index: nat, stop: nat)
    requires Grouping(payload, check, groups, index) && index < |payload|
    requires stop == if index + 4 < |payload| then index + 4 else |payload|
    ensures Grouping(payload, check, groups + [payload[index..stop]], index + 4)
  {
    var c, n, rest := payload + [check], Left(payload, index), Left(payload, index + 4);
    var g, m := payload[index..stop], n - rest;
    RandomUnfold(n);
    assert c[index..][..m] == g && c[index..][m..] == c[stop..];
    assert Sum(RandomLengths(rest)) == rest + 1;
    hide RandomLengths, Trailing;
    TrailingAppend(groups, g);
    Associate(Trailing(groups), g + "-", Hyphenate(c[stop..], RandomLengths(rest)));
  }

  lemma EndGrouping(prefix: string, payload: string, check: char, groups: seq<string>, index: nat)
    requires Grouping(payload, check, groups, index) && index >= |payload| && groups != []
    ensures Canonical(Random(prefix, |payload|), payload, check) == prefix + "-" + Join(groups) + "-" + [check]
  {
    assert (payload + [check])[|payload|..] == [check];
    JoinTrailing(groups);
    Associate(prefix + "-", Join(groups), "-");
    Associate(prefix + "-", Join(groups) + "-", [check]);
  }

  lemma RandomUnfold(n: nat)
    requires n > 0
    ensures var m := if n < 4 then n else 4;
            |RandomLengths(n)| >= 2 && RandomLengths(n)[0] == m && RandomLengths(n)[1..] == RandomLengths(n - m)
  {
  }

  function FormatSequentialParts(prefix: string, sequence: string, check: char, scope: Option<string>): string
  {
    match scope
    case None => prefix + "-" + sequence + "-" + [check]
    case Some(year) => prefix + "-" + year + "-" + sequence + "-" + [check]
  }

  /** The string template of the source is the canonical form. */
  lemma SequentialTemplate(ref: Reference, scope: Option<string>, sequence: string, check: char)
    requires ref.Sequential? && |sequence| == ref.width
    requires if HasScope(ref) then scope.Some? && |scope.value| == 4 else scope.None?
    ensures var payload := if scope.Some? then scope.value + sequence else sequence;
            FormatSequentialParts(ref.prefix, sequence, check, scope) == Canonical(ref, payload, check)
  {
    var w := ref.width;
    GroupSum(ref);
    OneGroup(check);
    TwoGroups(sequence, check);
    if scope.Some? {
      var year := scope.value;
      ThreeGroups(year, sequence, check);
      Associate(ref.prefix + "-", year, "-" + sequence + "-" + [check]);
      assert ref.prefix + "-" + year + "-" + sequence + "-" + [check]
          == ref.prefix + "-" + (year + "-" + (sequence + "-" + [check]));
    } else {
      assert ref.prefix + "-" + sequence + "-" + [check] == ref.prefix + "-" + (sequence + "-" + [check]);
    }
  }

  lemma OneGroup(check: char)
    ensures Sum([1]) == 1 && Hyphenate([check], [1]) == [check]
  {
    assert [1][1..] == [];
  }

  lemma TwoGroups(sequence: string, check: char)
    ensures Sum([|sequence|, 1]) == |sequence| + 1
    ensures Hyphenate(sequence + [check], [|sequence|, 1]) == sequence + "-" + [check]
  {
    OneGroup(check);
    assert [|sequence|, 1][1..] == [1];
    var c := sequence + [check];
    assert c[..|sequence|] == sequence && c[|sequence|..] == [check];
  }

  lemma ThreeGroups(year: string, sequence: string, check: char)
    ensures Sum([|year|, |sequence|, 1]) == |year| + |sequence| + 1
    ensures Hyphenate(year + sequence + [check], [|year|, |sequence|, 1]) == year + "-" + (sequence + "-" + [check])
  {
    TwoGroups(sequence, check);
    assert [|year|, |sequence|, 1][1..] == [|sequence|, 1];
    var c := year + sequence + [check];
    assert c[..|year|] == year && c[|year|..] == sequence + [check];
  }
}
