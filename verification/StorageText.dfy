/** The storage side: reading prefix, scope and number back from a canonical sequential reference,
    and MIDs as sixteen bytes. */
module StorageText {
  import opened Wrappers
  import opened Positional
  import opened Alphabet
  import opened Text
  import opened Hyphenation
  import opened DecimalText
  import opened Checksum
  import opened Registry
  import opened References
  import opened Formatting
  import opened MachineId

  datatype Parts = Parts(prefix: string, scope: string, sequence: nat)

  predicate AllDigits(s: string)
  {
    forall i :: 0 <= i < |s| ==> IsDigit(s[i])
  }

  predicate CheckText(s: string)
  {
    |s| == 1 && (IsDigit(s[0]) || IsUpper(s[0]) || s[0] == '*' || s[0] == '~' || s[0] == '$' || s[0] == '=')
  }

  function Number(s: string): nat
  {
    match Read(s, Decimal())
    case None => 0
    case Some(ds) => Value(ds, 10)
  }

  function PartsOf(prefix: string, scope: string, sequence: string, check: string): Option<Parts>
  {
    if ReferencePrefixValid(prefix) && (scope == [] || FourDigits(scope))
       && 4 <= |sequence| <= 18 && AllDigits(sequence) && CheckText(check)
    then Some(Parts(prefix, scope, Number(sequence)))
    else None
  }

  /** The pattern prefix, optional four-digit scope, 4 to 18 digits, check symbol. */
  function ParseSequentialParts(reference: string): Option<Parts>
  {
    var pieces := Split(reference);
    if |pieces| == 3 then PartsOf(pieces[0], [], pieces[1], pieces[2])
    else if |pieces| == 4 && pieces[1] != [] then PartsOf(pieces[0], pieces[1], pieces[2], pieces[3])
    else None
  }

  lemma SplitThree(a: string, b: string, c: string)
    requires '-' !in a && '-' !in b && '-' !in c
    ensures Split(a + "-" + b + "-" + c) == [a, b, c]
  {
    SplitHyphenFree(c);
    SplitFirst(b, c);
    SplitFirst(a, b + "-" + c);
    assert a + "-" + b + "-" + c == a + "-" + (b + "-" + c);
  }

  lemma SplitFour(a: string, b: string, c: string, d: string)
    requires '-' !in a && '-' !in b && '-' !in c && '-' !in d
    ensures Split(a + "-" + b + "-" + c + "-" + d) == [a, b, c, d]
  {
    hide *;
    SplitThree(b, c, d);
    SplitFirst(a, b + "-" + c + "-" + d);
    FourJoined(a, b, c, d);
  }

  lemma FourJoined(a: string, b: string, c: string, d: string)
    ensures a + "-" + b + "-" + c + "-" + d == a + "-" + (b + "-" + c + "-" + d)
  {
    Associate(a + "-", b, "-" + c + "-" + d);
    Associate(b, "-" + c + "-", d);
    assert a + "-" + b + "-" + c + "-" + d == a + "-" + b + ("-" + c + "-" + d);
    assert b + ("-" + c + "-" + d) == b + "-" + c + "-" + d;
  }

  lemma DigitsNoHyphen(s: string)
    requires AllDigits(s)
    ensures '-' !in s
  {
  }

  /** The reader inverts the formatter: the canonical text of a number in a sequential namespace
      gives back the prefix, the scope (empty when there is none) and the number. */
  lemma PartsOfSequential(r: Registry, d: Definition, sequence: nat, scope: Option<string>, check: char)
    requires Valid(r) && d in r.definitions && d.reference.Some? && d.reference.value.Sequential?
    requires ScopeFits(d.reference.value, scope) && sequence < Pow(10, d.reference.value.width)
    requires var payload := ScopedPayload(sequence, d.reference.value.width, scope);
             Payload(d.reference.value, payload, check)
    ensures var payload := ScopedPayload(sequence, d.reference.value.width, scope);
            |payload| == PayloadLength(d.reference.value)
            && ParseSequentialParts(Canonical(d.reference.value, payload, check))
               == Some(Parts(d.reference.value.prefix, if scope.Some? then scope.value else [], sequence))
  {
    hide *;
    var ref := d.reference.value;
    var text, payload := FixedWidth(sequence, ref.width), ScopedPayload(sequence, ref.width, scope);
    DefinitionBounds(r, d);
    SequentialWidth(r, d);
    PayloadChecked(ref, payload, check);
    FixedWidthDigits(sequence, ref.width);
    DigitsNoHyphen(text);
    PrefixHyphenFree(ref.prefix);
    CheckTextOf(payload, check);
    ScopeKind(ref, scope);
    SequentialTemplate(ref, scope, text, check);
    ScopedUnfold(sequence, ref.width, scope);
    if scope.Some? {
      YearDigits(scope.value);
      SplitFour(ref.prefix, scope.value, text, [check]);
      ScopedTemplate(ref, scope.value, text, check);
      FourParts(Canonical(ref, payload, check), ref.prefix, scope.value, text, [check]);
    } else {
      SplitThree(ref.prefix, text, [check]);
      PlainTemplate(ref, text, check);
      ThreeParts(Canonical(ref, payload, check), ref.prefix, text, [check]);
    }
  }

  lemma PayloadChecked(ref: Reference, payload: string, check: char)
    requires Payload(ref, payload, check) && ref.Sequential?
    ensures |payload| == PayloadLength(ref) && CheckSymbol(payload, Decimal()) == Success(check)
  {
  }

  lemma ScopeKind(ref: Reference, scope: Option<string>)
    requires ScopeFits(ref, scope)
    ensures if HasScope(ref) then scope.Some? && FourDigits(scope.value) && |scope.value| == 4 else scope.None?
  {
  }

  lemma ScopedUnfold(sequence: nat, width: nat, scope: Option<string>)
    ensures ScopedPayload(sequence, width, scope)
            == if scope.Some? then scope.value + FixedWidth(sequence, width) else FixedWidth(sequence, width)
  {
  }

  lemma FixedWidthDigits(n: nat, width: nat)
    requires n < Pow(10, width)
    ensures AllDigits(FixedWidth(n, width)) && Number(FixedWidth(n, width)) == n
  {
    FixedWidthRead(n, width);
    hide FixedWidth, Decimal, Value, ToDigits;
    var s := FixedWidth(n, width);
    forall i | 0 <= i < |s| ensures IsDigit(s[i]) {
      assert s[i] in Decimal();
      DecimalSymbol(s[i]);
    }
  }

  lemma CheckTextOf(payload: string, check: char)
    requires CheckSymbol(payload, Decimal()) == Success(check)
    ensures CheckText([check]) && '-' !in [check]
  {
    hide CheckSymbol, Check, Decimal;
    CheckInAlphabet(payload, Decimal());
    CheckSymbols(check);
  }

  lemma YearDigits(s: string)
    requires FourDigits(s)
    ensures '-' !in s && s != []
  {
    assert s[0] == s[0];
  }

  lemma ScopedTemplate(ref: Reference, year: string, text: string, check: char)
    ensures FormatSequentialParts(ref.prefix, text, check, Some(year))
            == ref.prefix + "-" + year + "-" + text + "-" + [check]
  {
  }

  lemma PlainTemplate(ref: Reference, text: string, check: char)
    ensures FormatSequentialParts(ref.prefix, text, check, None) == ref.prefix + "-" + text + "-" + [check]
  {
  }

  lemma ThreeParts(s: string, prefix: string, text: string, check: string)
    requires Split(s) == [prefix, text, check]
    ensures ParseSequentialParts(s) == PartsOf(prefix, [], text, check)
    ensures ReferencePrefixValid(prefix) && 4 <= |text| <= 18 && AllDigits(text) && CheckText(check) ==>
              ParseSequentialParts(s) == Some(Parts(prefix, [], Number(text)))
  {
    hide ReferencePrefixValid, AllDigits, CheckText, FourDigits, Split, Number;
  }

  lemma FourParts(s: string, prefix: string, year: string, text: string, check: string)
    requires Split(s) == [prefix, year, text, check] && year != []
    ensures ParseSequentialParts(s) == PartsOf(prefix, year, text, check)
    ensures ReferencePrefixValid(prefix) && FourDigits(year) && 4 <= |text| <= 18 && AllDigits(text) && CheckText(check) ==>
              ParseSequentialParts(s) == Some(Parts(prefix, year, Number(text)))
  {
    hide ReferencePrefixValid, AllDigits, CheckText, FourDigits, Split, Number;
  }

  /** A random reference never has the scope-less shape; only an all-digit compact one has the
      scoped shape, and its prefix is the random namespace's own. */
  lemma PartsOfRandom(r: Registry, d: Definition, payload: string, check: char)
    requires Valid(r) && d in r.definitions && d.reference.Some? && d.reference.value.Random?
    requires Payload(d.reference.value, payload, check)
    ensures |payload| == PayloadLength(d.reference.value)
    ensures var parts := ParseSequentialParts(Canonical(d.reference.value, payload, check));
            (parts.Some? <==> |payload| == 8 && AllDigits(payload))
            && (parts.Some? ==> parts.value == Parts(d.reference.value.prefix, payload[..4], Number(payload[4..])))
  {
    hide *;
    var ref := d.reference.value;
    DefinitionBounds(r, d);
    RandomChecked(r, d, payload, check);
    PrefixHyphenFree(ref.prefix);
    RandomPieces(ref, payload, check);
    var s := Canonical(ref, payload, check);
    if |payload| == 8 {
      DataHyphenFree(payload);
      YearOfPayload(payload);
      FourParts(s, ref.prefix, payload[..4], payload[4..], [check]);
      PartsRefuse(ref.prefix, payload[..4], payload[4..], [check]);
    } else {
      FivePieces(s);
    }
  }

  lemma RandomChecked(r: Registry, d: Definition, payload: string, check: char)
    requires Valid(r) && d in r.definitions && d.reference.Some? && d.reference.value.Random?
    requires Payload(d.reference.value, payload, check)
    ensures |payload| == PayloadLength(d.reference.value) == d.reference.value.payloadLength
    ensures |payload| == 8 || |payload| == 10 || |payload| == 12
    ensures '-' !in payload && CheckText([check]) && check != '-'
  {
    var i :| 0 <= i < |r.definitions| && r.definitions[i] == d;
    assert DefinitionValid(d);
    var n := d.reference.value.payloadLength;
    assert n == 8 || n == 10 || n == 12;
    hide Data, Check, CheckSymbol, DefinitionValid, Valid;
    assert |payload| == n && CheckSymbol(payload, Data()) == Success(check);
    CheckInAlphabet(payload, Data());
    CheckSymbols(check);
    PayloadReads(d.reference.value, payload, check);
    AcceptedSymbols(d.reference.value, payload + [check], payload);
    assert forall k :: 0 <= k < |payload| ==> payload[k] == (payload + [check])[k];
  }

  lemma DataHyphenFree(payload: string)
    requires '-' !in payload && |payload| == 8
    ensures '-' !in payload[..4] && '-' !in payload[4..]
  {
  }

  /** The canonical body of a random payload, piece by piece. */
  lemma RandomPieces(ref: Reference, payload: string, check: char)
    requires ref.Random? && |payload| == PayloadLength(ref) == ref.payloadLength
    requires |payload| == 8 || |payload| == 10 || |payload| == 12
    requires '-' !in payload && check != '-' && '-' !in ref.prefix
    ensures |payload| == 8 ==>
              Split(Canonical(ref, payload, check)) == [ref.prefix, payload[..4], payload[4..], [check]]
    ensures |payload| != 8 ==> |Split(Canonical(ref, payload, check))| == 5
  {
    var c := payload + [check];
    RandomGroups();
    GroupSum(ref);
    assert '-' !in c;
    var h := Hyphenate(c, GroupLengths(ref));
    hide RandomLengths, Hyphenate;
    SplitFirst(ref.prefix, h);
    HyphenateSound(c, GroupLengths(ref));
    if |payload| == 8 {
      EightPieces(payload, check);
      SplitThree(payload[..4], payload[4..], [check]);
    } else {
      assert |Lengths(Split(h))| == 4;
    }
  }

  lemma EightPieces(payload: string, check: char)
    requires |payload| == 8
    ensures Sum([4, 4, 1]) == 9
    ensures Hyphenate(payload + [check], [4, 4, 1]) == payload[..4] + "-" + payload[4..] + "-" + [check]
  {
    ThreeGroups(payload[..4], payload[4..], check);
    assert payload[..4] + payload[4..] + [check] == payload + [check];
    assert payload[..4] + "-" + (payload[4..] + "-" + [check]) == payload[..4] + "-" + payload[4..] + "-" + [check];
  }

  lemma YearOfPayload(payload: string)
    requires |payload| == 8
    ensures AllDigits(payload) <==> FourDigits(payload[..4]) && AllDigits(payload[4..])
    ensures payload[..4] != []
  {
    if FourDigits(payload[..4]) && AllDigits(payload[4..]) {
      forall i | 0 <= i < 8 ensures IsDigit(payload[i]) {
        if i < 4 { assert payload[i] == payload[..4][i]; } else { assert payload[i] == payload[4..][i - 4]; }
      }
    }
  }

  lemma PartsRefuse(prefix: string, year: string, text: string, check: string)
    requires year != []
    ensures !FourDigits(year) || !AllDigits(text) ==> PartsOf(prefix, year, text, check).None?
  {
  }

  lemma FivePieces(s: string)
    requires |Split(s)| == 5
    ensures ParseSequentialParts(s).None?
  {
  }

  // ----- MIDs as bytes

  /** Sixteen bytes from the hexadecimal symbols of a MID, in either case and however hyphenated. */
  function MachineIdToBytes(machineId: string): Option<seq<nat>>
  {
    var hex := Lower(Compact(machineId));
    if |hex| != 32 then None
    else match Read(hex, Hex())
      case None => None
      case Some(nibbles) => Some(Group(nibbles, 16, 2, 16))
  }

  /** The canonical text of sixteen stored bytes. */
  function BytesToMachineId(bytes: seq<nat>): string
    requires |bytes| == 16
  {
    HexAscends();
    Dashed(Write(Ungroup(bytes, 16, 2), Hex()))
  }

  /** Storing a MID and loading it returns it. */
  lemma BytesRoundTrip(machineId: string)
    requires Shaped(machineId)
    ensures MachineIdToBytes(machineId).Some? && |MachineIdToBytes(machineId).value| == 16
    ensures BytesToMachineId(MachineIdToBytes(machineId).value) == machineId
  {
    var h := Compact(machineId);
    ShapedDashed(machineId);
    HexAscends();
    LowerNibbles(h);
    var ds := Read(h, Hex()).value;
    hide *;
    BytesUnfold(machineId, h, ds);
    UngroupGroup(ds);
    WriteRead(h, Hex());
    LoadUnfold(Group(ds, 16, 2, 16), ds);
  }

  lemma LowerNibbles(h: string)
    requires forall i :: 0 <= i < |h| ==> h[i] in Hex()
    ensures Lower(h) == h && Read(h, Hex()).Some?
  {
    hide Hex;
    forall i | 0 <= i < |h| ensures LowerChar(h[i]) == h[i] { HexSymbol(h[i]); }
    assert Lower(h) == h;
  }

  lemma BytesUnfold(machineId: string, h: string, ds: seq<nat>)
    requires h == Compact(machineId) && Lower(h) == h && |h| == 32 && Read(h, Hex()) == Some(ds)
    ensures |ds| == 32 && MachineIdToBytes(machineId) == Some(Group(ds, 16, 2, 16))
  {
  }

  lemma LoadUnfold(bytes: seq<nat>, ds: seq<nat>)
    requires |bytes| == 16 && Ungroup(bytes, 16, 2) == ds
    ensures |Hex()| == 16 && Digits(ds, 16) && |ds| == 32 && BytesToMachineId(bytes) == Dashed(Write(ds, Hex()))
  {
    HexAscends();
  }

  lemma UngroupGroup(ds: seq<nat>)
    requires |ds| == 32 && Digits(ds, 16)
    ensures Ungroup(Group(ds, 16, 2, 16), 16, 2) == ds
  {
    hide *;
    var bytes := Group(ds, 16, 2, 16);
    GroupValue(ds, 16, 2, 16);
    UngroupValue(bytes, 16, 2);
    ValueOrder(Ungroup(bytes, 16, 2), ds, 16);
  }

  /** Different MIDs have different bytes. */
  lemma BytesInjective(a: string, b: string)
    requires Shaped(a) && Shaped(b)
    ensures MachineIdToBytes(a) == MachineIdToBytes(b) <==> a == b
  {
    BytesRoundTrip(a);
    BytesRoundTrip(b);
  }

  // ----- the pattern, for any text

  /** The text is two to eight capitals, four digits or none, four to eighteen digits and a check symbol, with
      hyphens between. */
  predicate MatchesAs(s: string, p: Parts, digits: string, check: char)
  {
    2 <= |p.prefix| <= 8 && (forall i :: 0 <= i < |p.prefix| ==> IsUpper(p.prefix[i]))
    && (p.scope == [] || (|p.scope| == 4 && AllDigits(p.scope)))
    && 4 <= |digits| <= 18 && AllDigits(digits) && p.sequence == Number(digits)
    && (IsDigit(check) || IsUpper(check) || check in "*~$=")
    && s == if p.scope == [] then p.prefix + "-" + digits + "-" + [check]
            else p.prefix + "-" + p.scope + "-" + digits + "-" + [check]
  }

  /** The pattern matches exactly these texts, and takes them apart so. */
  lemma PartsExactly(s: string, p: Parts)
    ensures ParseSequentialParts(s) == Some(p) <==> exists digits, check :: MatchesAs(s, p, digits, check)
  {
    if digits, check :| MatchesAs(s, p, digits, check) {
      MatchedPieces(s, p, digits, check);
    }
    if ParseSequentialParts(s) == Some(p) {
      var digits, check := PiecesMatch(s, p);
    }
  }

  lemma MatchedPieces(s: string, p: Parts, digits: string, check: char)
    requires MatchesAs(s, p, digits, check)
    ensures ParseSequentialParts(s) == Some(p)
  {
    MatchedIs(s, p, digits, check);
    hide *;
    PrefixHyphenFree(p.prefix);
    DigitsNoHyphen(digits);
    if p.scope == [] {
      SplitThree(p.prefix, digits, [check]);
      ThreeParts(s, p.prefix, digits, [check]);
    } else {
      YearDigits(p.scope);
      SplitFour(p.prefix, p.scope, digits, [check]);
      FourParts(s, p.prefix, p.scope, digits, [check]);
    }
  }

  lemma MatchedIs(s: string, p: Parts, digits: string, check: char)
    ensures MatchesAs(s, p, digits, check)
            <==> ReferencePrefixValid(p.prefix) && (p.scope == [] || FourDigits(p.scope)) && 4 <= |digits| <= 18
                 && AllDigits(digits) && p.sequence == Number(digits) && CheckText([check])
                 && s == if p.scope == [] then p.prefix + "-" + digits + "-" + [check]
                         else p.prefix + "-" + p.scope + "-" + digits + "-" + [check]
    ensures CheckText([check]) ==> '-' !in [check]
  {
    hide Number;
  }

  lemma PiecesMatch(s: string, p: Parts) returns (digits: string, check: char)
    requires ParseSequentialParts(s) == Some(p)
    ensures MatchesAs(s, p, digits, check)
  {
    hide *;
    var pieces := Split(s);
    var n := PiecesAre(s, p);
    digits, check := pieces[n - 2], pieces[n - 1][0];
    assert pieces[n - 1] == [check];
    MatchedIs(s, p, digits, check);
    if n == 3 {
      JoinThree(s, pieces[0], pieces[1], pieces[2]);
    } else {
      JoinFour(s, pieces[0], pieces[1], pieces[2], pieces[3]);
    }
  }

  lemma PiecesAre(s: string, p: Parts) returns (n: nat)
    requires ParseSequentialParts(s) == Some(p)
    ensures var pieces := Split(s);
            |pieces| == n && (n == 3 || n == 4) && |pieces[n - 1]| == 1
            && pieces == (if n == 3 then [p.prefix, pieces[1], pieces[2]] else [p.prefix, p.scope, pieces[2], pieces[3]])
            && (n == 3 <==> p.scope == []) && ReferencePrefixValid(p.prefix) && (p.scope == [] || FourDigits(p.scope))
            && 4 <= |pieces[n - 2]| <= 18 && AllDigits(pieces[n - 2]) && CheckText(pieces[n - 1])
            && p.sequence == Number(pieces[n - 2])
  {
    n := |Split(s)|;
    hide Split, ReferencePrefixValid, AllDigits, Number;
  }

  lemma JoinThree(s: string, a: string, b: string, c: string)
    requires Split(s) == [a, b, c]
    ensures s == a + "-" + b + "-" + c
  {
    SplitInverse(s);
    var t := Rest(s);
    SplitInverse(t);
    SplitInverse(Rest(t));
    hide Split, Rest;
    assert [a, b, c][1..] == [b, c] && [b, c][1..] == [c];
    assert a + "-" + (b + "-" + c) == a + "-" + b + "-" + c;
  }

  lemma JoinFour(s: string, a: string, b: string, c: string, d: string)
    requires Split(s) == [a, b, c, d]
    ensures s == a + "-" + b + "-" + c + "-" + d
  {
    hide *;
    SplitInverse(s);
    assert [a, b, c, d][1..] == [b, c, d];
    JoinThree(Rest(s), b, c, d);
    FourJoined(a, b, c, d);
  }
}
