/** PIDs: a public prefix, an underscore and the suffix of the MID. */
module PublicId {
  import opened Wrappers
  import opened Errors
  import opened Positional
  import opened Alphabet
  import opened Text
  import opened MachineId
  import opened TypeId

  datatype ParsedPublicId = ParsedPublicId(value: string, namespace: string, machineId: string)

  predicate PrefixValid(p: string)
  {
    1 <= |p| <= 63 && IsLower(p[0]) && IsLower(p[|p| - 1])
    && forall i :: 0 <= i < |p| ==> IsLower(p[i]) || p[i] == '_'
  }

  function PublicIdFromMachineId(machineId: string, namespace: string): Result<string, Error>
  {
    if !PrefixValid(namespace) then Failure(InvalidPublicPrefix)
    else match ParseMachineId(machineId)
      case Failure(e) => Failure(e)
      case Success(mid) => Success(namespace + ['_'] + Suffix(MachineNumber(mid)))
  }

  function ParsePublicId(value: string): Result<ParsedPublicId, Error>
  {
    if value != Lower(value) then Failure(InvalidPid)
    else match LastIndexOf(value, '_')
      case None => Failure(InvalidPublicPrefix)
      case Some(i) =>
        var namespace, suffix := value[..i], value[i + 1..];
        if !PrefixValid(namespace) then Failure(InvalidPublicPrefix)
        else match Decoded(suffix)
          case Failure(e) => Failure(e)
          case Success(v) =>
            if !IsMachineId(FormatMachine(v)) then Failure(InvalidPid)
            else Success(ParsedPublicId(value, namespace, FormatMachine(v)))
  }

  /** Decoding a suffix returns the number it was made of. */
  lemma DecodeEncode(v: nat)
    requires v < Limit()
    ensures Decoded(Suffix(v)) == Success(v)
  {
    LimitIs();
    TypeIdAscends();
    var ds := ToDigits(v, 32, 26);
    hide *;
    DigitsOfValue(v, 32, 26);
    ReadWrite(ds, TypeIdSymbols());
    GuardExact(ds);
    SuffixHead(v, ds);
    DecodedFrom(Suffix(v), ds);
  }

  lemma SuffixHead(v: nat, ds: seq<nat>)
    requires ds == ToDigits(v, 32, 26)
    ensures |ds| == 26 && |TypeIdSymbols()| == 32 && Digits(ds, 32) && Suffix(v) == Write(ds, TypeIdSymbols())
    ensures ds[0] <= 7 <==> Suffix(v)[0] <= '7'
  {
    TypeIdAscends();
    hide TypeIdSymbols;
    SymbolAtMostSeven(ds[0]);
  }

  lemma DecodedFrom(s: string, ds: seq<nat>)
    requires |s| == 26 && s[0] <= '7' && Read(s, TypeIdSymbols()) == Some(ds)
    ensures Decoded(s) == Success(Value(ds, 32))
  {
  }

  /** Every decodable suffix is the canonical one of its number, which fits 128 bits. */
  lemma EncodeDecode(s: string)
    requires Decoded(s).Success?
    ensures Decoded(s).value < Limit() && Suffix(Decoded(s).value) == s
  {
    TypeIdAscends();
    var ds := Read(s, TypeIdSymbols()).value;
    assert s[0] in TypeIdSymbols() && Position(TypeIdSymbols(), s[0]) == Some(ds[0]) by { hide TypeIdSymbols; }
    FirstDigitSmall(s[0]);
    GuardExact(ds);
    ValueThenDigits(ds, 32);
    WriteRead(s, TypeIdSymbols());
  }

  lemma SuffixSymbols(v: nat)
    ensures '_' !in Suffix(v) && Lower(Suffix(v)) == Suffix(v)
  {
    TypeIdAscends();
    var s := Suffix(v);
    forall i | 0 <= i < 26 ensures s[i] != '_' && LowerChar(s[i]) == s[i] {
      TypeIdSymbol(ToDigits(v, 32, 26)[i]);
    }
    assert Lower(s) == s;
  }

  lemma TypeIdSymbol(d: nat)
    requires d < 32
    ensures |TypeIdSymbols()| == 32 && TypeIdSymbols()[d] != '_' && !IsUpper(TypeIdSymbols()[d])
  {
  }

  lemma MachineBound(mid: string)
    requires Shaped(mid)
    ensures MachineNumber(mid) < Limit()
  {
    LimitIs();
    NumberThenFormat(mid);
  }

  /** From MID to PID and back: parsing the PID built for a MID returns that MID and the prefix,
      even when the prefix contains underscores. */
  lemma MachineToPublicToMachine(mid: string, namespace: string)
    requires IsMachineId(mid) && PrefixValid(namespace)
    ensures PublicIdFromMachineId(mid, namespace).Success?
    ensures var pid := PublicIdFromMachineId(mid, namespace).value;
            ParsePublicId(pid) == Success(ParsedPublicId(pid, namespace, mid))
  {
    hide *;
    BuiltPid(mid, namespace);
    var v := MachineNumber(mid);
    var pid := namespace + ['_'] + Suffix(v);
    MachineBound(mid);
    NumberThenFormat(mid);
    DecodeEncode(v);
    SuffixSymbols(v);
    LastIndexUnique(namespace, '_', Suffix(v));
    assert pid[..|namespace|] == namespace && pid[|namespace| + 1..] == Suffix(v);
    LowerPid(namespace, Suffix(v));
    ParsedFrom(pid, namespace, mid, v);
  }

  lemma BuiltPid(mid: string, namespace: string)
    requires IsMachineId(mid) && PrefixValid(namespace)
    ensures Shaped(mid) && PublicIdFromMachineId(mid, namespace) == Success(namespace + ['_'] + Suffix(MachineNumber(mid)))
  {
  }

  lemma ParsedFrom(pid: string, namespace: string, mid: string, v: nat)
    requires pid == Lower(pid) && LastIndexOf(pid, '_') == Some(|namespace|) && |namespace| < |pid|
    requires pid[..|namespace|] == namespace && Decoded(pid[|namespace| + 1..]) == Success(v)
    requires PrefixValid(namespace) && FormatMachine(v) == mid && IsMachineId(mid)
    ensures ParsePublicId(pid) == Success(ParsedPublicId(pid, namespace, mid))
  {
    hide PrefixValid, Decoded, FormatMachine, IsMachineId, Lower, LastIndexOf;
  }

  lemma LowerPid(namespace: string, suffix: string)
    requires PrefixValid(namespace) && Lower(suffix) == suffix
    ensures Lower(namespace + ['_'] + suffix) == namespace + ['_'] + suffix
  {
    var pid := namespace + ['_'] + suffix;
    forall i | 0 <= i < |pid| ensures LowerChar(pid[i]) == pid[i] {
      if i > |namespace| { assert pid[i] == suffix[i - |namespace| - 1] == Lower(suffix)[i - |namespace| - 1]; }
    }
    assert Lower(pid) == pid;
  }

  /** From PID to MID and back: every accepted PID is rebuilt exactly from what parsing returned. */
  lemma PublicToMachineToPublic(pid: string)
    requires ParsePublicId(pid).Success?
    ensures var parsed := ParsePublicId(pid).value;
            parsed.value == pid && IsMachineId(parsed.machineId) && PrefixValid(parsed.namespace)
            && PublicIdFromMachineId(parsed.machineId, parsed.namespace) == Success(pid)
  {
    hide *;
    var i, v := AcceptedPid(pid);
    var suffix := pid[i + 1..];
    LimitIs();
    EncodeDecode(suffix);
    FormatThenNumber(v);
    BuiltPid(FormatMachine(v), pid[..i]);
    assert pid == pid[..i] + ['_'] + suffix;
  }

  lemma AcceptedPid(pid: string) returns (i: nat, v: nat)
    requires ParsePublicId(pid).Success?
    ensures i < |pid| && pid[i] == '_' && Decoded(pid[i + 1..]) == Success(v)
    ensures PrefixValid(pid[..i]) && IsMachineId(FormatMachine(v)) && Lower(pid) == pid
    ensures ParsePublicId(pid) == Success(ParsedPublicId(pid, pid[..i], FormatMachine(v)))
  {
    i := LastIndexOf(pid, '_').value;
    v := Decoded(pid[i + 1..]).value;
  }

  /** For one prefix, dictionary order of PIDs, dictionary order of MIDs and numeric order agree. */
  lemma PublicOrder(a: string, b: string, namespace: string)
    requires IsMachineId(a) && IsMachineId(b) && PrefixValid(namespace)
    ensures PublicIdFromMachineId(a, namespace).Success? && PublicIdFromMachineId(b, namespace).Success?
    ensures var p, q := PublicIdFromMachineId(a, namespace).value, PublicIdFromMachineId(b, namespace).value;
            (Before(p, q) <==> Before(a, b)) && (Before(p, q) <==> MachineNumber(a) < MachineNumber(b))
  {
    BuiltPid(a, namespace);
    BuiltPid(b, namespace);
    hide *;
    MachineBound(a);
    MachineBound(b);
    MachineOrder(a, b);
    SuffixOrder(MachineNumber(a), MachineNumber(b));
    CommonPrefix(namespace + ['_'], Suffix(MachineNumber(a)), Suffix(MachineNumber(b)));
  }

  lemma SuffixOrder(v: nat, w: nat)
    requires v < Limit() && w < Limit()
    ensures Before(Suffix(v), Suffix(w)) <==> v < w
  {
    LimitIs();
    TypeIdAscends();
    var ds, es := ToDigits(v, 32, 26), ToDigits(w, 32, 26);
    SuffixHead(v, ds);
    SuffixHead(w, es);
    hide *;
    DigitsOfValue(v, 32, 26);
    DigitsOfValue(w, 32, 26);
    WriteOrder(ds, es, TypeIdSymbols());
    ValueOrder(ds, es, 32);
  }

  lemma CommonPrefix(p: string, s: string, t: string)
    ensures Before(p + s, p + t) <==> Before(s, t)
  {
    if Before(s, t) {
      var k: nat :| SplitsAt(s, t, k);
      assert (p + s)[..|p| + k] == p + s[..k] && (p + t)[..|p| + k] == p + t[..k];
      assert SplitsAt(p + s, p + t, |p| + k);
    }
    if Before(p + s, p + t) {
      var k: nat :| SplitsAt(p + s, p + t, k);
      var j: nat := k - |p|;
      assert s[..j] == (p + s)[..k][|p|..] && t[..j] == (p + t)[..k][|p|..];
      assert SplitsAt(s, t, j);
    }
  }
}
