/** MIDs: the 36-character form of a UUIDv7 and the 128-bit number it writes. */
module MachineId {
  import opened Wrappers
  import opened Errors
  import opened Positional
  import opened Alphabet
  import opened Text

  predicate HyphenPlace(i: nat)
  {
    i == 8 || i == 13 || i == 18 || i == 23
  }

  /** Lowercase 8-4-4-4-12 hexadecimal. */
  predicate Shaped(s: string)
  {
    |s| == 36 && forall i :: 0 <= i < 36 ==> if HyphenPlace(i) then s[i] == '-' else s[i] in Hex()
  }

  function ParseMachineId(value: string): Result<string, Error>
  {
    var v := Lower(value);
    if !Shaped(v) then Failure(InvalidMid)
    else if v[14] != '7' then Failure(InvalidUuidVersion)
    else if v[19] !in "89ab" then Failure(InvalidMid)
    else Success(v)
  }

  /** Canonical MIDs are the fixed points of parsing. */
  predicate IsMachineId(s: string)
  {
    ParseMachineId(s) == Success(s)
  }

  function Dashed(h: string): (s: string)
    requires |h| == 32
    ensures |s| == 36
  {
    h[..8] + "-" + h[8..12] + "-" + h[12..16] + "-" + h[16..20] + "-" + h[20..]
  }

  /** Where nibble `k` stands in the dashed form. */
  function Place(k: nat): nat
  {
    if k < 8 then k else if k < 12 then k + 1 else if k < 16 then k + 2 else if k < 20 then k + 3 else k + 4
  }

  lemma DashedPlaces(h: string)
    requires |h| == 32
    ensures forall k :: 0 <= k < 32 ==> Dashed(h)[Place(k)] == h[k]
    ensures forall i :: 0 <= i < 36 && HyphenPlace(i) ==> Dashed(h)[i] == '-'
    ensures forall i :: 0 <= i < 36 && !HyphenPlace(i) ==> exists k :: 0 <= k < 32 && Place(k) == i
  {
    forall i | 0 <= i < 36 && !HyphenPlace(i) ensures exists k :: 0 <= k < 32 && Place(k) == i {
      var k := if i < 8 then i else if i < 13 then i - 1 else if i < 18 then i - 2 else if i < 23 then i - 3 else i - 4;
      assert Place(k) == i;
    }
  }

  lemma DashedCompact(h: string)
    requires |h| == 32 && '-' !in h
    ensures Compact(Dashed(h)) == h
  {
    var a, b, c, d, e := h[..8], h[8..12], h[12..16], h[16..20], h[20..];
    assert h == a + b + c + d + e;
    CompactHyphenFree(a); CompactHyphenFree(b); CompactHyphenFree(c); CompactHyphenFree(d); CompactHyphenFree(e);
    hide Compact;
    CompactHyphen(a, b);
    CompactHyphen(a + "-" + b, c);
    CompactHyphen(a + "-" + b + "-" + c, d);
    CompactHyphen(a + "-" + b + "-" + c + "-" + d, e);
  }

  lemma HexHasNoHyphen(h: string)
    requires forall i :: 0 <= i < |h| ==> h[i] in Hex()
    ensures '-' !in h
  {
    assert '-' !in Hex();
  }

  /** A shaped text is the dashed form of its 32 nibbles. */
  lemma ShapedDashed(s: string)
    requires Shaped(s)
    ensures |Compact(s)| == 32 && s == Dashed(Compact(s))
    ensures forall i :: 0 <= i < 32 ==> Compact(s)[i] in Hex()
  {
    var h := s[..8] + s[9..13] + s[14..18] + s[19..23] + s[24..];
    assert s[8] == '-' && s[13] == '-' && s[18] == '-' && s[23] == '-' by { ShapedHyphens(s); }
    assert h[..8] == s[..8] && h[8..12] == s[9..13] && h[12..16] == s[14..18] && h[16..20] == s[19..23] && h[20..] == s[24..];
    assert s == Dashed(h) by { hide Shaped; }
    DashedPlaces(h);
    ShapedNibbles(s, h);
    hide Shaped, Dashed, Hex;
    HexHasNoHyphen(h);
    DashedCompact(h);
  }

  lemma ShapedHyphens(s: string)
    requires Shaped(s)
    ensures |s| == 36 && s[8] == '-' && s[13] == '-' && s[18] == '-' && s[23] == '-'
  {
    assert HyphenPlace(8) && HyphenPlace(13) && HyphenPlace(18) && HyphenPlace(23);
  }

  lemma ShapedNibbles(s: string, h: string)
    requires |s| == 36 && |h| == 32 && forall k :: 0 <= k < 32 ==> s[Place(k)] == h[k]
    requires Shaped(s)
    ensures forall k :: 0 <= k < 32 ==> h[k] in Hex()
  {
    hide Hex;
    forall k | 0 <= k < 32 ensures h[k] in Hex() {
      assert !HyphenPlace(Place(k));
      assert s[Place(k)] == h[k];
    }
  }

  lemma DashedShaped(h: string)
    requires |h| == 32 && forall i :: 0 <= i < 32 ==> h[i] in Hex()
    ensures Shaped(Dashed(h))
  {
    hide Hex, Dashed;
    DashedPlaces(h);
  }

  lemma LowerHex(s: string)
    requires Shaped(s)
    ensures Lower(s) == s
  {
    forall i | 0 <= i < 36 ensures LowerChar(s[i]) == s[i] {
      if !HyphenPlace(i) { HexSymbol(s[i]); }
    }
    assert Lower(s) == s;
  }

  lemma HexSymbol(c: char)
    requires c in Hex()
    ensures !IsUpper(c)
  {
  }

  /** The number a MID writes. */
  function MachineNumber(mid: string): nat
    requires Shaped(mid)
  {
    ShapedDashed(mid);
    Value(Read(Compact(mid), Hex()).value, 16)
  }

  function FormatMachine(v: nat): string
  {
    HexAscends();
    Dashed(Write(ToDigits(v, 16, 32), Hex()))
  }

  /** Formatting a number and reading it back: every 128-bit number survives. */
  lemma FormatThenNumber(v: nat)
    requires v < Pow(16, 32)
    ensures Shaped(FormatMachine(v)) && MachineNumber(FormatMachine(v)) == v
  {
    HexAscends();
    var ds := ToDigits(v, 16, 32);
    var h := Write(ds, Hex());
    DashedShaped(h);
    ReadWrite(ds, Hex());
    HexHasNoHyphen(h);
    hide *;
    DashedCompact(h);
    DigitsOfValue(v, 16, 32);
    NumberOf(v, h, ds);
  }

  lemma NumberOf(v: nat, h: string, ds: seq<nat>)
    requires |h| == 32 && FormatMachine(v) == Dashed(h) && Shaped(Dashed(h)) && Compact(Dashed(h)) == h
    requires Read(h, Hex()) == Some(ds)
    ensures MachineNumber(FormatMachine(v)) == Value(ds, 16)
  {
  }

  /** Reading a MID and formatting it again: every shaped text survives. */
  lemma NumberThenFormat(mid: string)
    requires Shaped(mid)
    ensures MachineNumber(mid) < Pow(16, 32)
    ensures FormatMachine(MachineNumber(mid)) == mid
  {
    ShapedDashed(mid);
    HexAscends();
    var h := Compact(mid);
    var ds := Read(h, Hex()).value;
    ValueBound(ds, 16);
    ValueThenDigits(ds, 16);
    WriteRead(h, Hex());
  }

  /** Which numbers are MIDs: version nibble 7 and variant bits 10. */
  lemma NumberIsMachineId(v: nat)
    requires v < Pow(16, 32)
    ensures Pow(16, 19) > 0 && Pow(16, 15) > 0
    ensures IsMachineId(FormatMachine(v))
            <==> Remainder(Quotient(v, Pow(16, 19)), 16) == 7
                 && 8 <= Remainder(Quotient(v, Pow(16, 15)), 16) <= 11
  {
    var ds := ToDigits(v, 16, 32);
    var s := FormatMachine(v);
    FormatThenNumber(v);
    LowerHex(s);
    DigitAt(v, 16, 32, 12);
    DigitAt(v, 16, 32, 16);
    HexAscends();
    DashedPlaces(Write(ds, Hex()));
    assert Place(12) == 14 && Place(16) == 19;
    assert s[14] == Hex()[ds[12]] && s[19] == Hex()[ds[16]];
    VersionSymbol(ds[12]);
    VariantSymbol(ds[16]);
  }

  lemma VersionSymbol(d: nat)
    requires d < 16
    ensures |Hex()| == 16 && (Hex()[d] == '7' <==> d == 7)
  {
    HexAscends();
    assert Hex()[7] == '7';
  }

  lemma VariantSymbol(d: nat)
    requires d < 16
    ensures |Hex()| == 16 && (Hex()[d] in "89ab" <==> 8 <= d <= 11)
  {
    HexAscends();
    var h := Hex();
    assert h[8] == '8' && h[9] == '9' && h[10] == 'a' && h[11] == 'b';
    assert forall c :: c in "89ab" <==> c == '8' || c == '9' || c == 'a' || c == 'b';
  }

  /** Parsing is idempotent, and only changes the case. */
  lemma ParseIsCanonical(value: string)
    requires ParseMachineId(value).Success?
    ensures IsMachineId(ParseMachineId(value).value) && ParseMachineId(value).value == Lower(value)
  {
    LowerHex(Lower(value));
  }

  /** A text is accepted exactly when its lower-case form is a MID, which is the result. */
  lemma MachineParsed(value: string, mid: string)
    ensures ParseMachineId(value) == Success(mid) <==> mid == Lower(value) && IsMachineId(mid)
  {
    assert Lower(Lower(value)) == Lower(value);
    hide Shaped;
  }

  lemma MachineSelf(mid: string)
    requires IsMachineId(mid)
    ensures ParseMachineId(mid) == Success(mid)
  {
  }

  /** Dictionary order of MIDs is numeric order. */
  lemma MachineOrder(a: string, b: string)
    requires Shaped(a) && Shaped(b)
    ensures Before(a, b) <==> MachineNumber(a) < MachineNumber(b)
  {
    HexAscends();
    ShapedDashed(a);
    ShapedDashed(b);
    var g, h := Compact(a), Compact(b);
    var ds, es := Read(g, Hex()).value, Read(h, Hex()).value;
    WriteRead(g, Hex());
    WriteRead(h, Hex());
    hide *;
    DashedOrder(g, h);
    WriteOrder(ds, es, Hex());
    ValueOrder(ds, es, 16);
    NumberUnfold(a);
    NumberUnfold(b);
  }

  lemma NumberUnfold(mid: string)
    requires Shaped(mid)
    ensures Read(Compact(mid), Hex()).Some? && MachineNumber(mid) == Value(Read(Compact(mid), Hex()).value, 16)
  {
    ShapedDashed(mid);
  }

  /** Hyphens at fixed places do not disturb the order. */
  lemma DashedOrder(g: string, h: string)
    requires |g| == |h| == 32
    ensures Before(Dashed(g), Dashed(h)) <==> Before(g, h)
  {
    hide Dashed;
    if Before(Dashed(g), Dashed(h)) {
      var i: nat :| SplitsAt(Dashed(g), Dashed(h), i);
      DropHyphens(g, h, i);
    }
    if Before(g, h) {
      var k: nat :| SplitsAt(g, h, k);
      InsertHyphens(g, h, k);
    }
  }

  lemma DropHyphens(g: string, h: string, i: nat)
    requires |g| == |h| == 32 && SplitsAt(Dashed(g), Dashed(h), i)
    ensures Before(g, h)
  {
    var s, t := Dashed(g), Dashed(h);
    DashedPlaces(g);
    DashedPlaces(h);
    hide Dashed;
    assert !HyphenPlace(i);
    var k :| 0 <= k < 32 && Place(k) == i;
    forall j | 0 <= j < k ensures g[j] == h[j] {
      assert s[Place(j)] == s[..i][Place(j)] && t[Place(j)] == t[..i][Place(j)];
    }
    assert g[..k] == h[..k];
    assert s[Place(k)] == g[k] && t[Place(k)] == h[k];
    assert SplitsAt(g, h, k);
  }

  lemma InsertHyphens(g: string, h: string, k: nat)
    requires |g| == |h| == 32 && SplitsAt(g, h, k)
    ensures Before(Dashed(g), Dashed(h))
  {
    var s, t, i := Dashed(g), Dashed(h), Place(k);
    DashedPlaces(g);
    DashedPlaces(h);
    hide Dashed;
    forall j | 0 <= j < i ensures s[j] == t[j] {
      if !HyphenPlace(j) {
        var m :| 0 <= m < 32 && Place(m) == j;
        assert s[Place(m)] == g[m] && t[Place(m)] == h[m];
        assert g[m] == g[..k][m] && h[m] == h[..k][m];
      }
    }
    assert s[..i] == t[..i];
    assert s[Place(k)] == g[k] && t[Place(k)] == h[k];
    assert SplitsAt(s, t, i);
  }
}
