/** Symbol alphabets: reading a string as digits, writing digits as symbols, and ASCII case. */
module Alphabet {
  import opened Wrappers
  import opened Positional

  function Decimal(): string { "0123456789" }
  function Hex(): string { "0123456789abcdef" }
  function Data(): string { "0123456789ABCDEFGHJKMNPQRSTVWXYZ" }
  function Extra(): string { "*~$=U" }
  function Check(): string { Data() + Extra() }
  function TypeIdSymbols(): string { "0123456789abcdefghjkmnpqrstvwxyz" }

  predicate Ascending(alphabet: string)
  {
    forall i :: 0 < i < |alphabet| ==> alphabet[i - 1] < alphabet[i]
  }

  predicate Distinct(alphabet: string)
  {
    forall i, j :: 0 <= i < j < |alphabet| ==> alphabet[i] != alphabet[j]
  }

  /** Index of the first occurrence of `c`, as `indexOf`, `find` and `position` return it. */
  function Position(alphabet: string, c: char): (p: Option<nat>)
    ensures p.Some? ==> p.value < |alphabet| && alphabet[p.value] == c
    ensures p.Some? <==> c in alphabet
  {
    if alphabet == [] then None
    else if alphabet[|alphabet| - 1] == c && c !in alphabet[..|alphabet| - 1] then Some(|alphabet| - 1)
    else Position(alphabet[..|alphabet| - 1], c)
  }

  lemma PositionAt(alphabet: string, i: nat)
    requires Distinct(alphabet) && i < |alphabet|
    ensures Position(alphabet, alphabet[i]) == Some(i)
  {
  }

  lemma {:induction false} AscendingBetween(alphabet: string, i: nat, j: nat)
    requires Ascending(alphabet) && i < j < |alphabet|
    ensures alphabet[i] < alphabet[j]
    decreases j
  {
    if i < j - 1 { AscendingBetween(alphabet, i, j - 1); }
  }

  lemma AscendingDistinct(alphabet: string)
    requires Ascending(alphabet)
    ensures Distinct(alphabet)
  {
    forall i, j | 0 <= i < j < |alphabet| ensures alphabet[i] != alphabet[j] {
      AscendingBetween(alphabet, i, j);
    }
  }

  lemma DecimalAscends()
    ensures |Decimal()| == 10 && Ascending(Decimal()) && Distinct(Decimal())
  {
    AscendingDistinct(Decimal());
  }

  lemma HexAscends()
    ensures |Hex()| == 16 && Ascending(Hex()) && Distinct(Hex())
  {
    AscendingDistinct(Hex());
  }

  lemma DataAscends()
    ensures |Data()| == 32 && Ascending(Data()) && Distinct(Data())
  {
    AscendingDistinct(Data());
  }

  lemma TypeIdAscends()
    ensures |TypeIdSymbols()| == 32 && Ascending(TypeIdSymbols()) && Distinct(TypeIdSymbols())
  {
    AscendingDistinct(TypeIdSymbols());
  }

  /** The check alphabet is Data() followed by five symbols that Data() lacks. */
  lemma CheckDistinct()
    ensures |Check()| == 37 && Distinct(Check())
    ensures forall i :: 0 <= i < 32 ==> Check()[i] == Data()[i]
    ensures forall i :: 32 <= i < 37 ==> Check()[i] !in Data()
  {
    DataAscends();
    var n := |Extra()|;
    assert n == 5 && Distinct(Extra());
    forall i | 0 <= i < 5 ensures Extra()[i] !in Data() {
      ExtraOutside(Extra()[i]);
    }
  }

  lemma ExtraOutside(c: char)
    requires c == '*' || c == '~' || c == '$' || c == '=' || c == 'U'
    ensures c !in Data()
  {
  }

  /** The digits a string denotes, or nothing when a symbol is foreign. */
  function Read(s: string, alphabet: string): (ds: Option<seq<nat>>)
    ensures ds.Some? ==> |ds.value| == |s| && Digits(ds.value, |alphabet|)
  {
    if forall i :: 0 <= i < |s| ==> s[i] in alphabet
    then Some(seq(|s|, i requires 0 <= i < |s| => Position(alphabet, s[i]).value))
    else None
  }

  /** Digits written in an alphabet. */
  function Write(ds: seq<nat>, alphabet: string): (s: string)
    requires Digits(ds, |alphabet|)
    ensures |s| == |ds|
  {
    seq(|ds|, i requires 0 <= i < |ds| => alphabet[ds[i]])
  }

  lemma ReadWrite(ds: seq<nat>, alphabet: string)
    requires Distinct(alphabet) && Digits(ds, |alphabet|)
    ensures Read(Write(ds, alphabet), alphabet) == Some(ds)
  {
    var s := Write(ds, alphabet);
    forall i | 0 <= i < |ds| ensures s[i] in alphabet && Position(alphabet, s[i]) == Some(ds[i]) {
      PositionAt(alphabet, ds[i]);
    }
    assert Read(s, alphabet).value == ds;
  }

  lemma WriteRead(s: string, alphabet: string)
    requires Read(s, alphabet).Some?
    ensures Write(Read(s, alphabet).value, alphabet) == s
  {
  }

  /** Dictionary order on strings, as a comparison of the first differing symbol. */
  ghost predicate Before(s: string, t: string)
  {
    exists k: nat :: SplitsAt(s, t, k)
  }

  ghost predicate SplitsAt(s: string, t: string, k: nat)
  {
    k <= |s| && k < |t| && s[..k] == t[..k] && (k == |s| || s[k] < t[k])
  }

  /** In an ascending alphabet the dictionary order of equally long strings is the order of digits. */
  lemma WriteOrder(a: seq<nat>, b: seq<nat>, alphabet: string)
    requires |a| == |b| && Ascending(alphabet) && Digits(a, |alphabet|) && Digits(b, |alphabet|)
    ensures Before(Write(a, alphabet), Write(b, alphabet)) <==> LexBefore(a, b)
  {
    var s, t := Write(a, alphabet), Write(b, alphabet);
    AscendingDistinct(alphabet);
    if Before(s, t) {
      var k: nat :| SplitsAt(s, t, k);
      SamePrefix(a, b, s, t, k);
      OrderAt(alphabet, a[k], b[k]);
      assert DiffersFirstAt(a, b, k);
    }
    if LexBefore(a, b) {
      var k: nat :| DiffersFirstAt(a, b, k) && a[k] < b[k];
      SamePrefix(a, b, s, t, k);
      OrderAt(alphabet, a[k], b[k]);
      assert SplitsAt(s, t, k);
    }
  }

  lemma SamePrefix(a: seq<nat>, b: seq<nat>, s: string, t: string, k: nat)
    requires |a| == |b| == |s| == |t| && k <= |a|
    requires forall i, j :: 0 <= i < |a| && 0 <= j < |b| ==> (s[i] == t[j] <==> a[i] == b[j])
    ensures s[..k] == t[..k] <==> a[..k] == b[..k]
  {
    if s[..k] == t[..k] {
      forall i | 0 <= i < k ensures a[i] == b[i] { assert s[..k][i] == t[..k][i]; }
    }
    if a[..k] == b[..k] {
      forall i | 0 <= i < k ensures s[i] == t[i] { assert a[..k][i] == b[..k][i]; }
    }
  }

  lemma OrderAt(alphabet: string, i: nat, j: nat)
    requires Ascending(alphabet) && i < |alphabet| && j < |alphabet|
    ensures alphabet[i] < alphabet[j] <==> i < j
  {
    if i < j { AscendingBetween(alphabet, i, j); }
    if j < i { AscendingBetween(alphabet, j, i); }
  }

  predicate IsUpper(c: char) { 'A' <= c <= 'Z' }

  predicate IsLower(c: char) { 'a' <= c <= 'z' }

  predicate IsDigit(c: char) { '0' <= c <= '9' }

  function UpperChar(c: char): char
  {
    if IsLower(c) then c - 'a' + 'A' else c
  }

  function LowerChar(c: char): char
  {
    if IsUpper(c) then c - 'A' + 'a' else c
  }

  function Upper(s: string): (u: string)
    ensures |u| == |s|
  {
    seq(|s|, i requires 0 <= i < |s| => UpperChar(s[i]))
  }

  function Lower(s: string): (u: string)
    ensures |u| == |s|
  {
    seq(|s|, i requires 0 <= i < |s| => LowerChar(s[i]))
  }

  // ----- which alphabets these are

  /** Digits, and letters other than the four that are easily mistaken. */
  predicate IsTypeIdSymbol(c: char)
  {
    IsDigit(c) || (IsLower(c) && c != 'i' && c != 'l' && c != 'o' && c != 'u')
  }

  predicate IsDataSymbol(c: char)
  {
    IsDigit(c) || (IsUpper(c) && c != 'I' && c != 'L' && c != 'O' && c != 'U')
  }

  predicate IsHexSymbol(c: char)
  {
    IsDigit(c) || 'a' <= c <= 'f'
  }

  /** Ascending alphabets with the same symbols are equal. */
  lemma {:induction false} AscendingUnique(a: string, b: string)
    requires Ascending(a) && Ascending(b) && forall c :: c in a <==> c in b
    ensures a == b
    decreases |a|
  {
    assert |a| > 0 ==> a[|a| - 1] in b;
    assert |b| > 0 ==> b[|b| - 1] in a;
    if a != [] {
      var n := |a| - 1;
      var m := |b| - 1;
      SameLast(a, b);
      BeforeLast(a);
      BeforeLast(b);
      forall c ensures c in a[..n] <==> c in b[..m] {
        assert c in a[..n] <==> c in a && c != a[n];
        assert c in b[..m] <==> c in b && c != b[m];
      }
      AscendingUnique(a[..n], b[..m]);
      assert a == a[..n] + [a[n]] && b == b[..m] + [b[m]];
    }
  }

  lemma SameLast(a: string, b: string)
    requires Ascending(a) && Ascending(b) && a != [] && b != [] && a[|a| - 1] in b && b[|b| - 1] in a
    ensures a[|a| - 1] == b[|b| - 1]
  {
    var i :| 0 <= i < |a| && a[i] == b[|b| - 1];
    var j :| 0 <= j < |b| && b[j] == a[|a| - 1];
    if i < |a| - 1 { AscendingBetween(a, i, |a| - 1); }
    if j < |b| - 1 { AscendingBetween(b, j, |b| - 1); }
  }

  lemma BeforeLast(a: string)
    requires Ascending(a) && a != []
    ensures Ascending(a[..|a| - 1]) && forall c :: c in a[..|a| - 1] <==> c in a && c != a[|a| - 1]
  {
    var n := |a| - 1;
    AscendingDistinct(a);
    forall c ensures c in a[..n] <==> c in a && c != a[n] {
      if c in a && c != a[n] {
        var i :| 0 <= i < |a| && a[i] == c;
        assert a[..n][i] == c;
      }
    }
  }

  lemma TypeIdMember(c: char)
    ensures c in TypeIdSymbols() <==> IsTypeIdSymbol(c)
  {
  }

  lemma DataMember(c: char)
    ensures c in Data() <==> IsDataSymbol(c)
  {
  }

  lemma HexMember(c: char)
    ensures c in Hex() <==> IsHexSymbol(c)
  {
  }

  lemma DecimalMember(c: char)
    ensures c in Decimal() <==> IsDigit(c)
  {
  }

  /** The TypeID alphabet is the digits and lower-case letters but i, l, o and u, in ascending order. */
  lemma TypeIdAlphabet(a: string)
    ensures a == TypeIdSymbols() <==> Ascending(a) && forall c :: c in a <==> IsTypeIdSymbol(c)
  {
    TypeIdAscends();
    hide TypeIdSymbols, IsTypeIdSymbol;
    forall c ensures c in TypeIdSymbols() <==> IsTypeIdSymbol(c) { TypeIdMember(c); }
    if Ascending(a) && forall c :: c in a <==> IsTypeIdSymbol(c) { AscendingUnique(a, TypeIdSymbols()); }
  }

  /** The data alphabet is the same in upper case. */
  lemma DataAlphabet(a: string)
    ensures a == Data() <==> Ascending(a) && forall c :: c in a <==> IsDataSymbol(c)
  {
    DataAscends();
    hide Data, IsDataSymbol;
    forall c ensures c in Data() <==> IsDataSymbol(c) { DataMember(c); }
    if Ascending(a) && forall c :: c in a <==> IsDataSymbol(c) { AscendingUnique(a, Data()); }
  }

  /** The check symbols: the data symbols in their order, then those of the remainders 32 to 36. */
  lemma CheckAlphabet()
    ensures |Check()| == 37 && Check()[..32] == Data()
    ensures Check()[32] == '*' && Check()[33] == '~' && Check()[34] == '$' && Check()[35] == '=' && Check()[36] == 'U'
  {
    DataAscends();
  }

  /** A lower-case letter and its capital have the same place among the letters; nothing else changes case. */
  lemma CaseExactly(c: char)
    ensures IsLower(c) ==> IsUpper(UpperChar(c)) && UpperChar(c) as int - 'A' as int == c as int - 'a' as int
    ensures IsUpper(c) ==> IsLower(LowerChar(c)) && LowerChar(c) as int - 'a' as int == c as int - 'A' as int
    ensures !IsLower(c) ==> UpperChar(c) == c
    ensures !IsUpper(c) ==> LowerChar(c) == c
    ensures 'A' as int == 65 && 'Z' as int == 90 && 'a' as int == 97 && 'z' as int == 122
  {
  }
}
