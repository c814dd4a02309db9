/** The 26-symbol base-32 suffix of a 128-bit number, in the shift-and-mask form. */
module TypeId {
  import opened Wrappers
  import opened Errors
  import opened Positional
  import opened Alphabet

  /** 2 to the power 128: what a u128 cannot hold. */
  function Limit(): nat { Pow(2, 128) }

  lemma LimitIs()
    ensures Limit() == Pow(16, 32) && Pow(32, 26) == 4 * Limit() && Limit() == 8 * Pow(32, 25)
    ensures Limit() > 0
  {
    PowMul(2, 4, 32);
    PowMul(2, 5, 25);
    PowMul(2, 5, 26);
    PowAdd(2, 3, 125);
    PowAdd(2, 2, 128);
    SmallPowers();
    PowPositive(2, 128);
  }

  lemma SmallPowers()
    ensures Pow(2, 2) == 4 && Pow(2, 3) == 8 && Pow(2, 4) == 16 && Pow(2, 5) == 32 && Pow(2, 8) == 256 && Pow(16, 2) == 256
  {
    assert Pow(2, 1) == 2;
    assert Pow(2, 2) == 4;
    assert Pow(2, 3) == 8;
    assert Pow(2, 4) == 16;
    assert Pow(2, 5) == 32;
    assert Pow(2, 6) == 64;
    assert Pow(2, 7) == 128;
    assert Pow(16, 1) == 16;
  }

  /** The suffix of a number: its 26 base-32 digits in the TypeID alphabet. */
  function Suffix(v: nat): (s: string)
    ensures |s| == 26
  {
    TypeIdAscends();
    Write(ToDigits(v, 32, 26), TypeIdSymbols())
  }

  /** What a suffix decodes to. */
  function Decoded(s: string): Result<nat, Error>
  {
    if |s| != 26 || s[0] > '7' then Failure(InvalidPid)
    else match Read(s, TypeIdSymbols())
      case None => Failure(InvalidPid)
      case Some(ds) => Success(Value(ds, 32))
  }

  /** A symbol occurs in the suffix of some 128-bit number, and in some suffix that decodes, exactly when
      it is a digit or a lower-case letter other than i, l, o and u. */
  lemma SuffixAlphabet(c: char)
    ensures (exists v: nat :: v < Limit() && c in Suffix(v)) <==> IsTypeIdSymbol(c)
    ensures (exists s: string :: Decoded(s).Success? && c in s) <==> IsTypeIdSymbol(c)
  {
    hide *;
    TypeIdMember(c);
    forall v: nat | c in Suffix(v) ensures c in TypeIdSymbols() { SuffixMembers(v, c); }
    forall s: string | Decoded(s).Success? && c in s ensures c in TypeIdSymbols() { DecodedMembers(s, c); }
    if c in TypeIdSymbols() {
      TypeIdAscends();
      var d := Position(TypeIdSymbols(), c).value;
      LimitAbove(d);
      LowSuffix(d, c);
    }
  }

  lemma LimitAbove(d: nat)
    requires d < 32
    ensures d < Limit()
  {
    LimitIs();
    HighPower();
    hide Pow, Limit;
  }

  lemma SuffixMembers(v: nat, c: char)
    requires c in Suffix(v)
    ensures c in TypeIdSymbols()
  {
    TypeIdAscends();
    hide TypeIdSymbols;
    var i :| 0 <= i < |Suffix(v)| && Suffix(v)[i] == c;
  }

  lemma DecodedMembers(s: string, c: char)
    requires Decoded(s).Success? && c in s
    ensures c in TypeIdSymbols()
  {
    hide TypeIdSymbols, Value;
  }

  /** A number below 32 has its symbol at the end of its suffix, behind zeros. */
  lemma LowSuffix(d: nat, c: char)
    requires d < 32 == |TypeIdSymbols()| && c == TypeIdSymbols()[d]
    ensures c in Suffix(d) && Decoded(Suffix(d)).Success?
  {
    hide *;
    LimitAbove(d);
    LowDigits(d);
    LastSymbol(d, c);
    LowDecodes(d);
  }

  lemma LowDigits(d: nat)
    requires d < 32
    ensures ToDigits(d, 32, 26)[25] == d && ToDigits(d, 32, 26)[0] == 0
  {
    hide *;
    DigitAt(d, 32, 26, 25);
    DigitAt(d, 32, 26, 0);
    HighPower();
    LowQuotients(d, Pow(32, 25));
  }

  lemma HighPower()
    ensures Pow(32, 0) == 1 && Pow(32, 25) >= 32
  {
    PowPositive(32, 24);
    assert Pow(32, 25) == 32 * Pow(32, 24);
  }

  lemma LowQuotients(d: nat, p: nat)
    requires d < 32 <= p
    ensures Remainder(Quotient(d, 1), 32) == d && Remainder(Quotient(d, p), 32) == 0
  {
    QuotientOne(d);
    DivUnique(d, p, 0, d);
  }

  lemma LastSymbol(d: nat, c: char)
    requires d < 32 == |TypeIdSymbols()| && c == TypeIdSymbols()[d] && ToDigits(d, 32, 26)[25] == d
    ensures c in Suffix(d)
  {
    hide TypeIdSymbols, ToDigits;
    assert Suffix(d)[25] == c;
  }

  lemma LowDecodes(d: nat)
    requires d < 32 && ToDigits(d, 32, 26)[0] == 0
    ensures Decoded(Suffix(d)).Success?
  {
    TypeIdAscends();
    assert TypeIdSymbols()[0] == '0';
    hide TypeIdSymbols, ToDigits, Value;
    assert Suffix(d)[0] == '0';
  }

  // ----- shift and mask

  function Symbol(d: nat): char
    requires d < 32
  {
    TypeIdAscends();
    TypeIdSymbols()[d]
  }

  method EncodeSuffix(number: nat) returns (suffix: string)
    requires number < Limit()
    ensures suffix == Suffix(number)
  {
    hide *;
    ghost var digits := ToDigits(number, 32, 26);
    var result := new char[26](_ => '0');
    var value := number;
    var index := 26;
    assert digits[..26] == digits;
    while index > 0
      invariant 0 <= index <= 26
      invariant ToDigits(value, 32, index) == digits[..index]
      invariant forall k :: index <= k < 26 ==> digits[k] < 32 && result[k] == Symbol(digits[k])
    {
      LastDigit(value, index, digits);
      index := index - 1;
      result[index] := Symbol(Remainder(value, 32));
      value := Quotient(value, 32);
    }
    SuffixOf(number, digits, result[..]);
    suffix := result[..];
  }

  lemma LastDigit(v: nat, n: nat, ds: seq<nat>)
    requires 0 < n <= |ds| && ToDigits(v, 32, n) == ds[..n]
    ensures ToDigits(Quotient(v, 32), 32, n - 1) == ds[..n - 1] && ds[n - 1] == Remainder(v, 32)
  {
    assert ds[..n] == ds[..n - 1] + [ds[n - 1]];
  }

  lemma SuffixOf(v: nat, ds: seq<nat>, s: string)
    requires ds == ToDigits(v, 32, 26) && |s| == 26
    requires forall k :: 0 <= k < 26 ==> ds[k] < 32 && s[k] == Symbol(ds[k])
    ensures s == Suffix(v)
  {
    TypeIdAscends();
  }

  /** A left shift by five in 128 bits, and the new symbol in the low bits it freed. */
  function ShiftIn(result: nat, position: nat): nat
  {
    LimitIs();
    Remainder(result * 32, Limit()) + position
  }

  method DecodeSuffix(value: string) returns (r: Result<nat, Error>)
    ensures r == Decoded(value)
  {
    if |value| != 26 || value[0] > '7' { return Failure(InvalidPid); }
    assert |TypeIdSymbols()| == 32 by { TypeIdAscends(); }
    hide *;
    var result := 0;
    ghost var digits: seq<nat> := [];
    StartDigits(value);
    for i := 0 to 26
      invariant Read(value[..i], TypeIdSymbols()) == Some(digits) && |digits| == i
      invariant result == Value(digits, 32)
    {
      var position := Position(TypeIdSymbols(), value[i]);
      if position.None? { DecodedForeign(value, i); return Failure(InvalidPid); }
      var p := position.value;
      NextDigit(value, i, digits);
      NoOverflow(value, i, digits);
      result := ShiftIn(result, p);
      digits := digits + [p];
    }
    DecodedAll(value, digits);
    r := Success(result);
  }

  lemma StartDigits(s: string)
    ensures Read(s[..0], TypeIdSymbols()) == Some([]) && Value([], 32) == 0
  {
    assert Read(s[..0], TypeIdSymbols()).value == [];
  }

  lemma DecodedForeign(s: string, i: nat)
    requires i < |s| && s[i] !in TypeIdSymbols()
    ensures Decoded(s) == Failure(InvalidPid)
  {
  }

  lemma DecodedAll(s: string, digits: seq<nat>)
    requires |s| == 26 && s[0] <= '7' && Read(s[..26], TypeIdSymbols()) == Some(digits)
    ensures Decoded(s) == Success(Value(digits, 32))
  {
    assert s[..26] == s;
  }

  lemma NextDigit(s: string, i: nat, digits: seq<nat>)
    requires i < |s| && Read(s[..i], TypeIdSymbols()) == Some(digits) && s[i] in TypeIdSymbols()
    ensures var d := Position(TypeIdSymbols(), s[i]).value;
            Read(s[..i + 1], TypeIdSymbols()) == Some(digits + [d]) && d < 32
            && Value(digits + [d], 32) == Value(digits, 32) * 32 + d
  {
    TypeIdAscends();
    hide TypeIdSymbols;
    var d := Position(TypeIdSymbols(), s[i]).value;
    var t := s[..i + 1];
    forall k | 0 <= k < |t| ensures t[k] in TypeIdSymbols() {
      if k < i { assert t[k] == s[..i][k]; }
    }
    assert forall k :: 0 <= k < i ==> t[k] == s[..i][k];
    assert Read(t, TypeIdSymbols()).value == digits + [d];
    ValueAppend(digits, d, 32);
  }

  /** With a first symbol of at most '7' no shift of the loop loses a bit. */
  lemma NoOverflow(s: string, i: nat, digits: seq<nat>)
    requires |s| == 26 && i < 26 && s[0] <= '7' && Read(s[..i], TypeIdSymbols()) == Some(digits)
    ensures forall d :: 0 <= d < 32 ==> ShiftIn(Value(digits, 32), d) == Value(digits, 32) * 32 + d
  {
    TypeIdAscends();
    LimitIs();
    if i > 0 {
      assert s[..i][0] == s[0];
      FirstDigitSmall(s[0]);
      SmallHead(digits);
    }
    Shifted(Value(digits, 32));
  }

  lemma SymbolAtMostSeven(d: nat)
    requires d < 32
    ensures |TypeIdSymbols()| == 32 && (TypeIdSymbols()[d] <= '7' <==> d <= 7)
  {
    TypeIdAscends();
    var t := TypeIdSymbols();
    assert t[7] == '7';
    hide TypeIdSymbols;
    if d != 7 { OrderAt(t, d, 7); }
  }

  lemma FirstDigitSmall(c: char)
    requires c in TypeIdSymbols()
    ensures Position(TypeIdSymbols(), c).value <= 7 <==> c <= '7'
  {
    TypeIdAscends();
    hide TypeIdSymbols;
    SymbolAtMostSeven(Position(TypeIdSymbols(), c).value);
  }

  /** A leading digit of at most 7 keeps a value of at most 26 digits below the limit, and one of
      at most 25 digits below a thirty-second of it. */
  lemma SmallHead(ds: seq<nat>)
    requires 0 < |ds| <= 26 && Digits(ds, 32) && ds[0] <= 7
    ensures Value(ds, 32) < Limit()
    ensures |ds| < 26 ==> Value(ds, 32) * 32 < Limit()
  {
    LimitIs();
    hide Limit;
    var n := |ds| - 1;
    ValueBound(ds[1..], 32);
    assert Value(ds, 32) < 8 * Pow(32, n) by { hide Pow; MulMonotone(ds[0], 7, Pow(32, n)); }
    PowAdd(32, n, 25 - n);
    PowPositive(32, n);
    PowPositive(32, 25 - n);
    hide Value;
    if n < 25 {
      assert Pow(32, 25 - n) == 32 * Pow(32, 24 - n);
      PowPositive(32, 24 - n);
      hide Pow;
      AtLeast(Pow(32, n), Pow(32, 24 - n), Pow(32, 25));
    }
  }

  lemma AtLeast(p: nat, q: nat, r: nat)
    requires q > 0 && r == p * (32 * q)
    ensures r >= 32 * p
  {
    MulMonotone(32, 32 * q, p);
  }

  lemma Shifted(v: nat)
    requires v * 32 < Limit()
    ensures forall d :: 0 <= d < 32 ==> ShiftIn(v, d) == v * 32 + d
  {
    LimitIs();
    hide Limit;
    DivUnique(v * 32, Limit(), 0, v * 32);
  }

  /** The loop without its guard, over all symbol positions. */
  function Unguarded(ds: seq<nat>): nat
  {
    if ds == [] then 0 else ShiftIn(Unguarded(ds[..|ds| - 1]), ds[|ds| - 1])
  }

  /** The guard on the first symbol is exactly what the 128-bit loop needs: on 26 symbols the
      unguarded loop is right if and only if the first symbol is at most '7'. */
  lemma GuardExact(ds: seq<nat>)
    requires |ds| == 26 && Digits(ds, 32)
    ensures Unguarded(ds) == Value(ds, 32) <==> ds[0] <= 7
    ensures Value(ds, 32) < Limit() <==> ds[0] <= 7
  {
    LimitIs();
    UnguardedWraps(ds);
    if ds[0] <= 7 {
      SmallHead(ds);
      hide *;
      DivUnique(Value(ds, 32), Limit(), 0, Value(ds, 32));
    } else {
      assert Value(ds, 32) >= Limit() by {
        hide Limit;
        MulMonotone(8, ds[0], Pow(32, 25));
      }
    }
  }

  lemma {:induction false} UnguardedWraps(ds: seq<nat>)
    requires Digits(ds, 32)
    ensures Limit() > 0 && Unguarded(ds) == Remainder(Value(ds, 32), Limit())
  {
    hide *;
    LimitIs();
    if ds == [] {
      UnguardedNothing();
    } else {
      var n := |ds| - 1;
      DigitsSplit(ds, n);
      UnguardedWraps(ds[..n]);
      UnguardedStep(ds, n);
      LimitMultiple();
      WrapStep(Value(ds[..n], 32), ds[n], Limit(), Pow(2, 123));
    }
  }

  lemma UnguardedNothing()
    ensures Limit() > 0 && Unguarded([]) == Remainder(Value([], 32), Limit())
  {
    LimitIs();
    hide Limit;
    DivUnique(0, Limit(), 0, 0);
  }

  lemma DigitsSplit(ds: seq<nat>, n: nat)
    requires Digits(ds, 32) && |ds| == n + 1
    ensures Digits(ds[..n], 32) && ds[n] < 32
  {
  }

  lemma UnguardedStep(ds: seq<nat>, n: nat)
    requires |ds| == n + 1 && Limit() > 0
    ensures Unguarded(ds) == Remainder(Unguarded(ds[..n]) * 32, Limit()) + ds[n]
    ensures Value(ds, 32) == Value(ds[..n], 32) * 32 + ds[n]
  {
    hide Value, Limit, Remainder;
    ValueAppend(ds[..n], ds[n], 32);
    assert ds == ds[..n] + [ds[n]];
  }

  lemma LimitMultiple()
    ensures Limit() == 32 * Pow(2, 123)
  {
    PowAdd(2, 5, 123);
    SmallPowers();
  }

  /** Truncating before or after a shift gives the same 128 bits. */
  lemma WrapStep(v: nat, d: nat, limit: nat, m: nat)
    requires d < 32 && limit == 32 * m && limit > 0
    ensures Remainder(Remainder(v, limit) * 32, limit) + d == Remainder(v * 32 + d, limit)
  {
    hide *;
    var q, r := Quotient(v, limit), Remainder(v, limit);
    QuotientRemainder(v, limit);
    var k, s := Quotient(r * 32, limit), Remainder(r * 32, limit);
    QuotientRemainder(r * 32, limit);
    MultipleOf32(r, k, m, s);
    Combine(v, d, q, k, r, s, limit);
    DivUnique(v * 32 + d, limit, 32 * q + k, s + d);
  }

  lemma QuotientRemainder(v: nat, d: nat)
    requires d > 0
    ensures v == Quotient(v, d) * d + Remainder(v, d)
  {
    DivMod(v, d);
  }

  lemma MultipleOf32(r: nat, k: nat, m: nat, s: nat)
    requires r * 32 == k * (32 * m) + s && s < 32 * m
    ensures s + 31 < 32 * m
  {
    assert k * (32 * m) == 32 * (k * m);
    assert s == 32 * (r - k * m);
  }

  lemma Combine(v: nat, d: nat, q: nat, k: nat, r: nat, s: nat, limit: nat)
    requires v == q * limit + r && r * 32 == k * limit + s
    ensures v * 32 + d == (32 * q + k) * limit + (s + d)
  {
    assert (32 * q + k) * limit == 32 * (q * limit) + k * limit;
  }
}
