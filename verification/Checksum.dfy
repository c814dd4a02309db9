/** The modulo-37 check symbols of random (base 32) and sequential (base 10) references,
    and exactly which transcription errors they catch. */
module Checksum {
  import opened Wrappers
  import opened Errors
  import opened Positional
  import opened Alphabet

  function CheckAt(remainder: nat): char
    requires remainder < 37
  {
    CheckDistinct();
    Check()[remainder]
  }

  /** The check symbol of a payload is that of its whole value, modulo 37. */
  function CheckSymbol(payload: string, alphabet: string): Result<char, Error>
  {
    if payload == [] then Failure(InvalidRefLength)
    else match Read(payload, alphabet)
      case None => Failure(InvalidRefSymbol)
      case Some(ds) => Success(CheckAt(Value(ds, |alphabet|) % 37))
  }

  /** One step of the incremental calculation, for the prefix of `payload` read so far. */
  lemma ReadNext(payload: string, i: nat, alphabet: string, base: nat, digits: seq<nat>)
    requires base == |alphabet| && i < |payload| && Read(payload[..i], alphabet) == Some(digits) && payload[i] in alphabet
    ensures var d := Position(alphabet, payload[i]).value;
            Read(payload[..i + 1], alphabet) == Some(digits + [d])
            && Value(digits + [d], base) % 37 == Step(Value(digits, base) % 37, base, d)
  {
    var d := Position(alphabet, payload[i]).value;
    var t := payload[..i + 1];
    forall k | 0 <= k < |t| ensures t[k] in alphabet {
      if k < i { assert t[k] == payload[..i][k]; }
    }
    assert forall k :: 0 <= k < i ==> t[k] == payload[..i][k];
    assert Read(t, alphabet).value == digits + [d];
    ValueAppend(digits, d, base);
    StepValue(Value(digits, base), base, d);
  }

  /** How the running remainder absorbs one more digit. */
  function Step(remainder: nat, base: nat, d: nat): nat
  {
    (remainder * base + d) % 37
  }

  lemma StepValue(v: nat, base: nat, d: nat)
    ensures Step(v % 37, base, d) == (v * base + d) % 37
  {
    var q, r := v / 37, v % 37;
    assert v * base + d == 37 * (q * base) + (r * base + d) by {
      assert (37 * q + r) * base == 37 * (q * base) + r * base;
    }
    AddMultiple(q * base, r * base + d);
  }

  lemma AddMultiple(m: int, x: int)
    ensures (37 * m + x) % 37 == x % 37
  {
  }

  lemma CheckSymbolOf(payload: string, alphabet: string, digits: seq<nat>)
    requires payload != [] && Read(payload[..|payload|], alphabet) == Some(digits)
    ensures CheckSymbol(payload, alphabet) == Success(CheckAt(Value(digits, |alphabet|) % 37))
  {
    assert payload[..|payload|] == payload;
  }

  lemma CheckSymbolForeign(payload: string, alphabet: string, i: nat)
    requires i < |payload| && payload[i] !in alphabet
    ensures CheckSymbol(payload, alphabet) == Failure(InvalidRefSymbol)
  {
  }

  method CalculateReferenceCheckSymbol(payload: string) returns (r: Result<char, Error>)
    ensures r == CheckSymbol(payload, Data())
  {
    if |payload| == 0 { return Failure(InvalidRefLength); }
    assert |Data()| == 32 by { DataAscends(); }
    hide *;
    var remainder := 0;
    ghost var digits: seq<nat> := [];
    StartReading(payload, Data());
    for i := 0 to |payload|
      invariant Read(payload[..i], Data()) == Some(digits)
      invariant remainder == Value(digits, 32) % 37
    {
      var value := Position(Data(), payload[i]);
      if value.None? { CheckSymbolForeign(payload, Data(), i); return Failure(InvalidRefSymbol); }
      var d := value.value;
      ReadNext(payload, i, Data(), 32, digits);
      digits := digits + [d];
      remainder := Step(remainder, 32, d);
    }
    CheckSymbolOf(payload, Data(), digits);
    r := Success(CheckAt(remainder));
  }

  lemma StartReading(payload: string, alphabet: string)
    ensures Read(payload[..0], alphabet) == Some([]) && Value([], |alphabet|) == 0
  {
    assert Read(payload[..0], alphabet).value == [];
  }

  method CalculateSequentialCheckSymbol(payload: string) returns (r: Result<char, Error>)
    ensures r == CheckSymbol(payload, Decimal())
  {
    if |payload| == 0 { return Failure(InvalidRefLength); }
    hide *;
    assert |Decimal()| == 10 by { DecimalAscends(); }
    var remainder := 0;
    ghost var digits: seq<nat> := [];
    StartReading(payload, Decimal());
    for i := 0 to |payload|
      invariant Read(payload[..i], Decimal()) == Some(digits)
      invariant remainder == Value(digits, 10) % 37
    {
      DecimalSymbol(payload[i]);
      if payload[i] < '0' || payload[i] > '9' { CheckSymbolForeign(payload, Decimal(), i); return Failure(InvalidRefSymbol); }
      var value := (payload[i] - '0') as nat;
      remainder := Step(remainder, 10, value);
      ReadNext(payload, i, Decimal(), 10, digits);
      digits := digits + [value];
    }
    CheckSymbolOf(payload, Decimal(), digits);
    r := Success(CheckAt(remainder));
  }

  lemma DecimalSymbol(c: char)
    ensures c in Decimal() <==> '0' <= c <= '9'
    ensures '0' <= c <= '9' ==> Position(Decimal(), c) == Some((c - '0') as nat)
  {
    DecimalAscends();
    if IsDigit(c) {
      var d := (c - '0') as nat;
      assert Decimal()[d] == c;
      PositionAt(Decimal(), d);
    }
  }

  // ----- arithmetic modulo 37

  lemma Descent(a: int, r: nat)
    requires 0 < r < 37 && a * r % 37 == 0
    ensures a % 37 == 0
    decreases r
  {
    if r > 1 {
      var q, s := 37 / r, 37 % r;
      NoDivisor(r);
      var m := a * r / 37;
      assert a * s == 37 * (a - q * m) by {
        assert a * (q * r + s) == q * (a * r) + a * s;
        assert q * (37 * m) == 37 * (q * m);
      }
      Descent(a, s);
    }
  }

  lemma NoDivisor(r: nat)
    requires 1 < r < 37
    ensures 0 < 37 % r < r && 37 == 37 / r * r + 37 % r
  {
    DivMod(37, r);
    var q := 37 / r;
    if r <= 6 {
      assert r == 2 || r == 3 || r == 4 || r == 5 || r == 6;
    } else if 37 % r == 0 {
      SmallQuotient(q, r);
    }
  }

  lemma SmallQuotient(q: nat, r: nat)
    requires 6 < r < 37
    ensures q * r != 37
  {
    if q >= 6 { MulMonotone(6, q, r); }
    else if q == 0 {} else if q == 1 {} else if q == 2 {} else if q == 3 {} else if q == 4 {}
  }

  lemma MultipleOf37(a: int, b: int)
    requires a % 37 == 0
    ensures a * b % 37 == 0
  {
    var m := a / 37;
    assert (37 * m) * b == 37 * (m * b);
  }

  lemma ReduceFactor(a: int, b: int)
    ensures a * b % 37 == a * (b % 37) % 37
  {
    var q, r := b / 37, b % 37;
    assert a * (37 * q + r) == 37 * (a * q) + a * r;
  }

  /** 37 is prime: a product vanishes only when a factor does. */
  lemma ProductVanishes(a: int, b: int)
    ensures a * b % 37 == 0 <==> a % 37 == 0 || b % 37 == 0
  {
    ReduceFactor(a, b);
    if a % 37 == 0 {
      MultipleOf37(a, b);
    } else if a * b % 37 == 0 && b % 37 != 0 {
      Descent(a, b % 37);
    }
  }

  lemma TenTimes(x: nat, k: nat)
    requires k > 0 && x % 37 == if (k - 1) % 3 == 0 then 1 else if (k - 1) % 3 == 1 then 10 else 26
    ensures 10 * x % 37 == if k % 3 == 0 then 1 else if k % 3 == 1 then 10 else 26
  {
  }

  /** Ten has order three modulo 37. */
  lemma {:induction false} PowersOfTen(k: nat)
    ensures Pow(10, k) % 37 == if k % 3 == 0 then 1 else if k % 3 == 1 then 10 else 26
  {
    if k > 0 {
      PowersOfTen(k - 1);
      TenTimes(Pow(10, k - 1), k);
    }
  }

  lemma TenToTheMultipleOfThree(k: nat)
    ensures Pow(10, k) % 37 == 1 <==> k % 3 == 0
    ensures Pow(10, k) % 37 != 36
  {
    PowersOfTen(k);
  }

  const POWERS_OF_32: seq<nat> := [
    1, 32, 25, 23, 33, 20, 11, 19, 16, 31, 30, 35, 10, 24, 28, 8, 34, 15,
    36, 5, 12, 14, 4, 17, 26, 18, 21, 6, 7, 2, 27, 13, 9, 29, 3, 22]

  /** Entry `i` of the cycle: 32 to the power `i`, modulo 37. */
  function Root(i: nat): nat
    requires i < 36
  {
    var n := |POWERS_OF_32|;
    assert n == 36;
    POWERS_OF_32[i]
  }

  lemma RootTable(i: nat)
    requires i < 36
    ensures Root(if i == 35 then 0 else i + 1) == Root(i) * 32 % 37
    ensures 0 < Root(i) < 37
    ensures Root(i) == 1 <==> i == 0
    ensures Root(i) == 36 <==> i == 18
  {
  }

  lemma {:induction false} PowersCycle(k: nat)
    ensures Pow(32, k) % 37 == Root(k % 36)
  {
    if k > 0 {
      hide Root;
      PowersCycle(k - 1);
      RootTable((k - 1) % 36);
      StepValue(Pow(32, k - 1), 32, 0);
      WrapAround(k);
    }
  }

  lemma WrapAround(k: nat)
    requires k > 0
    ensures k % 36 == if (k - 1) % 36 == 35 then 0 else (k - 1) % 36 + 1
  {
  }

  /** Thirty-two is a primitive root modulo 37: its powers repeat only after 36 steps. */
  lemma PowersOf32(k: nat)
    ensures 0 < Pow(32, k) % 37
    ensures Pow(32, k) % 37 == 1 <==> k % 36 == 0
    ensures Pow(32, k) % 37 == 36 <==> k % 36 == 18
  {
    hide *;
    PowersCycle(k);
    RootTable(k % 36);
  }

  // ----- error detection

  /** A payload followed by its check symbol, as a parser sees it. */
  predicate Checked(body: string, alphabet: string)
  {
    |body| >= 2 && CheckSymbol(body[..|body| - 1], alphabet) == Success(body[|body| - 1])
  }

  function Swap(body: string, i: nat, j: nat): string
    requires i < |body| && j < |body|
  {
    body[i := body[j]][j := body[i]]
  }

  /** Replacing one digit changes the value by the difference times the weight of its place. */
  lemma ReplaceDigit(ds: seq<nat>, base: nat, i: nat, d: nat)
    requires i < |ds|
    ensures Value(ds[i := d], base) - Value(ds, base) == (d - ds[i]) * Pow(base, |ds| - 1 - i)
  {
    hide *;
    var es := ds[i := d];
    SplitValue(ds, base, i);
    SplitValue(es, base, i);
    assert es[..i] == ds[..i] && es[i + 1..] == ds[i + 1..];
    Factor(d, ds[i], Pow(base, |ds| - 1 - i));
  }

  lemma Factor(d: int, e: int, p: int)
    ensures d * p - e * p == (d - e) * p
  {
  }

  lemma Congruent(v: int, w: int, d: int)
    requires v - w == d
    ensures v % 37 == w % 37 <==> d % 37 == 0
  {
  }

  /** Every power of either base is invertible modulo 37. */
  lemma PowerInvertible(base: nat, k: nat)
    requires base == 32 || base == 10
    ensures Pow(base, k) % 37 != 0
  {
    if base == 32 { PowersOf32(k); } else { PowersOfTen(k); }
  }

  /** No change of a single digit keeps the remainder. */
  lemma DigitChangeDetected(ds: seq<nat>, base: nat, i: nat, d: nat)
    requires base == 32 || base == 10
    requires Digits(ds, base) && i < |ds| && d < base && d != ds[i]
    ensures Value(ds[i := d], base) % 37 != Value(ds, base) % 37
  {
    hide *;
    DigitBound(ds, base, i);
    ReplaceDigit(ds, base, i, d);
    PowerInvertible(base, |ds| - 1 - i);
    ProductVanishes(d - ds[i], Pow(base, |ds| - 1 - i));
    Congruent(Value(ds[i := d], base), Value(ds, base), (d - ds[i]) * Pow(base, |ds| - 1 - i));
  }

  /** Exchanging two different digits keeps the remainder exactly when the power of the base
      at their distance is 1. */
  lemma DigitSwap(ds: seq<nat>, base: nat, i: nat, j: nat)
    requires base == 32 || base == 10
    requires Digits(ds, base) && i < j < |ds| && ds[i] != ds[j]
    ensures Value(ds[i := ds[j]][j := ds[i]], base) % 37 == Value(ds, base) % 37 <==> Pow(base, j - i) % 37 == 1
  {
    hide *;
    var n := |ds|;
    var es := ds[i := ds[j]];
    var p, q := Pow(base, n - 1 - j), Pow(base, j - i);
    DigitBound(ds, base, i);
    DigitBound(ds, base, j);
    ReplaceDigit(ds, base, i, ds[j]);
    ReplaceDigit(es, base, j, ds[i]);
    PowAdd(base, j - i, n - 1 - j);
    PowerInvertible(base, n - 1 - j);
    SwapArithmetic(Value(ds, base), Value(es, base), Value(es[j := ds[i]], base), ds[j] as int - ds[i], p, q);
  }

  lemma DigitBound(ds: seq<nat>, base: nat, i: nat)
    requires Digits(ds, base) && i < |ds|
    ensures ds[i] < base
  {
  }

  lemma SwapArithmetic(v: int, u: int, w: int, z: int, p: int, q: int)
    requires u - v == z * (q * p) && w - u == (-z) * p
    requires z % 37 != 0 && p % 37 != 0
    ensures w % 37 == v % 37 <==> q % 37 == 1
  {
    SwapProduct(z, p, q);
    ProductVanishes(z * p, q - 1);
    ProductVanishes(z, p);
    SwapModulo(v, w, z * p * (q - 1), z * p, q - 1);
  }

  lemma SwapProduct(z: int, p: int, q: int)
    ensures z * (q * p) + (-z) * p == z * p * (q - 1)
  {
    assert z * (q * p) == z * p * q;
    assert (-z) * p == -(z * p);
  }

  lemma SwapModulo(v: int, w: int, d: int, m: int, e: int)
    requires w - v == d && m % 37 != 0 && (d % 37 == 0 <==> m % 37 == 0 || e % 37 == 0)
    ensures w % 37 == v % 37 <==> (e + 1) % 37 == 1
  {
    Congruent(w, v, d);
  }

  /** Exchanging a digit with the check value survives exactly when the weight of the digit
      is congruent to -1. */
  lemma CheckSwap(ds: seq<nat>, base: nat, i: nat)
    requires base == 32 || base == 10
    requires Digits(ds, base) && i < |ds|
    requires var y := Value(ds, base) % 37; y != ds[i]
    ensures var y := Value(ds, base) % 37;
            Value(ds[i := y], base) % 37 == ds[i] <==> Pow(base, |ds| - 1 - i) % 37 == 36
  {
    var x, y: int, p := ds[i], Value(ds, base) % 37, Pow(base, |ds| - 1 - i);
    ReplaceDigit(ds, base, i, y);
    CheckSwapArithmetic(Value(ds, base), Value(ds[i := y], base), x, y, p);
  }

  lemma CheckSwapArithmetic(v: int, w: int, x: int, y: int, p: nat)
    requires w - v == (y - x) * p && y == v % 37 && 0 <= x < 37 && x != y
    ensures w % 37 == x <==> p % 37 == 36
  {
    OneMore(y - x, p);
    ProductVanishes(y - x, p + 1);
    CheckModulo(v, w, x, y, (y - x) * p, p);
  }

  lemma OneMore(z: int, p: int)
    ensures z * (p + 1) == z * p + z
  {
  }

  lemma CheckModulo(v: int, w: int, x: int, y: int, d: int, p: nat)
    requires w - v == d && y == v % 37 && 0 <= x < 37 && x != y
    requires (d + (y - x)) % 37 == 0 <==> (y - x) % 37 == 0 || (p + 1) % 37 == 0
    ensures w % 37 == x <==> p % 37 == 36
  {
    Remainders(v, w, x, y, d);
  }

  lemma Remainders(v: int, w: int, x: int, y: int, d: int)
    requires w - v == d && y == v % 37 && 0 <= x < 37
    ensures w % 37 == x <==> (d + (y - x)) % 37 == 0
  {
  }

  /** The check alphabet starts with either payload alphabet, and shares no further symbol with it. */
  lemma SharedSymbols(alphabet: string, y: nat)
    requires alphabet == Data() || alphabet == Decimal()
    requires y < 37
    ensures CheckAt(y) in alphabet <==> y < |alphabet|
    ensures y < |alphabet| ==> alphabet[y] == CheckAt(y) && Position(alphabet, CheckAt(y)) == Some(y)
    ensures |alphabet| == if alphabet == Data() then 32 else 10
  {
    CheckDistinct();
    DataAscends();
    DecimalAscends();
    assert forall i :: 0 <= i < 10 ==> Decimal()[i] == Data()[i];
    assert forall i :: 0 <= i < |alphabet| ==> alphabet[i] == Check()[i];
    if y < |alphabet| { PositionAt(alphabet, y); }
  }

  lemma CheckInjective(x: nat, y: nat)
    requires x < 37 && y < 37
    ensures CheckAt(x) == CheckAt(y) <==> x == y
  {
    CheckDistinct();
  }

  /** Replacing payload symbol `i` replaces digit `i`. */
  lemma ReadReplaced(payload: string, alphabet: string, i: nat, c: char)
    requires Read(payload, alphabet).Some? && i < |payload|
    ensures c !in alphabet ==> Read(payload[i := c], alphabet).None?
    ensures c in alphabet ==>
              Read(payload[i := c], alphabet) == Some(Read(payload, alphabet).value[i := Position(alphabet, c).value])
  {
    var t := payload[i := c];
    assert t[i] == c;
    if c in alphabet {
      forall k | 0 <= k < |t| ensures t[k] in alphabet {
        if k != i { assert t[k] == payload[k]; }
      }
      assert Read(t, alphabet).value == Read(payload, alphabet).value[i := Position(alphabet, c).value];
    }
  }

  /** Every single-symbol substitution is rejected, whatever the position, the check symbol included. */
  lemma SubstitutionDetected(body: string, alphabet: string, i: nat, c: char)
    requires alphabet == Data() || alphabet == Decimal()
    requires Checked(body, alphabet) && i < |body| && c != body[i]
    ensures !Checked(body[i := c], alphabet)
  {
    hide *;
    SharedSymbols(alphabet, 0);
    var ds := CheckedDigits(body, alphabet);
    var n := |body| - 1;
    var payload, t := body[..n], body[i := c];
    if i == n {
      assert t[..n] == payload;
      CheckedValue(t, alphabet, ds);
    } else {
      assert t[..n] == payload[i := c] && t[n] == body[n];
      ReadReplaced(payload, alphabet, i, c);
      if c in alphabet {
        var d := Position(alphabet, c).value;
        DigitChangeDetected(ds, |alphabet|, i, d);
        CheckedValue(t, alphabet, ds[i := d]);
        CheckInjective(Value(ds, |alphabet|) % 37, Value(ds[i := d], |alphabet|) % 37);
      } else {
        CheckedForeign(t, alphabet);
      }
    }
  }

  lemma PayloadSwap(body: string, alphabet: string, i: nat, j: nat)
    requires alphabet == Data() || alphabet == Decimal()
    requires Checked(body, alphabet) && i < j < |body| - 1 && body[i] != body[j]
    ensures Checked(Swap(body, i, j), alphabet) <==> Pow(|alphabet|, j - i) % 37 == 1
  {
    hide *;
    SharedSymbols(alphabet, 0);
    var n := |body| - 1;
    var payload, base := body[..n], |alphabet|;
    var ds := CheckedDigits(body, alphabet);
    SwapInPayload(body, i, j);
    ReadSwapped(payload, alphabet, i, j);
    DigitSwap(ds, base, i, j);
    var es := ds[i := ds[j]][j := ds[i]];
    CheckedValue(Swap(body, i, j), alphabet, es);
    CheckInjective(Value(ds, base) % 37, Value(es, base) % 37);
  }

  lemma SwapInPayload(body: string, i: nat, j: nat)
    requires i < j < |body| - 1
    ensures |Swap(body, i, j)| == |body|
    ensures Swap(body, i, j)[..|body| - 1] == Swap(body[..|body| - 1], i, j)
    ensures Swap(body, i, j)[|body| - 1] == body[|body| - 1]
  {
  }

  /** A checked body, seen as digits. */
  lemma CheckedDigits(body: string, alphabet: string) returns (ds: seq<nat>)
    requires Checked(body, alphabet)
    ensures |body| >= 2 && Read(body[..|body| - 1], alphabet) == Some(ds) && |ds| == |body| - 1
    ensures Digits(ds, |alphabet|) && body[|body| - 1] == CheckAt(Value(ds, |alphabet|) % 37)
    ensures forall i :: 0 <= i < |ds| ==> alphabet[ds[i]] == body[i]
  {
    ds := Read(body[..|body| - 1], alphabet).value;
    forall i | 0 <= i < |ds| ensures alphabet[ds[i]] == body[i] {
      assert body[..|body| - 1][i] == body[i];
    }
  }

  lemma CheckedValue(body: string, alphabet: string, ds: seq<nat>)
    requires |body| >= 2 && Read(body[..|body| - 1], alphabet) == Some(ds)
    ensures Checked(body, alphabet) <==> body[|body| - 1] == CheckAt(Value(ds, |alphabet|) % 37)
  {
  }

  lemma CheckedForeign(body: string, alphabet: string)
    requires |body| >= 2 && Read(body[..|body| - 1], alphabet).None?
    ensures !Checked(body, alphabet)
  {
  }

  lemma ReadSwapped(payload: string, alphabet: string, i: nat, j: nat)
    requires Read(payload, alphabet).Some? && i < j < |payload|
    ensures var ds := Read(payload, alphabet).value;
            Read(Swap(payload, i, j), alphabet) == Some(ds[i := ds[j]][j := ds[i]])
            && (payload[i] != payload[j] ==> ds[i] != ds[j])
  {
    ReadReplaced(payload, alphabet, i, payload[j]);
    ReadReplaced(payload[i := payload[j]], alphabet, j, payload[i]);
  }

  lemma CheckSymbolSwap(body: string, alphabet: string, i: nat)
    requires alphabet == Data() || alphabet == Decimal()
    requires Checked(body, alphabet) && i < |body| - 1 && body[i] != body[|body| - 1]
    ensures Checked(Swap(body, i, |body| - 1), alphabet)
            <==> body[|body| - 1] in alphabet && Pow(|alphabet|, |body| - 2 - i) % 37 == 36
  {
    hide *;
    var ds := CheckedDigits(body, alphabet);
    var n := |body| - 1;
    var base, c := |alphabet|, body[n];
    var x, y := ds[i], Value(ds, base) % 37;
    SharedSymbols(alphabet, y);
    DigitBound(ds, base, i);
    SharedSymbols(alphabet, x);
    var t := Swap(body, i, n);
    SwapWithLast(body, i);
    ReadReplaced(body[..n], alphabet, i, c);
    if c in alphabet {
      CheckSwap(ds, base, i);
      CheckedValue(t, alphabet, ds[i := y]);
      CheckInjective(Value(ds[i := y], base) % 37, x);
    } else {
      CheckedForeign(t, alphabet);
    }
  }

  lemma SwapWithLast(body: string, i: nat)
    requires i < |body| - 1
    ensures var n := |body| - 1; var t := Swap(body, i, n);
            |t| == |body| && t[..n] == body[..n][i := body[n]] && t[n] == body[i]
  {
  }

  /** An exchange of two different symbols, in terms of powers of the base. */
  lemma Transposition(body: string, alphabet: string, i: nat, j: nat)
    requires alphabet == Data() || alphabet == Decimal()
    requires Checked(body, alphabet) && i < j < |body| && body[i] != body[j]
    ensures Checked(Swap(body, i, j), alphabet)
            <==> if j < |body| - 1 then Pow(|alphabet|, j - i) % 37 == 1
                 else body[j] in alphabet && Pow(|alphabet|, |body| - 2 - i) % 37 == 36
  {
    hide *;
    if j < |body| - 1 { PayloadSwap(body, alphabet, i, j); } else { CheckSymbolSwap(body, alphabet, i); }
  }

  /** Random references: an exchange of two different symbols is accepted exactly at distance 36
      (or at an offset of 18 from the end, for an exchange with a check symbol that is a data symbol). */
  lemma RandomTransposition(body: string, i: nat, j: nat)
    requires Checked(body, Data()) && i < j < |body| && body[i] != body[j]
    ensures Checked(Swap(body, i, j), Data())
            <==> if j < |body| - 1 then (j - i) % 36 == 0
                 else body[j] in Data() && (|body| - 2 - i) % 36 == 18
  {
    hide *;
    assert |Data()| == 32 by { DataAscends(); }
    Transposition(body, Data(), i, j);
    PowersOf32(j - i);
    if j == |body| - 1 { PowersOf32(|body| - 2 - i); }
  }

  /** No profile is long enough for that: compact, standard and high references (8, 10 and 12
      payload symbols) catch every exchange of two different symbols. */
  lemma ProfileTransposition(body: string, i: nat, j: nat)
    requires Checked(body, Data()) && i < j < |body| && body[i] != body[j]
    requires |body| - 1 <= 12
    ensures !Checked(Swap(body, i, j), Data())
  {
    hide *;
    RandomTransposition(body, i, j);
  }

  /** Sequential references: an exchange of two different payload digits is accepted exactly when
      their distance is a multiple of three; one with the check symbol never is. */
  lemma SequentialTransposition(body: string, i: nat, j: nat)
    requires Checked(body, Decimal()) && i < j < |body| && body[i] != body[j]
    ensures Checked(Swap(body, i, j), Decimal()) <==> j < |body| - 1 && (j - i) % 3 == 0
  {
    hide *;
    assert |Decimal()| == 10 by { DecimalAscends(); }
    Transposition(body, Decimal(), i, j);
    TenToTheMultipleOfThree(j - i);
    if j == |body| - 1 { TenToTheMultipleOfThree(|body| - 2 - i); }
  }
}
