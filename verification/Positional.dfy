/** Positional notation: digit sequences, most significant digit first, in any base.
    Hexadecimal MIDs, base-32 suffixes, bit arrays, decimal counters and both check
    symbols are instances of it. */
module Positional {

  function Pow(base: nat, n: nat): nat
  {
    if n == 0 then 1 else base * Pow(base, n - 1)
  }

  predicate Digits(ds: seq<nat>, base: nat)
  {
    forall i :: 0 <= i < |ds| ==> ds[i] < base
  }

  /** The number a digit sequence stands for: every digit times the weight of its place. */
  function Value(ds: seq<nat>, base: nat): nat
  {
    if ds == [] then 0 else ds[0] * Pow(base, |ds| - 1) + Value(ds[1..], base)
  }

  function Quotient(v: nat, d: nat): nat
    requires d > 0
  {
    DivNat(v, d);
    v / d
  }

  function Remainder(v: nat, d: nat): (r: nat)
    requires d > 0
    ensures r < d
  {
    DivNat(v, d);
    v % d
  }

  lemma DivNat(v: nat, d: nat)
    requires d > 0
    ensures v / d >= 0 && 0 <= v % d < d
  {
  }

  lemma DivMod(v: nat, d: nat)
    requires d > 0
    ensures v == v / d * d + v % d && v / d >= 0 && 0 <= v % d < d
  {
  }

  /** The `n` low digits of `v`, by repeated division. */
  function ToDigits(v: nat, base: nat, n: nat): (ds: seq<nat>)
    requires base > 0
    ensures |ds| == n && Digits(ds, base)
    decreases n
  {
    if n == 0 then [] else ToDigits(Quotient(v, base), base, n - 1) + [Remainder(v, base)]
  }

  lemma PowPositive(base: nat, n: nat)
    requires base > 0
    ensures Pow(base, n) > 0
  {
    if n > 0 { PowPositive(base, n - 1); }
  }

  lemma {:induction false} PowAdd(base: nat, m: nat, n: nat)
    ensures Pow(base, m + n) == Pow(base, m) * Pow(base, n)
  {
    if m > 0 {
      PowAdd(base, m - 1, n);
      var p, q := Pow(base, m - 1), Pow(base, n);
      assert Pow(base, m + n) == base * Pow(base, m - 1 + n);
      assert base * (p * q) == (base * p) * q;
    }
  }

  lemma {:induction false} PowMul(base: nat, g: nat, n: nat)
    ensures Pow(Pow(base, g), n) == Pow(base, g * n)
  {
    if n > 0 {
      PowMul(base, g, n - 1);
      PowAdd(base, g, g * (n - 1));
      assert g + g * (n - 1) == g * n;
    }
  }

  /** Concatenation shifts the left part by the length of the right part. */
  lemma {:induction false} ValueConcat(a: seq<nat>, b: seq<nat>, base: nat)
    ensures Value(a + b, base) == Value(a, base) * Pow(base, |b|) + Value(b, base)
  {
    if a == [] {
      assert a + b == b;
    } else {
      hide Pow;
      ValueConcat(a[1..], b, base);
      assert (a + b)[1..] == a[1..] + b;
      PowAdd(base, |a| - 1, |b|);
      Distribute(a[0], Pow(base, |a| - 1), Pow(base, |b|), Value(a[1..], base));
    }
  }

  lemma Distribute(d: nat, p: nat, q: nat, x: nat)
    ensures d * (p * q) + x * q == (d * p + x) * q
  {
  }

  /** Appending one digit is one step of Horner's rule. */
  lemma ValueAppend(ds: seq<nat>, d: nat, base: nat)
    ensures Value(ds + [d], base) == Value(ds, base) * base + d
  {
    ValueConcat(ds, [d], base);
    assert Pow(base, 1) == base * Pow(base, 0);
    assert Value([d], base) == d * Pow(base, 0) + Value([d][1..], base);
  }

  lemma {:induction false} ValueBound(ds: seq<nat>, base: nat)
    requires Digits(ds, base)
    ensures Value(ds, base) < Pow(base, |ds|)
  {
    if ds != [] {
      ValueBound(ds[1..], base);
      var p := Pow(base, |ds| - 1);
      assert (ds[0] + 1) * p <= base * p by { MulMonotone(ds[0] + 1, base, p); }
    }
  }

  lemma MulMonotone(a: nat, b: nat, p: nat)
    requires a <= b
    ensures a * p <= b * p
  {
  }

  /** The first place where two sequences differ decides the order. */
  ghost predicate LexBefore(a: seq<nat>, b: seq<nat>)
  {
    exists k: nat :: DiffersFirstAt(a, b, k) && a[k] < b[k]
  }

  ghost predicate DiffersFirstAt(a: seq<nat>, b: seq<nat>, k: nat)
  {
    k < |a| && k < |b| && a[..k] == b[..k] && a[k] != b[k]
  }

  lemma {:induction false} FirstDifference(a: seq<nat>, b: seq<nat>) returns (k: nat)
    requires |a| == |b| && a != b
    ensures DiffersFirstAt(a, b, k)
  {
    if a[0] != b[0] {
      k := 0;
    } else {
      assert a == [a[0]] + a[1..] && b == [b[0]] + b[1..];
      var j := FirstDifference(a[1..], b[1..]);
      k := j + 1;
      assert a[..k] == [a[0]] + a[1..][..j] && b[..k] == [b[0]] + b[1..][..j];
    }
  }

  lemma LargerAtFirstDifference(a: seq<nat>, b: seq<nat>, base: nat, k: nat)
    requires |a| == |b| && Digits(a, base) && Digits(b, base)
    requires DiffersFirstAt(a, b, k) && a[k] < b[k]
    ensures Value(a, base) < Value(b, base)
  {
    hide Value, Pow;
    SplitValue(a, base, k);
    SplitValue(b, base, k);
    ValueBound(a[k + 1..], base);
    LargerDigit(Value(a, base), Value(b, base), Value(a[..k], base) * Pow(base, |a| - k), a[k], b[k],
                Pow(base, |a| - k - 1), Value(a[k + 1..], base), Value(b[k + 1..], base));
  }

  lemma LargerDigit(v: nat, w: nat, hi: nat, d: nat, e: nat, p: nat, lo: nat, lo': nat)
    requires v == hi + d * p + lo && w == hi + e * p + lo'
    requires d < e && lo < p
    ensures v < w
  {
    MulMonotone(d + 1, e, p);
  }

  lemma SplitValue(a: seq<nat>, base: nat, k: nat)
    requires k < |a|
    ensures Value(a, base) == Value(a[..k], base) * Pow(base, |a| - k) + a[k] * Pow(base, |a| - k - 1) + Value(a[k + 1..], base)
  {
    assert a == a[..k] + a[k..];
    assert a[k..][1..] == a[k + 1..];
    ValueConcat(a[..k], a[k..], base);
  }

  lemma OneFirstDifference(a: seq<nat>, b: seq<nat>, j: nat, k: nat)
    requires DiffersFirstAt(a, b, j) && DiffersFirstAt(a, b, k)
    ensures j == k
  {
    if j < k { SameBelow(a, b, k, j); }
    if k < j { SameBelow(a, b, j, k); }
  }

  lemma SameBelow(a: seq<nat>, b: seq<nat>, k: nat, j: nat)
    requires j < k <= |a| && k <= |b| && a[..k] == b[..k]
    ensures a[j] == b[j]
  {
    assert a[..k][j] == b[..k][j];
  }

  /** Equal length: the order of the sequences is the order of their values. */
  lemma ValueOrder(a: seq<nat>, b: seq<nat>, base: nat)
    requires |a| == |b| && Digits(a, base) && Digits(b, base)
    ensures LexBefore(a, b) <==> Value(a, base) < Value(b, base)
    ensures a == b <==> Value(a, base) == Value(b, base)
  {
    if a != b {
      var k := FirstDifference(a, b);
      if a[k] < b[k] {
        LargerAtFirstDifference(a, b, base, k);
      } else {
        LargerAtFirstDifference(b, a, base, k);
        forall j: nat | DiffersFirstAt(a, b, j) ensures j == k {
          OneFirstDifference(a, b, j, k);
        }
      }
    }
  }

  /** Division produces the digits of the value, and only they do. */
  lemma {:induction false} DigitsOfValue(v: nat, base: nat, n: nat)
    requires base > 0 && v < Pow(base, n)
    ensures Value(ToDigits(v, base, n), base) == v
    decreases n
  {
    if n > 0 {
      var q, r := Quotient(v, base), Remainder(v, base);
      DivLess(v, base, Pow(base, n - 1));
      DigitsOfValue(q, base, n - 1);
      ValueAppend(ToDigits(q, base, n - 1), r, base);
    }
  }

  lemma DivLess(v: nat, base: nat, p: nat)
    requires base > 0 && v < base * p
    ensures Quotient(v, base) < p
    ensures v == Quotient(v, base) * base + Remainder(v, base)
  {
    DivMod(v, base);
    assert v == Quotient(v, base) * base + Remainder(v, base);
    if Quotient(v, base) >= p {
      MulMonotone(p, Quotient(v, base), base);
    }
  }

  lemma ValueThenDigits(ds: seq<nat>, base: nat)
    requires base > 0 && Digits(ds, base)
    ensures ToDigits(Value(ds, base), base, |ds|) == ds
  {
    ValueBound(ds, base);
    DigitsOfValue(Value(ds, base), base, |ds|);
    ValueOrder(ToDigits(Value(ds, base), base, |ds|), ds, base);
  }

  /** Digit `i` of `v` is what a shift and a mask would extract. */
  lemma {:induction false} DigitAt(v: nat, base: nat, n: nat, i: nat)
    requires base > 0 && i < n
    ensures Pow(base, n - 1 - i) > 0
    ensures ToDigits(v, base, n)[i] == Remainder(Quotient(v, Pow(base, n - 1 - i)), base)
    decreases n
  {
    PowPositive(base, n - 1 - i);
    if i < n - 1 {
      DigitAt(Quotient(v, base), base, n - 1, i);
      QuotientTwice(v, base, Pow(base, n - 2 - i));
    } else {
      QuotientOne(v);
    }
  }

  lemma QuotientOne(v: nat)
    ensures Quotient(v, 1) == v
  {
  }

  lemma QuotientTwice(v: nat, a: nat, b: nat)
    requires a > 0 && b > 0
    ensures a * b > 0 && Quotient(Quotient(v, a), b) == Quotient(v, a * b)
  {
    DivMod(v, a);
    DivMod(v / a, b);
    MulPositive(a, b);
    TwoDigits(v, v / a, v / a / b, v / a % b, v % a, a, b);
    DivUnique(v, a * b, v / a / b, v / a % b * a + v % a);
  }

  lemma TwoDigits(v: nat, u: nat, q: nat, s: nat, t: nat, a: nat, b: nat)
    requires v == u * a + t && u == q * b + s && t < a && s < b
    ensures v == q * (a * b) + (s * a + t) && s * a + t < a * b
  {
    MulMonotone(s + 1, b, a);
    assert (s + 1) * a == s * a + a;
    assert (q * b + s) * a == q * b * a + s * a;
    assert q * b * a == q * (a * b);
  }

  lemma MulPositive(a: nat, b: nat)
    requires a > 0 && b > 0
    ensures a * b > 0
  {
  }

  lemma DivUnique(v: nat, d: nat, q: nat, r: nat)
    requires d > 0 && v == q * d + r && r < d
    ensures Quotient(v, d) == q && Remainder(v, d) == r
  {
    var q' := v / d;
    DivMod(v, d);
    if q' < q { MulMonotone(q' + 1, q, d); }
    if q < q' { MulMonotone(q + 1, q', d); }
  }

  /** Read digits `g` at a time, each of the `n` groups as one digit of the larger base. */
  function Group(ds: seq<nat>, base: nat, g: nat, n: nat): (es: seq<nat>)
    requires |ds| == g * n
    ensures |es| == n
    decreases n
  {
    if n == 0 then [] else
      MulStep(g, n);
      [Value(ds[..g], base)] + Group(ds[g..], base, g, n - 1)
  }

  lemma MulStep(g: nat, n: nat)
    requires n > 0
    ensures g * n == g + g * (n - 1) && g <= g * n
  {
  }

  /** Write each digit of the larger base with `g` digits of the smaller one. */
  function Ungroup(ds: seq<nat>, base: nat, g: nat): (es: seq<nat>)
    requires base > 0
    ensures |es| == g * |ds| && Digits(es, base)
  {
    if ds == [] then [] else
      MulStep(g, |ds|);
      ToDigits(ds[0], base, g) + Ungroup(ds[1..], base, g)
  }

  lemma {:induction false} GroupValue(ds: seq<nat>, base: nat, g: nat, n: nat)
    requires |ds| == g * n && Digits(ds, base)
    ensures Value(Group(ds, base, g, n), Pow(base, g)) == Value(ds, base)
    ensures Digits(Group(ds, base, g, n), Pow(base, g))
    decreases n
  {
    if n > 0 {
      MulStep(g, n);
      var hi, lo := ds[..g], ds[g..];
      GroupValue(lo, base, g, n - 1);
      ValueBound(hi, base);
      assert ds == hi + lo;
      ValueConcat(hi, lo, base);
      PowMul(base, g, n - 1);
      var rest := Group(lo, base, g, n - 1);
      assert ([Value(hi, base)] + rest)[1..] == rest;
    }
  }

  lemma {:induction false} UngroupValue(ds: seq<nat>, base: nat, g: nat)
    requires base > 0 && Digits(ds, Pow(base, g))
    ensures Value(Ungroup(ds, base, g), base) == Value(ds, Pow(base, g))
  {
    if ds != [] {
      MulStep(g, |ds|);
      UngroupValue(ds[1..], base, g);
      var hi, lo := ToDigits(ds[0], base, g), Ungroup(ds[1..], base, g);
      DigitsOfValue(ds[0], base, g);
      ValueConcat(hi, lo, base);
      PowMul(base, g, |ds| - 1);
    }
  }
}
