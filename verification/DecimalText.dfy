/** Decimal text of counters: plain, padded to a width, and read back. */
module DecimalText {
  import opened Wrappers
  import opened Positional
  import opened Alphabet

  /** Plain decimal text, without leading zeros. */
  function ToDecimal(n: nat): (s: string)
    ensures |s| >= 1
  {
    DecimalAscends();
    if n < 10 then [Decimal()[n]] else ToDecimal(n / 10) + [Decimal()[n % 10]]
  }

  function Zeros(n: nat): (s: string)
    ensures |s| == n
  {
    seq(n, _ => '0')
  }

  function PadStart(s: string, width: nat): string
  {
    if |s| >= width then s else Zeros(width - |s|) + s
  }

  /** The fixed-width text of a counter: its decimal digits, leading zeros included. */
  function FixedWidth(n: nat, width: nat): (s: string)
    ensures |s| == width
  {
    DecimalAscends();
    Write(ToDigits(n, 10, width), Decimal())
  }

  lemma PadAppend(s: string, c: char, width: nat)
    requires width > 0
    ensures PadStart(s + [c], width) == PadStart(s, width - 1) + [c]
  {
    if |s| + 1 < width {
      assert Zeros(width - |s| - 1) + (s + [c]) == (Zeros(width - |s| - 1) + s) + [c];
    }
  }

  lemma FixedWidthStep(n: nat, width: nat)
    requires width > 0
    ensures |Decimal()| == 10 && FixedWidth(n, width) == FixedWidth(n / 10, width - 1) + [Decimal()[n % 10]]
  {
    DecimalAscends();
    hide Decimal;
    assert Quotient(n, 10) == n / 10 && Remainder(n, 10) == n % 10;
  }

  lemma FixedWidthZero(width: nat)
    ensures FixedWidth(0, width) == Zeros(width)
  {
    if width > 0 {
      FixedWidthStep(0, width);
      FixedWidthZero(width - 1);
      assert Decimal()[0] == '0';
      assert Zeros(width) == Zeros(width - 1) + ['0'];
    }
  }

  /** The text fits a width exactly when the number has no more digits than that, and padding it
      gives the fixed-width text. */
  lemma {:induction false} PadFits(n: nat, width: nat)
    requires width > 0
    ensures |ToDecimal(n)| <= width <==> n < Pow(10, width)
    ensures n < Pow(10, width) ==> PadStart(ToDecimal(n), width) == FixedWidth(n, width)
    decreases width
  {
    PowPositive(10, width - 1);
    assert Pow(10, width) == 10 * Pow(10, width - 1);
    FixedWidthStep(n, width);
    if n < 10 {
      FixedWidthZero(width - 1);
      DecimalSingle(n, width);
    } else if width > 1 {
      hide Pow, FixedWidth, PadStart;
      PadFits(n / 10, width - 1);
      PadAppend(ToDecimal(n / 10), Decimal()[n % 10], width);
    }
  }

  lemma DecimalSingle(n: nat, width: nat)
    requires n < 10 && width > 0
    ensures |Decimal()| == 10 && ToDecimal(n) == [Decimal()[n]] && n / 10 == 0 && n % 10 == n
    ensures PadStart(ToDecimal(n), width) == Zeros(width - 1) + [Decimal()[n]]
  {
    DecimalAscends();
    if width == 1 { assert Zeros(0) == []; }
  }

  /** Reading a fixed-width text back. */
  lemma FixedWidthRead(n: nat, width: nat)
    requires n < Pow(10, width)
    ensures |Decimal()| == 10 && Read(FixedWidth(n, width), Decimal()) == Some(ToDigits(n, 10, width))
    ensures Value(ToDigits(n, 10, width), 10) == n
  {
    DecimalAscends();
    hide *;
    ReadWrite(ToDigits(n, 10, width), Decimal());
    DigitsOfValue(n, 10, width);
    FixedWidthUnfold(n, width);
  }

  lemma FixedWidthUnfold(n: nat, width: nat)
    requires |Decimal()| == 10
    ensures FixedWidth(n, width) == Write(ToDigits(n, 10, width), Decimal())
  {
  }

  /** Every text of decimal digits is the fixed-width text of its value. */
  lemma FixedWidthOf(s: string)
    requires Read(s, Decimal()).Some?
    ensures |Decimal()| == 10
    ensures var v := Value(Read(s, Decimal()).value, 10); v < Pow(10, |s|) && FixedWidth(v, |s|) == s
  {
    DecimalAscends();
    hide Decimal;
    var ds := Read(s, Decimal()).value;
    hide *;
    ValueBound(ds, 10);
    ValueThenDigits(ds, 10);
    WriteRead(s, Decimal());
    FixedWidthUnfold(Value(ds, 10), |s|);
  }
}
