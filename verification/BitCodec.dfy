/** The bit-array form of the TypeID codec, proved equal to the shift-and-mask form. */
module BitCodec {
  import opened Wrappers
  import opened Errors
  import opened Positional
  import opened Alphabet
  import opened TypeId

  /** Append the `width` low bits of `value`, highest first. */
  method AppendBits(bits: seq<nat>, value: nat, width: nat) returns (out: seq<nat>)
    ensures out == bits + ToDigits(value, 2, width)
  {
    out := bits;
    ghost var all := ToDigits(value, 2, width);
    var shift := width;
    while shift > 0
      invariant 0 <= shift <= width == |all|
      invariant out == bits + all[..width - shift]
    {
      shift := shift - 1;
      DigitAt(value, 2, width, width - 1 - shift);
      out := out + [Remainder(Quotient(value, Pow(2, shift)), 2)];
      assert all[..width - shift] == all[..width - shift - 1] + [all[width - shift - 1]];
    }
    assert all[..width] == all;
  }

  /** The left fold of a slice of bits that shifts each one in. */
  function Reduce(bits: seq<nat>): (v: nat)
    ensures v == Value(bits, 2)
  {
    if bits == [] then 0 else
      var n := |bits| - 1;
      ValueAppend(bits[..n], bits[n], 2);
      assert bits == bits[..n] + [bits[n]];
      Reduce(bits[..n]) * 2 + bits[n]
  }

  lemma {:induction false} GroupAt(ds: seq<nat>, base: nat, g: nat, n: nat, k: nat)
    requires |ds| == g * n && k < n
    ensures 0 <= g * k <= g * k + g <= |ds|
    ensures Group(ds, base, g, n)[k] == Value(ds[g * k..g * k + g], base)
    decreases n
  {
    hide Value;
    MulStep(g, n);
    MulLess(g, k, n);
    if k > 0 {
      GroupAt(ds[g..], base, g, n - 1, k - 1);
      MulStep(g, k);
      MulLess(g, k - 1, n - 1);
      SliceShift(ds, g, g * (k - 1), g * k);
    }
  }

  lemma SliceShift(ds: seq<nat>, g: nat, a: nat, b: nat)
    requires b == a + g && b + g <= |ds|
    ensures ds[g..][a..a + g] == ds[b..b + g]
  {
  }

  lemma MulLess(g: nat, k: nat, n: nat)
    requires k < n
    ensures 0 <= g * k && g * k + g <= g * n
  {
    MulMonotone(k + 1, n, g);
    assert g * (k + 1) == g * k + g;
  }

  lemma {:induction false} UngroupAppend(ds: seq<nat>, d: nat, base: nat, g: nat)
    requires base > 0
    ensures Ungroup(ds + [d], base, g) == Ungroup(ds, base, g) + ToDigits(d, base, g)
  {
    if ds == [] {
      assert ([d])[1..] == [];
      assert ds + [d] == [d];
      assert Ungroup([], base, g) == [];
      assert ToDigits(d, base, g) + [] == ToDigits(d, base, g);
    } else {
      UngroupAppend(ds[1..], d, base, g);
      assert (ds + [d])[1..] == ds[1..] + [d];
      AppendAssociates(ToDigits(ds[0], base, g), Ungroup(ds[1..], base, g), ToDigits(d, base, g));
    }
  }

  lemma AppendAssociates(a: seq<nat>, b: seq<nat>, c: seq<nat>)
    ensures (a + b) + c == a + (b + c)
  {
  }

  /** One byte from two hexadecimal symbols. */
  function ByteAt(hex: string, i: nat): (b: nat)
    requires i + 2 <= |hex| && Read(hex, Hex()).Some?
    ensures b == Value(Read(hex, Hex()).value[i..i + 2], 16)
  {
    var ds := Read(hex, Hex()).value;
    assert ds[i..i + 2] == [ds[i], ds[i + 1]];
    ValueAppend([ds[i]], ds[i + 1], 16);
    ValueAppend([], ds[i], 16);
    assert [] + [ds[i]] == [ds[i]] && [ds[i]] + [ds[i + 1]] == [ds[i], ds[i + 1]];
    Position(Hex(), hex[i]).value * 16 + Position(Hex(), hex[i + 1]).value
  }

  /** Two zero bits, then eight bits a byte. */
  method BitsOfHex(hex: string) returns (bits: seq<nat>)
    requires |hex| == 32 && Read(hex, Hex()).Some?
    ensures bits == [0, 0] + Ungroup(Group(Read(hex, Hex()).value, 16, 2, 16), 2, 8)
  {
    hide Read, Hex, Position, Group, Ungroup, Digits, Value;
    ghost var nibbles := Read(hex, Hex()).value;
    ghost var bytes := Group(nibbles, 16, 2, 16);
    bits := [0, 0];
    UngroupNothing(2, 8);
    var index := 0;
    while index < 16
      invariant 0 <= index <= 16
      invariant bits == [0, 0] + Ungroup(bytes[..index], 2, 8)
    {
      GroupAt(nibbles, 16, 2, 16, index);
      UngroupAppend(bytes[..index], bytes[index], 2, 8);
      assert bytes[..index + 1] == bytes[..index] + [bytes[index]];
      AppendAssociates([0, 0], Ungroup(bytes[..index], 2, 8), ToDigits(bytes[index], 2, 8));
      bits := AppendBits(bits, ByteAt(hex, 2 * index), 8);
      index := index + 1;
    }
    assert bytes[..16] == bytes;
  }

  /** One symbol for each five bits. */
  method SymbolsOfBits(bits: seq<nat>) returns (suffix: string)
    requires |bits| == 130 && Digits(Group(bits, 2, 5, 26), 32)
    ensures |TypeIdSymbols()| == 32 && suffix == Write(Group(bits, 2, 5, 26), TypeIdSymbols())
  {
    TypeIdAscends();
    hide *;
    ghost var chunks := Group(bits, 2, 5, 26);
    suffix := "";
    var index := 0;
    WriteNothing();
    while index < 26
      invariant 0 <= index <= 26 && Digits(chunks[..index], 32)
      invariant suffix == Write(chunks[..index], TypeIdSymbols())
    {
      GroupAt(bits, 2, 5, 26, index);
      WriteAppend(chunks, index);
      suffix := suffix + [TypeIdSymbols()[Reduce(bits[5 * index..5 * index + 5])]];
      index := index + 1;
    }
    assert chunks[..26] == chunks;
  }

  method SuffixFromBits(hex: string) returns (suffix: string)
    requires |hex| == 32 && Read(hex, Hex()).Some?
    ensures suffix == Suffix(Value(Read(hex, Hex()).value, 16))
  {
    assert |Hex()| == 16 by { HexAscends(); }
    hide *;
    ghost var nibbles := Read(hex, Hex()).value;
    var bits := BitsOfHex(hex);
    ChunksAreDigits(nibbles, bits);
    suffix := SymbolsOfBits(bits);
    SuffixUnfold(Value(nibbles, 16));
  }

  lemma UngroupNothing(base: nat, g: nat)
    requires base > 0
    ensures Ungroup([], base, g) == []
  {
  }

  lemma WriteNothing()
    ensures Digits([], |TypeIdSymbols()|) && Write([], TypeIdSymbols()) == [] && Digits([], |Hex()|) && Write([], Hex()) == []
  {
  }

  lemma WriteAppend(ds: seq<nat>, k: nat)
    requires Digits(ds, 32) && k < |ds|
    ensures |TypeIdSymbols()| == 32 && ds[k] < 32 && Digits(ds[..k], 32) && Digits(ds[..k + 1], 32)
    ensures Write(ds[..k + 1], TypeIdSymbols()) == Write(ds[..k], TypeIdSymbols()) + [TypeIdSymbols()[ds[k]]]
  {
    TypeIdAscends();
    hide TypeIdSymbols;
    assert ds[..k + 1] == ds[..k] + [ds[k]];
  }

  lemma SuffixUnfold(v: nat)
    ensures |TypeIdSymbols()| == 32 && Suffix(v) == Write(ToDigits(v, 32, 26), TypeIdSymbols())
  {
    TypeIdAscends();
  }

  /** Two zero bits and the bits of the bytes, read five at a time, are the base-32 digits. */
  lemma ChunksAreDigits(nibbles: seq<nat>, bits: seq<nat>)
    requires |nibbles| == 32 && Digits(nibbles, 16)
    requires bits == [0, 0] + Ungroup(Group(nibbles, 16, 2, 16), 2, 8)
    ensures |bits| == 130 && Group(bits, 2, 5, 26) == ToDigits(Value(nibbles, 16), 32, 26)
    ensures Digits(Group(bits, 2, 5, 26), 32)
  {
    hide *;
    var bytes := Group(nibbles, 16, 2, 16);
    SmallPowers();
    GroupValue(nibbles, 16, 2, 16);
    UngroupValue(bytes, 2, 8);
    LeadingZeros(Ungroup(bytes, 2, 8), bits);
    GroupValue(bits, 2, 5, 26);
    ValueThenDigits(Group(bits, 2, 5, 26), 32);
  }

  lemma LeadingZeros(low: seq<nat>, bits: seq<nat>)
    requires bits == [0, 0] + low && Digits(low, 2)
    ensures Value(bits, 2) == Value(low, 2) && Digits(bits, 2)
  {
    TwoZeros();
    hide Value, Pow;
    ValueConcat([0, 0], low, 2);
  }

  lemma TwoZeros()
    ensures Value([0, 0], 2) == 0
  {
    assert [0, 0][1..] == [0];
    assert Value([0], 2) == 0 by { assert [0][1..] == []; }
  }

  /** Five bits for each symbol of a suffix, or nothing when a symbol is foreign. */
  method BitsOfSuffix(suffix: string) returns (r: Option<seq<nat>>, ghost digits: seq<nat>)
    requires |suffix| == 26 && suffix[0] <= '7'
    ensures r.None? ==> Decoded(suffix) == Failure(InvalidPid)
    ensures r.Some? ==> Read(suffix[..26], TypeIdSymbols()) == Some(digits) && r.value == Ungroup(digits, 2, 5)
  {
    hide *;
    var bits: seq<nat> := [];
    digits := [];
    UngroupNothing(2, 5);
    StartDigits(suffix);
    for i := 0 to 26
      invariant Read(suffix[..i], TypeIdSymbols()) == Some(digits) && |digits| == i
      invariant bits == Ungroup(digits, 2, 5)
    {
      var position := Position(TypeIdSymbols(), suffix[i]);
      if position.None? { DecodedForeign(suffix, i); return None, digits; }
      NextDigit(suffix, i, digits);
      UngroupAppend(digits, position.value, 2, 5);
      bits := AppendBits(bits, position.value, 5);
      digits := digits + [position.value];
    }
    r := Some(bits);
  }

  /** Two hexadecimal symbols for each eight bits. */
  method HexOfBits(bits: seq<nat>) returns (hex: string)
    requires |bits| == 128
    ensures |Hex()| == 16 && Digits(Ungroup(Group(bits, 2, 8, 16), 16, 2), 16)
    ensures hex == Write(Ungroup(Group(bits, 2, 8, 16), 16, 2), Hex())
  {
    HexAscends();
    hide *;
    ghost var bytes := Group(bits, 2, 8, 16);
    hex := "";
    WriteNothing();
    UngroupNothing(16, 2);
    var index := 0;
    assert bytes[..0] == [];
    while index < 16
      invariant 0 <= index <= 16 && |Hex()| == 16
      invariant Digits(Ungroup(bytes[..index], 16, 2), 16) && hex == Write(Ungroup(bytes[..index], 16, 2), Hex())
    {
      GroupAt(bits, 2, 8, 16, index);
      var byte := Reduce(bits[8 * index..8 * index + 8]);
      UngroupAppend(bytes[..index], byte, 16, 2);
      assert bytes[..index + 1] == bytes[..index] + [byte];
      WriteJoin(Ungroup(bytes[..index], 16, 2), ToDigits(byte, 16, 2));
      hex := hex + Write(ToDigits(byte, 16, 2), Hex());
      index := index + 1;
    }
    assert bytes[..16] == bytes;
  }

  /** Hexadecimal text of a suffix, by way of its bits. */
  method HexFromBits(suffix: string) returns (r: Result<string, Error>)
    ensures match Decoded(suffix)
            case Failure(e) => r == Failure(e)
            case Success(v) => |Hex()| == 16 && r == Success(Write(ToDigits(v, 16, 32), Hex()))
  {
    if |suffix| != 26 || suffix[0] > '7' { return Failure(InvalidPid); }
    hide *;
    var read, digits := BitsOfSuffix(suffix);
    if read.None? { return Failure(InvalidPid); }
    var bits := read.value;
    DecodedAll(suffix, digits);
    TopBitsClear(suffix, digits);
    if bits[0] != 0 || bits[1] != 0 { return Failure(InvalidPid); }
    BytesAreNibbles(digits, bits[2..]);
    var hex := HexOfBits(bits[2..]);
    r := Success(hex);
  }

  lemma WriteJoin(a: seq<nat>, b: seq<nat>)
    requires |Hex()| == 16 && Digits(a, 16) && Digits(b, 16)
    ensures Digits(a + b, 16) && Write(a + b, Hex()) == Write(a, Hex()) + Write(b, Hex())
  {
    hide Hex;
  }

  /** The guard on the first symbol makes the check of the two leading bits redundant. */
  lemma TopBitsClear(suffix: string, digits: seq<nat>)
    requires |suffix| == 26 && suffix[0] <= '7' && Read(suffix[..26], TypeIdSymbols()) == Some(digits)
    ensures |digits| == 26 && digits[0] <= 7 && Digits(digits, 32)
    ensures |Ungroup(digits, 2, 5)| == 130 && Ungroup(digits, 2, 5)[0] == 0 && Ungroup(digits, 2, 5)[1] == 0
  {
    assert suffix[..26] == suffix;
    ReadFirst(suffix, digits);
    hide *;
    FirstDigitSmall(suffix[0]);
    FiveBits(digits[0]);
    UngroupFirst(digits);
  }

  lemma ReadFirst(suffix: string, digits: seq<nat>)
    requires |suffix| == 26 && Read(suffix, TypeIdSymbols()) == Some(digits)
    ensures |digits| == 26 && Digits(digits, 32)
    ensures suffix[0] in TypeIdSymbols() && Position(TypeIdSymbols(), suffix[0]) == Some(digits[0])
  {
    TypeIdAscends();
  }

  lemma UngroupFirst(ds: seq<nat>)
    requires |ds| == 26
    ensures |Ungroup(ds, 2, 5)| == 130 && Ungroup(ds, 2, 5)[..5] == ToDigits(ds[0], 2, 5)
  {
  }

  lemma FiveBits(d: nat)
    requires d <= 7
    ensures |ToDigits(d, 2, 5)| == 5 && ToDigits(d, 2, 5)[0] == 0 && ToDigits(d, 2, 5)[1] == 0
  {
    DigitAt(d, 2, 5, 0);
    DigitAt(d, 2, 5, 1);
    SmallPowers();
  }

  /** The bits of the digits without the two leading zeros, read eight at a time, are the bytes. */
  lemma BytesAreNibbles(digits: seq<nat>, bits: seq<nat>)
    requires |digits| == 26 && Digits(digits, 32)
    requires |Ungroup(digits, 2, 5)| == 130 && Ungroup(digits, 2, 5)[0] == 0 && Ungroup(digits, 2, 5)[1] == 0
    requires bits == Ungroup(digits, 2, 5)[2..]
    ensures |bits| == 128 && |Hex()| == 16
    ensures Ungroup(Group(bits, 2, 8, 16), 16, 2) == ToDigits(Value(digits, 32), 16, 32)
  {
    HexAscends();
    var all := Ungroup(digits, 2, 5);
    DigitsTail(all, bits);
    hide *;
    SmallPowers();
    UngroupValue(digits, 2, 5);
    LeadingZeros(bits, all);
    GroupValue(bits, 2, 8, 16);
    var bytes := Group(bits, 2, 8, 16);
    UngroupValue(bytes, 16, 2);
    ValueThenDigits(Ungroup(bytes, 16, 2), 16);
  }

  lemma DigitsTail(all: seq<nat>, bits: seq<nat>)
    requires |all| >= 2 && Digits(all, 2) && bits == all[2..] && all[0] == 0 && all[1] == 0
    ensures all == [0, 0] + bits && Digits(bits, 2)
  {
  }
}
