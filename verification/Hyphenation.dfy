/** Hyphens between groups of given lengths, and recognising them. */
module Hyphenation {
  import opened Text

  function Sum(lengths: seq<nat>): nat
  {
    if lengths == [] then 0 else lengths[0] + Sum(lengths[1..])
  }

  /** A hyphen-free text cut into groups of the given lengths. */
  function Hyphenate(c: string, lengths: seq<nat>): string
    requires |c| == Sum(lengths)
  {
    if |lengths| <= 1 then c
    else c[..lengths[0]] + "-" + Hyphenate(c[lengths[0]..], lengths[1..])
  }

  function Lengths(parts: seq<string>): seq<nat>
  {
    seq(|parts|, i requires 0 <= i < |parts| => |parts[i]|)
  }

  /** Group lengths of a random body: four at a time, the rest, and the check symbol. */
  function RandomLengths(payloadLength: nat): (lengths: seq<nat>)
    ensures Sum(lengths) == payloadLength + 1 && |lengths| >= 1
  {
    if payloadLength == 0 then [1]
    else
      var m := if payloadLength < 4 then payloadLength else 4;
      [m] + RandomLengths(payloadLength - m)
  }

  /** No hyphens at all, or exactly the canonical ones. */
  predicate HyphenationOk(body: string, lengths: seq<nat>)
  {
    '-' !in body || Lengths(Split(body)) == lengths
  }

  method ValidateHyphenation(body: string, payloadLength: nat) returns (ok: bool)
    ensures ok <==> HyphenationOk(body, RandomLengths(payloadLength))
  {
    hide RandomLengths, Split, Lengths;
    if '-' !in body { return true; }
    var expected: seq<nat> := [];
    var remaining: int := payloadLength;
    assert expected + RandomLengths(payloadLength) == RandomLengths(payloadLength);
    while remaining > 0
      invariant expected + RandomLengths(if remaining < 0 then 0 else remaining) == RandomLengths(payloadLength)
    {
      NextGroup(expected, remaining);
      expected := expected + [if remaining < 4 then remaining else 4];
      remaining := remaining - 4;
    }
    LastGroup();
    expected := expected + [1];
    ok := Lengths(Split(body)) == expected;
  }

  lemma NextGroup(expected: seq<nat>, remaining: nat)
    requires remaining > 0
    ensures var m := if remaining < 4 then remaining else 4;
            (expected + [m]) + RandomLengths(if remaining < 4 then 0 else remaining - 4) == expected + RandomLengths(remaining)
  {
    var m := if remaining < 4 then remaining else 4;
    assert (expected + [m]) + RandomLengths(remaining - m) == expected + ([m] + RandomLengths(remaining - m));
  }

  lemma LastGroup()
    ensures RandomLengths(0) == [1]
  {
  }

  /** The canonical hyphens come off again, and are recognised. */
  lemma {:induction false} HyphenateSound(c: string, lengths: seq<nat>)
    requires |c| == Sum(lengths) && |lengths| >= 1 && '-' !in c
    ensures Compact(Hyphenate(c, lengths)) == c
    ensures Lengths(Split(Hyphenate(c, lengths))) == lengths
    ensures |Hyphenate(c, lengths)| == |c| + |lengths| - 1
  {
    hide *;
    HyphenateUnfold(c, lengths);
    if |lengths| == 1 {
      CompactHyphenFree(c);
      SplitHyphenFree(c);
      LengthsOne(c);
    } else {
      var a, b := c[..lengths[0]], c[lengths[0]..];
      HyphenateSound(b, lengths[1..]);
      var h := Hyphenate(b, lengths[1..]);
      CompactHyphen(a, h);
      CompactHyphenFree(a);
      SplitFirst(a, h);
      LengthsCons(a, Split(h));
    }
  }

  lemma HyphenateUnfold(c: string, lengths: seq<nat>)
    requires |c| == Sum(lengths) && |lengths| >= 1 && '-' !in c
    ensures |lengths| == 1 ==> Hyphenate(c, lengths) == c && lengths == [|c|]
    ensures |lengths| > 1 ==>
              lengths[0] <= |c| && |c[lengths[0]..]| == Sum(lengths[1..]) && lengths == [lengths[0]] + lengths[1..]
              && '-' !in c[..lengths[0]] && '-' !in c[lengths[0]..] && c == c[..lengths[0]] + c[lengths[0]..]
              && Hyphenate(c, lengths) == c[..lengths[0]] + "-" + Hyphenate(c[lengths[0]..], lengths[1..])
  {
    if |lengths| == 1 { SumOne(lengths); }
  }

  lemma LengthsOne(a: string)
    ensures Lengths([a]) == [|a|]
  {
  }

  lemma SumOne(lengths: seq<nat>)
    requires |lengths| == 1
    ensures Sum(lengths) == lengths[0] && lengths == [lengths[0]]
  {
    assert lengths[1..] == [];
  }

  lemma LengthsCons(a: string, parts: seq<string>)
    ensures Lengths([a] + parts) == [|a|] + Lengths(parts)
  {
  }

  /** A text whose pieces have the expected lengths is the hyphenated form of its symbols. */
  lemma {:induction false} HyphenateComplete(body: string, lengths: seq<nat>)
    requires Lengths(Split(body)) == lengths
    ensures |Compact(body)| == Sum(lengths) && |lengths| >= 1 && body == Hyphenate(Compact(body), lengths)
    decreases |lengths|
  {
    SplitInverse(body);
    var parts := Split(body);
    var a := parts[0];
    CompactHyphenFree(a);
    if |parts| == 1 {
      SumOne(lengths);
    } else {
      var rest := Rest(body);
      assert parts == [a] + parts[1..];
      LengthsCons(a, parts[1..]);
      assert lengths == [|a|] + Lengths(Split(rest));
      assert lengths[1..] == Lengths(Split(rest));
      HyphenateComplete(rest, lengths[1..]);
      CompactHyphen(a, rest);
      assert Compact(body) == a + Compact(rest);
      assert Compact(body)[..|a|] == a && Compact(body)[|a|..] == Compact(rest);
    }
  }
}
