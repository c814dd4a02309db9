/** String operations the parsers share: removing hyphens, splitting, finding a separator. */
module Text {
  import opened Wrappers

  lemma Associate(a: string, b: string, c: string)
    ensures (a + b) + c == a + (b + c)
  {
  }

  lemma HeadTail(s: string)
    requires s != []
    ensures s == [s[0]] + s[1..]
    ensures forall c :: c in s <==> c == s[0] || c in s[1..]
  {
  }

  function Keep(c: char): string
  {
    if c == '-' then [] else [c]
  }

  /** The text without its hyphens. */
  function Compact(s: string): string
  {
    if s == [] then [] else Keep(s[0]) + Compact(s[1..])
  }

  lemma {:induction false} CompactConcat(a: string, b: string)
    ensures Compact(a + b) == Compact(a) + Compact(b)
  {
    if a == [] {
      assert a + b == b;
    } else {
      hide Keep;
      CompactConcat(a[1..], b);
      assert (a + b)[1..] == a[1..] + b && (a + b)[0] == a[0];
      Associate(Keep(a[0]), Compact(a[1..]), Compact(b));
    }
  }

  lemma {:induction false} CompactHyphenFree(s: string)
    requires '-' !in s
    ensures Compact(s) == s
  {
    if s != [] {
      assert s[0] in s;
      assert forall c :: c in s[1..] ==> c in s;
      CompactHyphenFree(s[1..]);
      assert s == [s[0]] + s[1..];
    }
  }

  lemma {:induction false} CompactResult(s: string)
    ensures '-' !in Compact(s) && |Compact(s)| <= |s|
    ensures forall c :: c in Compact(s) <==> c in s && c != '-'
  {
    if s != [] {
      CompactResult(s[1..]);
      assert s == [s[0]] + s[1..];
    }
  }

  lemma CompactHyphen(a: string, b: string)
    ensures Compact(a + "-" + b) == Compact(a) + Compact(b)
  {
    CompactJust();
    hide *;
    CompactConcat(a + "-", b);
    CompactConcat(a, "-");
  }

  lemma CompactJust()
    ensures Compact("-") == []
  {
    assert "-"[1..] == [];
  }

  /** Pieces between hyphens, as `split("-")` returns them: never empty, one more than the hyphens. */
  function Split(s: string): (parts: seq<string>)
    ensures |parts| > 0
  {
    if s == [] then [[]]
    else if s[0] == '-' then [[]] + Split(s[1..])
    else var rest := Split(s[1..]); [[s[0]] + rest[0]] + rest[1..]
  }

  /** A hyphen-free piece in front of a hyphen is the first piece. */
  lemma {:induction false} SplitFirst(a: string, b: string)
    requires '-' !in a
    ensures Split(a + "-" + b) == [a] + Split(b)
  {
    var s := a + "-" + b;
    if a == [] {
      assert s[1..] == b;
    } else {
      assert a[0] in a;
      assert forall c :: c in a[1..] ==> c in a;
      assert s[1..] == a[1..] + "-" + b;
      SplitFirst(a[1..], b);
      assert a == [a[0]] + a[1..];
    }
  }

  lemma {:induction false} SplitHyphenFree(a: string)
    requires '-' !in a
    ensures Split(a) == [a]
  {
    if a != [] {
      assert a[0] in a;
      assert forall c :: c in a[1..] ==> c in a;
      SplitHyphenFree(a[1..]);
      assert a == [a[0]] + a[1..];
    }
  }

  /** What stands after the first piece and its hyphen. */
  function Rest(s: string): string
  {
    if s == [] then [] else if s[0] == '-' then s[1..] else Rest(s[1..])
  }

  /** Taking the first piece off again. */
  lemma {:induction false} SplitInverse(s: string)
    ensures '-' !in Split(s)[0]
    ensures |Split(s)| == 1 ==> s == Split(s)[0]
    ensures |Split(s)| > 1 ==> s == Split(s)[0] + "-" + Rest(s) && Split(Rest(s)) == Split(s)[1..]
    ensures |Split(s)| > 1 <==> '-' in s
  {
    if s != [] {
      HeadTail(s);
      if s[0] != '-' {
        SplitInverse(s[1..]);
        var a := Split(s[1..])[0];
        Associate([s[0]], a, "-" + Rest(s[1..]));
        Associate(a, "-", Rest(s[1..]));
        Associate([s[0]] + a, "-", Rest(s[1..]));
      } else {
        assert s == [] + "-" + s[1..];
      }
    }
  }

  /** Position of the first `c`. */
  function IndexOf(s: string, c: char): (i: Option<nat>)
    ensures i.Some? ==> i.value < |s| && s[i.value] == c && c !in s[..i.value]
    ensures i.None? ==> c !in s
  {
    if s == [] then None
    else if s[0] == c then Some(0)
    else
      assert s == [s[0]] + s[1..];
      match IndexOf(s[1..], c)
      case None => None
      case Some(i) => assert s[..i + 1] == [s[0]] + s[1..][..i]; Some(i + 1)
  }

  /** Position of the last `c`. */
  function LastIndexOf(s: string, c: char): (i: Option<nat>)
    ensures i.Some? ==> i.value < |s| && s[i.value] == c && c !in s[i.value + 1..]
    ensures i.None? ==> c !in s
  {
    if s == [] then None
    else if s[|s| - 1] == c then Some(|s| - 1)
    else
      assert s == s[..|s| - 1] + [s[|s| - 1]];
      match LastIndexOf(s[..|s| - 1], c)
      case None => None
      case Some(i) => assert s[i + 1..] == s[..|s| - 1][i + 1..] + [s[|s| - 1]]; Some(i)
  }

  lemma {:induction false} LastIndexUnique(a: string, c: char, b: string)
    requires c !in b
    ensures LastIndexOf(a + [c] + b, c) == Some(|a|)
    decreases |b|
  {
    var s := a + [c] + b;
    if b != [] {
      var n := |b| - 1;
      assert s[..|s| - 1] == a + [c] + b[..n] && s[|s| - 1] == b[n];
      assert b[n] in b;
      LastIndexUnique(a, c, b[..n]);
    }
  }

  lemma {:induction false} FirstIndexUnique(a: string, c: char, b: string)
    requires c !in a
    ensures IndexOf(a + [c] + b, c) == Some(|a|)
  {
    if a != [] {
      HeadTail(a);
      assert (a + [c] + b)[1..] == a[1..] + [c] + b;
      FirstIndexUnique(a[1..], c, b);
    }
  }

  predicate StartsWith(s: string, prefix: string)
  {
    |prefix| <= |s| && s[..|prefix|] == prefix
  }
}
