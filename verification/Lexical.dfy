/** Lexicographic order on sequences of numbers, to which chains of comparisons reduce. */
module Lexical {

  /** Lexicographic comparison of weights of equal length. */
  predicate Lex(a: seq<int>, b: seq<int>)
    requires |a| == |b|
  {
    a != [] && (a[0] < b[0] || (a[0] == b[0] && Lex(a[1..], b[1..])))
  }

  lemma {:induction false} LexTotal(a: seq<int>, b: seq<int>)
    requires |a| == |b|
    ensures a == b || Lex(a, b) || Lex(b, a)
    ensures !(Lex(a, b) && Lex(b, a)) && !Lex(a, a)
  {
    if a != [] {
      LexTotal(a[1..], b[1..]);
      assert a == [a[0]] + a[1..] && b == [b[0]] + b[1..];
    }
  }

  lemma {:induction false} LexTransitive(a: seq<int>, b: seq<int>, c: seq<int>)
    requires |a| == |b| == |c| && Lex(a, b) && Lex(b, c)
    ensures Lex(a, c)
  {
    if a[0] == b[0] == c[0] { LexTransitive(a[1..], b[1..], c[1..]); }
  }

  lemma {:induction false} LexConcat(a: seq<int>, b: seq<int>, c: seq<int>, d: seq<int>)
    requires |a| == |b| && |c| == |d|
    ensures Lex(a + c, b + d) <==> Lex(a, b) || (a == b && Lex(c, d))
  {
    if a == [] {
      assert a + c == c && b + d == d;
    } else {
      LexConcat(a[1..], b[1..], c, d);
      assert (a + c)[1..] == a[1..] + c && (b + d)[1..] == b[1..] + d;
      assert a == [a[0]] + a[1..] && b == [b[0]] + b[1..];
    }
  }

  /** The first comparison result that is not zero. */
  function Or(cs: seq<int>): int
  {
    if cs == [] then 0 else if cs[0] != 0 then cs[0] else Or(cs[1..])
  }

  function Compare(l: int, r: int): int { if l < r then -1 else if l > r then 1 else 0 }

  /** False sorts before true. */
  function CompareBool(l: bool, r: bool): int { if l == r then 0 else if r then -1 else 1 }

  function Sign(a: seq<int>, b: seq<int>): int
    requires |a| == |b|
  {
    if a == b then 0 else if Lex(a, b) then -1 else 1
  }

  lemma {:induction false} SignConcat(a: seq<int>, b: seq<int>, c: seq<int>, d: seq<int>)
    requires |a| == |b| && |c| == |d|
    ensures Sign(a + c, b + d) == if a != b then Sign(a, b) else Sign(c, d)
  {
    LexConcat(a, b, c, d);
    LexTotal(a, b);
    assert (a + c)[..|a|] == a && (a + c)[|a|..] == c && (b + d)[..|b|] == b && (b + d)[|b|..] == d;
    hide Lex;
  }

  /** Comparisons taken one after the other compare lexicographically. */
  lemma {:induction false} OrIsLexical(cs: seq<int>, a: seq<int>, b: seq<int>)
    requires |cs| == |a| == |b| && forall i | 0 <= i < |cs| :: cs[i] == Compare(a[i], b[i])
    ensures Or(cs) == Sign(a, b)
  {
    if cs != [] {
      OrIsLexical(cs[1..], a[1..], b[1..]);
      assert a == [a[0]] + a[1..] && b == [b[0]] + b[1..];
    }
  }
}
