/** The order in which a connection prefers requests: a chain of comparisons, each of
    which decides only when the ones before it have not. */
module LessByValue {
  import opened Lexical
  import opened Options
  import Heap

  /** The outcome of a chain so far. */
  datatype Computation = Computation(ok: bool, less: bool)
  {
    function EagerSameLess(same: bool, less: bool): Computation
    {
      if ok || same then this else Computation(true, less)
    }

    /** False comes before true. */
    function Bool(l: bool, r: bool): Computation { EagerSameLess(l == r, r) }

    function Int(l: int, r: int): Computation { EagerSameLess(l == r, l < r) }

    function Cmp(i: int): Computation { EagerSameLess(i == 0, i < 0) }

    /** None stands for the panic over a chain that has not decided. */
    function MustLess(): Option<bool> { if ok then Some(less) else None }
  }

  function EagerOrdered(start: Computation, l: int, r: int): Computation
  {
    if start.ok then start
    else if l == r then Computation(false, false)
    else Computation(true, l < r)
  }

  const READAHEAD: int := 3

  datatype Owner = Owner(peer: nat, when: int)

  /** What the comparison looks at: the connection it is for, its pieces' states, and
      who owns which request since when. The zero time is 0. */
  datatype State = State(
    peer: nat, peerChoking: bool, peerAllowedFast: set<nat>, chunksPerPiece: nat,
    priority: nat -> int, availability: nat -> int, pieceRequestOrder: nat -> int,
    owner: nat -> Option<Owner>, requestCount: nat -> nat, activeWebseeds: bool)
  {
    /** Requests are given a time when they are given an owner. */
    ghost predicate Valid()
    {
      chunksPerPiece > 0 && forall r :: owner(r).Some? ==> owner(r).value.when != 0
    }

    function PieceOf(r: nat): nat
      requires chunksPerPiece > 0
    {
      r / chunksPerPiece
    }

    /** The comparisons up to whether a request has an owner. */
    function Head(l: nat, r: nat): Computation
      requires chunksPerPiece > 0
    {
      var ml := Computation(false, false);
      var ml := if peerChoking then ml.Bool(PieceOf(l) !in peerAllowedFast, PieceOf(r) !in peerAllowedFast) else ml;
      var ml := ml.Int(-priority(PieceOf(l)), -priority(PieceOf(r)));
      if ml.ok then ml
      else
        var ml := ml.Bool(OwnedBy(r, peer), OwnedBy(l, peer));
        ml.Bool(owner(r).None?, owner(l).None?)
    }

    predicate OwnedBy(r: nat, p: nat) { owner(r).Some? && owner(r).value.peer == p }

    function Tail(start: Computation, l: nat, r: nat): Option<Computation>
      requires chunksPerPiece > 0
    {
      if owner(l).Some? && owner(r).None? then None  // a null peer
      else if owner(l).Some? && (owner(l).value.when == 0 || owner(r).value.when == 0) then None
      else
        var ml := if owner(l).None? then start
          else
            start.Int(requestCount(owner(r).value.peer), requestCount(owner(l).value.peer))
              .Cmp(owner(r).value.when - owner(l).value.when);
        Some(
          if activeWebseeds then ml.Cmp(-Compare(l, r))
          else
            var ml := ml.Int(availability(PieceOf(l)), availability(PieceOf(r)));
            var ml := if priority(PieceOf(l)) == READAHEAD then ml.Int(PieceOf(l), PieceOf(r))
              else ml.Int(pieceRequestOrder(PieceOf(l)), pieceRequestOrder(PieceOf(r)));
            EagerOrdered(ml, l, r))
    }

    /** Whether request `l` is to be preferred; None is a panic. */
    function Less(l: nat, r: nat): Option<bool>
      requires chunksPerPiece > 0
    {
      var ml := Head(l, r);
      if ml.ok then ml.MustLess()
      else match Tail(ml, l, r)
        case None => None
        case Some(ml) => ml.MustLess()
    }

    /** What a request weighs, most significant first. */
    function HeadKey(r: nat): seq<int>
      requires chunksPerPiece > 0
    {
      [if peerChoking && PieceOf(r) !in peerAllowedFast then 1 else 0,
       -priority(PieceOf(r)),
       if OwnedBy(r, peer) then 0 else 1,
       if owner(r).None? then 0 else 1]
    }

    function TailKey(r: nat): seq<int>
      requires chunksPerPiece > 0
    {
      [if owner(r).None? then 0 else -(requestCount(owner(r).value.peer) as int),
       if owner(r).None? then 0 else -owner(r).value.when,
       if activeWebseeds then 0 else availability(PieceOf(r)),
       if activeWebseeds then 0
       else if priority(PieceOf(r)) == READAHEAD then PieceOf(r) else pieceRequestOrder(PieceOf(r)),
       if activeWebseeds then -(r as int) else r]
    }

    function Key(r: nat): seq<int>
      requires chunksPerPiece > 0
    {
      HeadKey(r) + TailKey(r)
    }
  }

  lemma {:induction false} HeadIsLex(s: State, l: nat, r: nat)
    requires s.chunksPerPiece > 0
    ensures s.Head(l, r).ok <==> s.HeadKey(l) != s.HeadKey(r)
    ensures s.Head(l, r).ok ==> s.Head(l, r).less == Lex(s.HeadKey(l), s.HeadKey(r))
    ensures !s.Head(l, r).ok ==> s.Head(l, r) == Computation(false, false)
  {
    Lex4(s.HeadKey(l), s.HeadKey(r));
  }

  lemma {:induction false} Lex4(a: seq<int>, b: seq<int>)
    requires |a| == |b| == 4
    ensures Lex(a, b) == (a[0] < b[0] || (a[0] == b[0] && (a[1] < b[1] || (a[1] == b[1] && (a[2] < b[2] || (a[2] == b[2] && a[3] < b[3]))))))
  {
    assert a[1..][1..] == a[2..] && a[2..][1..] == a[3..] && b[1..][1..] == b[2..] && b[2..][1..] == b[3..];
    assert Lex(a[3..], b[3..]) == (a[3] < b[3]);
    assert Lex(a[2..], b[2..]) == (a[2] < b[2] || (a[2] == b[2] && Lex(a[3..], b[3..])));
    assert Lex(a[1..], b[1..]) == (a[1] < b[1] || (a[1] == b[1] && Lex(a[2..], b[2..])));
  }

  lemma {:induction false} Lex5(a: seq<int>, b: seq<int>)
    requires |a| == |b| == 5
    ensures Lex(a, b) == (a[0] < b[0] || (a[0] == b[0] && (a[1] < b[1] || (a[1] == b[1]
      && (a[2] < b[2] || (a[2] == b[2] && (a[3] < b[3] || (a[3] == b[3] && a[4] < b[4]))))))))
  {
    Lex4(a[1..], b[1..]);
  }

  lemma {:induction false} TailIsLex(s: State, l: nat, r: nat)
    requires s.Valid() && s.HeadKey(l) == s.HeadKey(r)
    ensures var t := s.Tail(Computation(false, false), l, r);
      && t.Some? && (t.value.ok <==> l != r)
      && (l != r ==> t.value.less == Lex(s.TailKey(l), s.TailKey(r)))
  {
    Lex5(s.TailKey(l), s.TailKey(r));
    assert s.HeadKey(l)[1] == s.HeadKey(r)[1] && s.HeadKey(l)[3] == s.HeadKey(r)[3];
  }

  /** Main result: the chain compares weights, and panics exactly on a request
      compared with itself. */
  lemma {:induction false} LessIsLex(s: State, l: nat, r: nat)
    requires s.Valid()
    ensures s.Less(l, r) == if l == r then None else Some(Lex(s.Key(l), s.Key(r)))
  {
    HeadIsLex(s, l, r);
    LexConcat(s.HeadKey(l), s.HeadKey(r), s.TailKey(l), s.TailKey(r));
    if s.HeadKey(l) == s.HeadKey(r) {
      TailIsLex(s, l, r);
      LexTotal(s.HeadKey(l), s.HeadKey(r));
    }
    hide State.Head, State.Tail, State.HeadKey, State.TailKey, Lex;
  }

  /** The order on all requests, no request being before itself. */
  ghost predicate Before(s: State, l: nat, r: nat)
    requires s.Valid()
  {
    l != r && s.Less(l, r) == Some(true)
  }

  lemma {:induction false} BeforeIsTotalOrder(s: State, a: nat, b: nat, c: nat)
    requires s.Valid()
    ensures !Before(s, a, a)
    ensures a != b ==> (Before(s, a, b) <==> !Before(s, b, a))
    ensures Before(s, a, b) && Before(s, b, c) ==> Before(s, a, c)
  {
    LessIsLex(s, a, b);
    LessIsLex(s, b, a);
    LessIsLex(s, b, c);
    LessIsLex(s, a, c);
    LexTotal(s.Key(a), s.Key(b));
    LexTotal(s.Key(a), s.Key(c));
    KeysDiffer(s, a, b);
    if Before(s, a, b) && Before(s, b, c) { LexTransitive(s.Key(a), s.Key(b), s.Key(c)); }
    hide State.Less, State.Key, Lex;
  }

  lemma {:induction false} KeysDiffer(s: State, a: nat, b: nat)
    requires s.Valid()
    ensures s.Key(a) == s.Key(b) ==> a == b
  {
    assert s.Key(a)[8] == s.TailKey(a)[4] && s.Key(b)[8] == s.TailKey(b)[4];
  }

  /** Of two chunks that others have, alike so far, the one whose owner has more
      requests comes first. Stealing changes those numbers, and so the order. */
  lemma {:induction false} FullerOwnerFirst(s: State, a: nat, b: nat)
    requires s.Valid() && s.HeadKey(a) == s.HeadKey(b) && s.owner(a).Some? && s.owner(b).Some?
    requires s.requestCount(s.owner(a).value.peer) != s.requestCount(s.owner(b).value.peer)
    ensures Before(s, a, b) <==> s.requestCount(s.owner(a).value.peer) > s.requestCount(s.owner(b).value.peer)
  {
    LessIsLex(s, a, b);
    LexConcat(s.HeadKey(a), s.HeadKey(b), s.TailKey(a), s.TailKey(b));
    LexTotal(s.HeadKey(a), s.HeadKey(b));
    Lex5(s.TailKey(a), s.TailKey(b));
    hide State.Less, State.HeadKey, Lex;
  }

  /** So it is an order a heap can use. */
  lemma {:induction false} HeapMayUse(s: State, less: (nat, nat) -> bool)
    requires s.Valid() && forall l, r :: less(l, r) == Before(s, l, r)
    ensures Heap.StrictWeak(less)
  {
    hide Before;
    forall a, b ensures less(a, b) ==> !less(b, a) {
      if a != b { BeforeIsTotalOrder(s, a, b, b); } else { BeforeIsTotalOrder(s, a, a, a); }
    }
    forall a, b, c | !less(a, b) && !less(b, c)
      ensures !less(a, c)
    {
      BeforeIsTotalOrder(s, a, b, c);
      BeforeIsTotalOrder(s, b, c, a);
      BeforeIsTotalOrder(s, c, b, a);
      BeforeIsTotalOrder(s, a, c, a);
    }
  }
}
