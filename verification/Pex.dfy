/** The peer exchange feed (BEP 11): an event log of connections that come and go,
    compressed into bounded net differences for each remote. */
module Pex {
  import opened Options
  import opened Sets

  datatype Addr = V4(ip: nat, port: nat) | V6(ip: nat, port: nat)

  datatype Event = Add(addr: Addr, flags: nat) | Drop(addr: Addr, flags: nat)

  const TARGET_ADDED: int := 25  // drops are held back below this many live connections
  const MAX_HOLD: nat := 25      // how many drops may be held back
  const MAX_DELTA: nat := 50     // bound on added and on dropped in one message

  /** One family's half of a message: addresses added with their flags, and dropped. */
  datatype Half = Half(added: seq<Addr>, flags: seq<nat>, dropped: seq<Addr>)

  datatype Msg = Msg(v4: Half, v6: Half)
  {
    predicate Empty() { v4.added == [] && v4.dropped == [] && v6.added == [] && v6.dropped == [] }
  }

  /** A message under construction with its two lookup sets. */
  datatype Factory = Factory(msg: Msg, added: set<Addr>, dropped: set<Addr>)
  {
    function DeltaLen(): nat { if |added| >= |dropped| then |added| else |dropped| }

    function Half(a: Addr): Half { if a.V4? then msg.v4 else msg.v6 }

    function WithHalf(a: Addr, h: Half): Factory
    {
      if a.V4? then this.(msg := msg.(v4 := h)) else this.(msg := msg.(v6 := h))
    }
  }

  const NO_HALF := Half([], [], [])
  const EMPTY_FACTORY := Factory(Msg(NO_HALF, NO_HALF), {}, {})

  // ---- what the factory does with an event

  /** The first position of `a`, or none. */
  function Index(s: seq<Addr>, a: Addr): (r: Option<nat>)
    ensures r.Some? ==> r.value < |s| && s[r.value] == a
    ensures r.None? <==> a !in s
  {
    if s == [] then None
    else if s[0] == a then Some(0)
    else match Index(s[1..], a)
      case None => None
      case Some(i) => Some(i + 1)
  }

  function Without<T>(s: seq<T>, i: nat): (r: seq<T>)
    requires i < |s|
    ensures |r| == |s| - 1
  {
    s[..i] + s[i+1..]
  }

  function WithAdd(f: Factory, a: Addr, flags: nat): Factory
  {
    var h := f.Half(a);
    if a in f.added then f
    else if a in f.dropped then
      var h' := match Index(h.dropped, a) case Some(i) => h.(dropped := Without(h.dropped, i)) case None => h;
      f.WithHalf(a, h').(dropped := f.dropped - {a})
    else f.WithHalf(a, h.(added := h.added + [a], flags := h.flags + [flags])).(added := f.added + {a})
  }

  function WithDrop(f: Factory, a: Addr): Factory
    requires |f.Half(a).flags| == |f.Half(a).added|
  {
    var h := f.Half(a);
    if a in f.dropped then f
    else if a in f.added then
      var h' := match Index(h.added, a)
        case Some(i) => h.(added := Without(h.added, i), flags := Without(h.flags, i))
        case None => h;
      f.WithHalf(a, h').(added := f.added - {a})
    else f.WithHalf(a, h.(dropped := h.dropped + [a])).(dropped := f.dropped + {a})
  }

  predicate Aligned(f: Factory)
  {
    |f.msg.v4.flags| == |f.msg.v4.added| && |f.msg.v6.flags| == |f.msg.v6.added|
  }

  function Append(f: Factory, e: Event): (r: Factory)
    requires Aligned(f)
    ensures Aligned(r)
  {
    match e case Add(a, flags) => WithAdd(f, a, flags) case Drop(a, _) => WithDrop(f, a)
  }

  /** The factory after a run of events. */
  function Build(es: seq<Event>): (f: Factory)
    ensures Aligned(f)
  {
    if es == [] then EMPTY_FACTORY else Append(Build(es[..|es|-1]), es[|es|-1])
  }

  // ---- what the events mean

  function Step(live: set<Addr>, e: Event): set<Addr>
  {
    match e case Add(a, _) => live + {a} case Drop(a, _) => live - {a}
  }

  function Live(before: set<Addr>, es: seq<Event>): set<Addr>
  {
    if es == [] then before else Step(Live(before, es[..|es|-1]), es[|es|-1])
  }

  /** Does the event change whether its address is live? */
  predicate Toggle(live: set<Addr>, e: Event) { e.Add? <==> e.addr !in live }

  predicate Toggles(before: set<Addr>, es: seq<Event>)
  {
    es == [] || (Toggles(before, es[..|es|-1]) && Toggle(Live(before, es[..|es|-1]), es[|es|-1]))
  }

  /** The flags the address was last added with. */
  function LastFlags(es: seq<Event>, a: Addr): nat
  {
    if es == [] then 0
    else if es[|es|-1].Add? && es[|es|-1].addr == a then es[|es|-1].flags
    else LastFlags(es[..|es|-1], a)
  }

  predicate Distinct<T(==)>(s: seq<T>) { forall i, j | 0 <= i < j < |s| :: s[i] != s[j] }

  /** A half lists exactly its family's share of the two sets, each address once,
      an added one with the flags it was last added with. */
  ghost predicate HalfRight(h: Half, family: bool, added: set<Addr>, dropped: set<Addr>, es: seq<Event>)
  {
    && Distinct(h.added) && Distinct(h.dropped) && |h.flags| == |h.added|
    && (forall a: Addr :: a in h.added <==> a in added && a.V4? == family)
    && (forall a: Addr :: a in h.dropped <==> a in dropped && a.V4? == family)
    && (forall i | 0 <= i < |h.added| :: h.flags[i] == LastFlags(es, h.added[i]))
  }

  /** The message is the net difference of the events, listed without repetition. */
  ghost predicate IsNetDiff(f: Factory, before: set<Addr>, es: seq<Event>)
  {
    && f.added == Live(before, es) - before && f.dropped == before - Live(before, es)
    && HalfRight(f.msg.v4, true, f.added, f.dropped, es)
    && HalfRight(f.msg.v6, false, f.added, f.dropped, es)
  }

  lemma {:induction false} AddedHalf(h: Half, a: Addr, added: set<Addr>, dropped: set<Addr>, es: seq<Event>, flags: nat)
    requires HalfRight(h, a.V4?, added, dropped, es) && a !in added && a !in dropped
    ensures HalfRight(h.(added := h.added + [a], flags := h.flags + [flags]), a.V4?, added + {a}, dropped, es + [Add(a, flags)])
  {
    assert (es + [Add(a, flags)])[..|es|] == es;
  }

  lemma {:induction false} DroppedHalf(h: Half, a: Addr, added: set<Addr>, dropped: set<Addr>, es: seq<Event>, flags: nat)
    requires HalfRight(h, a.V4?, added, dropped, es) && a !in added && a !in dropped
    ensures HalfRight(h.(dropped := h.dropped + [a]), a.V4?, added, dropped + {a}, es + [Drop(a, flags)])
  {
    assert (es + [Drop(a, flags)])[..|es|] == es;
  }

  lemma {:induction false} WithoutAt<T>(s: seq<T>, i: nat)
    requires i < |s| && Distinct(s)
    ensures Distinct(Without(s, i)) && forall x :: x in Without(s, i) <==> x in s && x != s[i]
  {
    forall x | x in s && x != s[i] ensures x in Without(s, i) {
      var k :| 0 <= k < |s| && s[k] == x;
      assert Without(s, i)[if k < i then k else k - 1] == x;
    }
  }

  lemma {:induction false} UndroppedHalf(h: Half, i: nat, added: set<Addr>, dropped: set<Addr>, es: seq<Event>, flags: nat)
    requires i < |h.dropped|
    requires var a := h.dropped[i]; HalfRight(h, a.V4?, added, dropped, es) && a in dropped && a !in added
    ensures var a := h.dropped[i]; HalfRight(h.(dropped := Without(h.dropped, i)), a.V4?, added, dropped - {a}, es + [Add(a, flags)])
  {
    WithoutAt(h.dropped, i);
    assert (es + [Add(h.dropped[i], flags)])[..|es|] == es;
  }

  lemma {:induction false} WithoutIndex<T>(s: seq<T>, i: nat, k: nat)
    requires i < |s| && k < |s| - 1
    ensures Without(s, i)[k] == s[if k < i then k else k + 1]
  {
  }

  lemma {:induction false} UnaddedHalf(h: Half, i: nat, added: set<Addr>, dropped: set<Addr>, es: seq<Event>, flags: nat)
    requires i < |h.added|
    requires var a := h.added[i]; HalfRight(h, a.V4?, added, dropped, es) && a in added && a !in dropped
    ensures var a := h.added[i];
      HalfRight(h.(added := Without(h.added, i), flags := Without(h.flags, i)), a.V4?, added - {a}, dropped, es + [Drop(a, flags)])
  {
    var e := Drop(h.added[i], flags);
    assert (es + [e])[..|es|] == es;
    WithoutAt(h.added, i);
    hide Without;
    forall k | 0 <= k < |h.added| - 1 ensures Without(h.flags, i)[k] == LastFlags(es + [e], Without(h.added, i)[k]) {
      WithoutIndex(h.added, i, k);
      WithoutIndex(h.flags, i, k);
    }
  }

  /** The other family's half does not notice. */
  lemma {:induction false} OtherHalf(h: Half, family: bool, added: set<Addr>, dropped: set<Addr>, es: seq<Event>, e: Event, added': set<Addr>, dropped': set<Addr>)
    requires HalfRight(h, family, added, dropped, es) && e.addr.V4? != family
    requires added' - {e.addr} == added - {e.addr} && dropped' - {e.addr} == dropped - {e.addr}
    ensures HalfRight(h, family, added', dropped', es + [e])
  {
    assert (es + [e])[..|es|] == es;
    assert forall x: Addr :: x != e.addr ==> (x in added' <==> x in added' - {e.addr}) && (x in added <==> x in added - {e.addr});
    assert forall x: Addr :: x != e.addr ==> (x in dropped' <==> x in dropped' - {e.addr}) && (x in dropped <==> x in dropped - {e.addr});
  }

  lemma {:induction false} InHalf(h: Half, family: bool, added: set<Addr>, dropped: set<Addr>, es: seq<Event>, a: Addr)
    requires HalfRight(h, family, added, dropped, es) && a.V4? == family
    ensures |h.flags| == |h.added|
    ensures (a in h.added <==> a in added) && (a in h.dropped <==> a in dropped)
  {
  }

  lemma {:induction false} HalvesRight(f: Factory, before: set<Addr>, es: seq<Event>, a: Addr)
    requires IsNetDiff(f, before, es)
    ensures HalfRight(f.Half(a), a.V4?, f.added, f.dropped, es)
    ensures HalfRight(if a.V4? then f.msg.v6 else f.msg.v4, !a.V4?, f.added, f.dropped, es)
  {
    hide HalfRight;
  }

  /** The half of the event's own family. */
  lemma {:induction false} OwnHalf(f: Factory, before: set<Addr>, es: seq<Event>, e: Event)
    requires IsNetDiff(f, before, es) && Aligned(f) && Toggle(Live(before, es), e)
    ensures var r := Append(f, e);
      && HalfRight(r.Half(e.addr), e.addr.V4?, r.added, r.dropped, es + [e])
      && (if e.addr.V4? then r.msg.v6 == f.msg.v6 else r.msg.v4 == f.msg.v4)
  {
    var a := e.addr;
    var h := f.Half(a);
    HalvesRight(f, before, es, a);
    InHalf(h, a.V4?, f.added, f.dropped, es, a);
    hide HalfRight, Without, LastFlags, Distinct, Live;
    match e
    case Add(_, flags) =>
      if a in f.dropped {
        UndroppedHalf(h, Index(h.dropped, a).value, f.added, f.dropped, es, flags);
      } else {
        AddedHalf(h, a, f.added, f.dropped, es, flags);
      }
    case Drop(_, flags) =>
      if a in f.added {
        UnaddedHalf(h, Index(h.added, a).value, f.added, f.dropped, es, flags);
      } else {
        DroppedHalf(h, a, f.added, f.dropped, es, flags);
      }
  }

  lemma {:induction false} SetsAfter(f: Factory, before: set<Addr>, es: seq<Event>, e: Event)
    requires f.added == Live(before, es) - before && f.dropped == before - Live(before, es) && Aligned(f) && Toggle(Live(before, es), e)
    ensures var r := Append(f, e);
      && r.added == Live(before, es + [e]) - before && r.dropped == before - Live(before, es + [e])
      && r.added - {e.addr} == f.added - {e.addr} && r.dropped - {e.addr} == f.dropped - {e.addr}
  {
    assert (es + [e])[..|es|] == es;
    hide Index, Without;
  }

  lemma {:induction false} DiffOfHalves(r: Factory, before: set<Addr>, es: seq<Event>, a: Addr)
    requires r.added == Live(before, es) - before && r.dropped == before - Live(before, es)
    requires HalfRight(r.Half(a), a.V4?, r.added, r.dropped, es)
    requires HalfRight(if a.V4? then r.msg.v6 else r.msg.v4, !a.V4?, r.added, r.dropped, es)
    ensures IsNetDiff(r, before, es)
  {
    hide HalfRight, Live;
  }

  lemma {:induction false} NetDiffSets(f: Factory, before: set<Addr>, es: seq<Event>)
    requires IsNetDiff(f, before, es)
    ensures f.added == Live(before, es) - before && f.dropped == before - Live(before, es)
  {
    hide HalfRight, Live;
  }

  lemma {:induction false} AppendIsNetDiff(f: Factory, before: set<Addr>, es: seq<Event>, e: Event)
    requires IsNetDiff(f, before, es) && Aligned(f) && Toggle(Live(before, es), e)
    ensures IsNetDiff(Append(f, e), before, es + [e])
  {
    hide *;
    var a, r := e.addr, Append(f, e);
    NetDiffSets(f, before, es);
    SetsAfter(f, before, es, e);
    HalvesRight(f, before, es, a);
    OwnHalf(f, before, es, e);
    OtherHalf(if a.V4? then f.msg.v6 else f.msg.v4, !a.V4?, f.added, f.dropped, es, e, r.added, r.dropped);
    DiffOfHalves(r, before, es + [e], a);
  }

  /** Main result: over events that each toggle their address, the message is the
      net difference of the live set. */
  lemma {:induction false} BuildIsNetDiff(before: set<Addr>, es: seq<Event>)
    requires Toggles(before, es)
    ensures IsNetDiff(Build(es), before, es)
  {
    if es != [] {
      BuildIsNetDiff(before, es[..|es|-1]);
      assert es == es[..|es|-1] + [es[|es|-1]];
      AppendIsNetDiff(Build(es[..|es|-1]), before, es[..|es|-1], es[|es|-1]);
    }
  }

  lemma {:induction false} LiveConcat(before: set<Addr>, a: seq<Event>, b: seq<Event>)
    ensures Live(before, a + b) == Live(Live(before, a), b)
    ensures Toggles(before, a + b) <==> Toggles(before, a) && Toggles(Live(before, a), b)
    decreases |b|
  {
    if b == [] {
      assert a + b == a;
    } else {
      var b' := b[..|b|-1];
      assert (a + b)[..|a + b| - 1] == a + b';
      LiveConcat(before, a, b');
    }
  }

  // ---- cutting the feed into messages

  /** The factory after taking events from position `p` until the message is full
      or the feed ends, and the position then. */
  function TakeFrom(feed: seq<Event>, p: nat, f: Factory): (r: (Factory, nat))
    requires p <= |feed| && Aligned(f)
    ensures p <= r.1 <= |feed|
    decreases |feed| - p
  {
    if p == |feed| || f.DeltaLen() >= MAX_DELTA then (f, p) else TakeFrom(feed, p + 1, Append(f, feed[p]))
  }

  /** Position 0 stands for a remote that has had no message: it gets the initial
      one, which covers the whole feed. */
  function Genmsg(feed: seq<Event>, start: nat): (Factory, nat)
    requires start <= |feed|
  {
    if start == 0 then (Build(feed), |feed|) else TakeFrom(feed, start, EMPTY_FACTORY)
  }

  lemma {:induction false} DeltaGrowsByOne(f: Factory, e: Event)
    requires Aligned(f)
    ensures |Append(f, e).added| <= |f.added| + 1 && |Append(f, e).dropped| <= |f.dropped| + 1
  {
    hide Index, Without;
    match e
    case Add(a, flags) =>
      assert WithAdd(f, a, flags).added <= f.added + {a} && WithAdd(f, a, flags).dropped <= f.dropped;
      SubsetSize(WithAdd(f, a, flags).added, f.added + {a});
      SubsetSize(WithAdd(f, a, flags).dropped, f.dropped);
    case Drop(a, _) =>
      assert WithDrop(f, a).dropped <= f.dropped + {a} && WithDrop(f, a).added <= f.added;
      SubsetSize(WithDrop(f, a).dropped, f.dropped + {a});
      SubsetSize(WithDrop(f, a).added, f.added);
  }

  lemma {:induction false} TakeIsBuild(feed: seq<Event>, p: nat, q: nat)
    requires p <= q <= |feed|
    requires |Build(feed[p..q]).added| <= MAX_DELTA && |Build(feed[p..q]).dropped| <= MAX_DELTA
    ensures var r := TakeFrom(feed, q, Build(feed[p..q]));
      && r.0 == Build(feed[p..r.1])
      && |r.0.added| <= MAX_DELTA && |r.0.dropped| <= MAX_DELTA
      && (r.1 == |feed| || r.0.DeltaLen() == MAX_DELTA)
    decreases |feed| - q
  {
    hide Append;
    var f := Build(feed[p..q]);
    if q < |feed| && f.DeltaLen() < MAX_DELTA {
      assert feed[p..q+1][..|feed[p..q+1]|-1] == feed[p..q] && feed[p..q+1][|feed[p..q+1]|-1] == feed[q];
      DeltaGrowsByOne(f, feed[q]);
      TakeIsBuild(feed, p, q + 1);
    }
  }

  function Elems(s: seq<Addr>): set<Addr> { set a | a in s }

  lemma {:induction false} ElemsEmpty(s: seq<Addr>)
    ensures Elems(s) == {} <==> s == []
  {
    if s != [] { assert s[0] in Elems(s); }
  }

  lemma {:induction false} ElemsNext(s: seq<Addr>, i: nat)
    requires i < |s|
    ensures Elems(s[..i+1]) == Elems(s[..i]) + {s[i]}
  {
  }

  lemma {:induction false} EmptyBuild()
    ensures Build([]) == EMPTY_FACTORY
  {
  }

  /** What a receiver believes after a message. */
  function Received(remote: set<Addr>, m: Msg): set<Addr>
  {
    remote - Elems(m.v4.dropped) - Elems(m.v6.dropped) + Elems(m.v4.added) + Elems(m.v6.added)
  }

  lemma {:induction false} NetDiffReplays(f: Factory, before: set<Addr>, es: seq<Event>)
    requires IsNetDiff(f, before, es)
    ensures Received(before, f.msg) == Live(before, es)
    ensures f.msg.Empty() <==> Live(before, es) == before
  {
    assert Elems(f.msg.v4.added) + Elems(f.msg.v6.added) == f.added;
    assert Elems(f.msg.v4.dropped) + Elems(f.msg.v6.dropped) == f.dropped;
    ElemsEmpty(f.msg.v4.added);
    ElemsEmpty(f.msg.v6.added);
    ElemsEmpty(f.msg.v4.dropped);
    ElemsEmpty(f.msg.v6.dropped);
  }

  /** Main result for one message: it takes the receiver from the live set at the
      old position to the live set at the new one, within the bounds unless it is the
      initial one, which adds the whole live set; and an empty message means that the
      rest of the feed changes nothing. */
  lemma {:induction false} GenmsgDelivers(feed: seq<Event>, start: nat)
    requires start <= |feed| && Toggles({}, feed)
    ensures var r := Genmsg(feed, start);
      && start <= r.1 <= |feed|
      && Received(Live({}, feed[..start]), r.0.msg) == Live({}, feed[..r.1])
      && (start < |feed| ==> r.1 > start)
      && (start > 0 ==> |r.0.added| <= MAX_DELTA && |r.0.dropped| <= MAX_DELTA)
      && (start == 0 ==> r.0.added == Live({}, feed) && r.0.dropped == {})
      && (r.0.msg.Empty() ==> Live({}, feed) == Live({}, feed[..start]))
  {
    hide Append, Build, Live, Toggles, IsNetDiff, TakeFrom, Received;
    var r := Genmsg(feed, start);
    Window(feed, start);
    var before, window := Live({}, feed[..start]), feed[start..r.1];
    LiveConcat({}, feed[..start], feed[start..]);
    LiveConcat(before, window, feed[r.1..]);
    LiveConcat({}, feed[..start], window);
    BuildIsNetDiff(before, window);
    NetDiffReplays(r.0, before, window);
    NetDiffSets(r.0, before, window);
    NobodyYet();
    if r.0.msg.Empty() { NoneListed(r.0, before, window); }
  }

  lemma {:induction false} NobodyYet()
    ensures Live({}, []) == {}
  {
  }

  /** Which events of the feed a message is built from. */
  lemma {:induction false} Window(feed: seq<Event>, start: nat)
    requires start <= |feed|
    ensures var r := Genmsg(feed, start);
      && start <= r.1 <= |feed| && r.0 == Build(feed[start..r.1]) && Aligned(r.0)
      && (start > 0 ==> |r.0.added| <= MAX_DELTA && |r.0.dropped| <= MAX_DELTA && (r.1 == |feed| || r.0.DeltaLen() == MAX_DELTA))
      && (start == 0 ==> feed[..start] == [] && r.1 == |feed| && feed[start..r.1] == feed)
      && (start < |feed| ==> r.1 > start)
      && feed == feed[..start] + feed[start..] && feed[start..] == feed[start..r.1] + feed[r.1..] && feed[..r.1] == feed[..start] + feed[start..r.1]
      && feed[..|feed|] == feed
  {
    hide Append, Build;
    EmptyBuild();
    assert feed[0..|feed|] == feed;
    if start > 0 {
      assert feed[start..start] == [];
      TakeIsBuild(feed, start, start);
      if start < |feed| { TakesOne(feed, start); }
    }
    hide TakeFrom;
  }

  lemma {:induction false} TakesOne(feed: seq<Event>, p: nat)
    requires p < |feed|
    ensures TakeFrom(feed, p, EMPTY_FACTORY).1 > p
  {
    hide Append;
  }

  lemma {:induction false} NoneListed(f: Factory, before: set<Addr>, es: seq<Event>)
    requires IsNetDiff(f, before, es) && f.msg.Empty()
    ensures f.added == {} && f.dropped == {}
  {
    assert Elems(f.msg.v4.added) + Elems(f.msg.v6.added) == f.added;
    assert Elems(f.msg.v4.dropped) + Elems(f.msg.v6.dropped) == f.dropped;
  }

  // ---- a remote following the feed

  /** The feed, how much of it the remote was told, and what the remote believes. */
  datatype Session = Session(feed: seq<Event>, last: nat, remote: set<Addr>)

  datatype Action = Happens(e: Event) | Send

  predicate Following(s: Session)
  {
    s.last <= |s.feed| && Toggles({}, s.feed) && s.remote == Live({}, s.feed[..s.last])
  }

  predicate Possible(s: Session, a: Action) { a.Happens? ==> Toggle(Live({}, s.feed), a.e) }

  /** An empty message is not sent, and then the position stays. */
  function Act(s: Session, a: Action): Session
    requires s.last <= |s.feed|
  {
    match a
    case Happens(e) => s.(feed := s.feed + [e])
    case Send =>
      var r := Genmsg(s.feed, s.last);
      if r.0.msg.Empty() then s else s.(last := r.1, remote := Received(s.remote, r.0.msg))
  }

  lemma {:induction false} ActKeepsFollowing(s: Session, a: Action)
    requires Following(s) && Possible(s, a)
    ensures Following(Act(s, a))
  {
    match a
    case Happens(e) =>
      assert (s.feed + [e])[..|s.feed|] == s.feed && (s.feed + [e])[..s.last] == s.feed[..s.last];
    case Send => GenmsgDelivers(s.feed, s.last);
  }

  /** Runs of events and messages in any order. */
  ghost predicate PossibleRun(s: Session, acts: seq<Action>)
    requires Following(s)
    decreases |acts|
  {
    acts == [] || (Possible(s, acts[0]) && (ActKeepsFollowing(s, acts[0]); PossibleRun(Act(s, acts[0]), acts[1..])))
  }

  ghost function RunOf(s: Session, acts: seq<Action>): (r: Session)
    requires Following(s) && PossibleRun(s, acts)
    ensures Following(r)
    decreases |acts|
  {
    if acts == [] then s
    else
      ActKeepsFollowing(s, acts[0]);
      RunOf(Act(s, acts[0]), acts[1..])
  }

  /** `n` messages in a row, with nothing happening in between. */
  function SendMany(s: Session, n: nat): Session
    requires Following(s)
    decreases n
  {
    if n == 0 then s else (ActKeepsFollowing(s, Send); SendMany(Act(s, Send), n - 1))
  }

  /** Main result for a remote: from any point of any run, as many messages as there
      are untold events bring it up to date. */
  lemma {:induction false} RemoteCatchesUp(s: Session, n: nat)
    requires Following(s) && n >= |s.feed| - s.last
    ensures SendMany(s, n).feed == s.feed && SendMany(s, n).remote == Live({}, s.feed)
    decreases n
  {
    hide Live, Toggles, Received, Genmsg;
    assert s.feed[..|s.feed|] == s.feed;
    if n > 0 {
      GenmsgDelivers(s.feed, s.last);
      ActKeepsFollowing(s, Send);
      if Act(s, Send) == s {
        NothingMoreToSay(s, n);
      } else {
        RemoteCatchesUp(Act(s, Send), n - 1);
      }
    }
  }

  lemma {:induction false} NothingMoreToSay(s: Session, n: nat)
    requires Following(s) && Act(s, Send) == s
    ensures SendMany(s, n) == s && s.remote == Live({}, s.feed)
    decreases n
  {
    hide Live, Toggles, Received, Genmsg;
    assert s.feed[..|s.feed|] == s.feed;
    GenmsgDelivers(s.feed, s.last);
    if n > 0 { NothingMoreToSay(s, n - 1); }
  }

  // ---- held-back drops

  /** The torrent's PEX state apart from the linked list of events. */
  datatype Holding = Holding(feed: seq<Event>, hold: seq<Event>, nc: int)

  function AddCall(s: Holding, e: Event): Holding
  {
    if s.nc + 1 >= TARGET_ADDED then Holding(s.feed + s.hold + [e], [], s.nc + 1)
    else s.(feed := s.feed + [e], nc := s.nc + 1)
  }

  function DropCall(s: Holding, e: Event): Holding
  {
    if s.nc - 1 < TARGET_ADDED && |s.hold| < MAX_HOLD then s.(hold := s.hold + [e], nc := s.nc - 1)
    else s.(feed := s.feed + [e], nc := s.nc - 1)
  }

  /** The feed toggles, and what it takes to be live are the live connections and
      those whose drop is held back, of which there are none from 25 connections on. */
  ghost predicate HoldsBack(s: Holding, live: set<Addr>)
  {
    && Toggles({}, s.feed) && Toggles(Live({}, s.feed), s.hold)
    && (forall e <- s.hold :: e.Drop? && e.addr !in live)
    && live == Live(Live({}, s.feed), s.hold)
    && s.nc == |live| && |s.hold| <= MAX_HOLD && (s.hold != [] ==> s.nc < TARGET_ADDED)
  }

  lemma {:induction false} DropsOnly(before: set<Addr>, hold: seq<Event>, a: Addr)
    requires forall e <- hold :: e.Drop?
    ensures a in Live(before, hold) <==> a in before && forall e <- hold :: e.addr != a
    decreases |hold|
  {
    if hold != [] {
      var h' := hold[..|hold|-1];
      assert hold == h' + [hold[|hold|-1]];
      assert forall e <- hold :: e in h' || e == hold[|hold|-1];
      assert hold[|hold|-1] in hold && forall e <- h' :: e in hold;
      DropsOnly(before, h', a);
    }
  }

  /** A drop is held only for an address the feed still has live. */
  lemma {:induction false} HeldAreInFeed(before: set<Addr>, hold: seq<Event>, h: Event)
    requires Toggles(before, hold) && (forall e <- hold :: e.Drop?) && h in hold
    ensures h.addr in before
    decreases |hold|
  {
    var h' := hold[..|hold|-1];
    assert hold == h' + [hold[|hold|-1]];
    if h in h' {
      HeldAreInFeed(before, h', h);
    } else {
      DropsOnly(before, h', h.addr);
    }
  }

  /** An address may come back when its drop is not held, or no drop will be. */
  predicate NotWaiting(s: Holding, e: Event)
  {
    e.Add? ==> s.nc + 1 >= TARGET_ADDED || forall h <- s.hold :: h.addr != e.addr
  }

  /** A connection comes: the feed goes on toggling exactly when its address is not
      waiting among the held drops, or the drops are let go first. */
  lemma {:induction false} AddKeepsToggling(s: Holding, live: set<Addr>, e: Event)
    requires HoldsBack(s, live) && e.Add? && e.addr !in live
    ensures var r := AddCall(s, e);
      Toggles({}, r.feed) <==> NotWaiting(s, e)
    ensures Toggles({}, AddCall(s, e).feed) ==> HoldsBack(AddCall(s, e), live + {e.addr})
  {
    var r := AddCall(s, e);
    DropsOnly(Live({}, s.feed), s.hold, e.addr);
    if s.nc + 1 >= TARGET_ADDED {
      LiveConcat({}, s.feed, s.hold);
      LiveConcat({}, s.feed + s.hold, [e]);
      assert [e][..0] == [];
    } else {
      LiveConcat({}, s.feed, [e]);
      assert [e][..0] == [];
      if h :| h in s.hold && h.addr == e.addr {
        HeldAreInFeed(Live({}, s.feed), s.hold, h);
      } else {
        DropsAfterAdd(Live({}, s.feed), s.hold, e.addr);
      }
    }
  }

  lemma {:induction false} DropsAfterAdd(before: set<Addr>, hold: seq<Event>, a: Addr)
    requires Toggles(before, hold) && forall e <- hold :: e.Drop? && e.addr != a
    ensures Toggles(before + {a}, hold) && Live(before + {a}, hold) == Live(before, hold) + {a}
    decreases |hold|
  {
    if hold != [] {
      var h' := hold[..|hold|-1];
      assert hold == h' + [hold[|hold|-1]];
      DropsAfterAdd(before, h', a);
    }
  }

  /** A connection goes: whether its drop is held back or not, the feed goes on
      toggling. */
  lemma {:induction false} DropKeepsToggling(s: Holding, live: set<Addr>, e: Event)
    requires HoldsBack(s, live) && e.Drop? && e.addr in live
    ensures HoldsBack(DropCall(s, e), live - {e.addr})
  {
    var before := Live({}, s.feed);
    if s.nc - 1 < TARGET_ADDED && |s.hold| < MAX_HOLD {
      LiveConcat(before, s.hold, [e]);
      assert [e][..0] == [];
    } else {
      LiveConcat({}, s.feed, [e]);
      assert [e][..0] == [];
      DropsOnly(before, s.hold, e.addr);
      DropsAfterDrop(before, s.hold, e.addr);
    }
  }

  lemma {:induction false} DropsAfterDrop(before: set<Addr>, hold: seq<Event>, a: Addr)
    requires Toggles(before, hold) && forall e <- hold :: e.Drop? && e.addr != a
    ensures Toggles(before - {a}, hold) && Live(before - {a}, hold) == Live(before, hold) - {a}
    decreases |hold|
  {
    if hold != [] {
      var h' := hold[..|hold|-1];
      assert hold == h' + [hold[|hold|-1]];
      DropsAfterDrop(before, h', a);
    }
  }

  /** What goes wrong otherwise: a connection that comes back while its drop is held
      is reported as dropped when the held drops are let go, though it is live. */
  lemma {:induction false} HeldDropLosesLiveConnection(s: Holding, live: set<Addr>, back: Event, next: Event)
    requires HoldsBack(s, live) && back.Add? && next.Add? && next.addr != back.addr
    requires s.nc + 2 == TARGET_ADDED && exists h <- s.hold :: h.addr == back.addr
    ensures back.addr !in Live({}, AddCall(AddCall(s, back), next).feed)
  {
    var feed := s.feed + [back];
    LiveConcat({}, feed, s.hold);
    LiveConcat({}, feed + s.hold, [next]);
    assert [next][..0] == [];
    DropsOnly(Live({}, feed), s.hold, back.addr);
  }

  // ---- runs of connections that come and go

  const NOTHING_HELD := Holding([], [], 0)

  function Call(s: Holding, e: Event): Holding { if e.Add? then AddCall(s, e) else DropCall(s, e) }

  function Calls(es: seq<Event>): Holding
  {
    if es == [] then NOTHING_HELD else Call(Calls(es[..|es|-1]), es[|es|-1])
  }

  /** At every point of the run the feed toggles. */
  ghost predicate FeedToggles(es: seq<Event>) { forall n: nat | n <= |es| :: Toggles({}, Calls(es[..n]).feed) }

  /** No call of the run brings an address back that is waiting. */
  ghost predicate NoneWaits(es: seq<Event>) { forall n: nat | n < |es| :: NotWaiting(Calls(es[..n]), es[n]) }

  lemma {:induction false} CallsNext(es: seq<Event>, e: Event)
    ensures Calls(es + [e]) == Call(Calls(es), e) && Live({}, es + [e]) == Step(Live({}, es), e)
    ensures Toggles({}, es + [e]) <==> Toggles({}, es) && Toggle(Live({}, es), e)
  {
    assert (es + [e])[..|es|] == es;
  }

  lemma {:induction false} RunPrefix(es: seq<Event>, e: Event)
    ensures FeedToggles(es + [e]) <==> FeedToggles(es) && Toggles({}, Calls(es + [e]).feed)
    ensures NoneWaits(es + [e]) <==> NoneWaits(es) && NotWaiting(Calls(es), e)
  {
    hide Calls, Toggles, NotWaiting;
    var all := es + [e];
    assert all[..|all|] == all && all[..|es|] == es && all[|es|] == e;
    assert forall n: nat | n <= |es| :: all[..n] == es[..n];
    if FeedToggles(all) {
      forall n: nat | n <= |es| ensures Toggles({}, Calls(es[..n]).feed) { assert Toggles({}, Calls(all[..n]).feed); }
    }
    if NoneWaits(all) {
      forall n: nat | n < |es| ensures NotWaiting(Calls(es[..n]), es[n]) { assert NotWaiting(Calls(all[..n]), all[n]); }
    }
  }

  /** Main result for held drops: over a run of connections that come and go, the feed
      toggles at every point exactly when none comes back while its drop is held. */
  lemma {:induction false} FeedTogglesWhen(es: seq<Event>)
    requires Toggles({}, es)
    ensures FeedToggles(es) <==> NoneWaits(es)
    ensures NoneWaits(es) ==> HoldsBack(Calls(es), Live({}, es))
  {
    if es != [] {
      var last, e := es[..|es|-1], es[|es|-1];
      assert es == last + [e];
      FeedTogglesWhen(last);
      RunPrefix(last, e);
      CallsNext(last, e);
      hide FeedToggles, NoneWaits, HoldsBack, NotWaiting, Live, Calls;
      if NoneWaits(last) { CallKeepsToggling(Calls(last), Live({}, last), e); }
    }
  }

  lemma {:induction false} CallKeepsToggling(s: Holding, live: set<Addr>, e: Event)
    requires HoldsBack(s, live) && Toggle(live, e)
    ensures Toggles({}, Call(s, e).feed) <==> NotWaiting(s, e)
    ensures NotWaiting(s, e) ==> HoldsBack(Call(s, e), Step(live, e))
  {
    if e.Add? {
      AddKeepsToggling(s, live, e);
    } else {
      DropKeepsToggling(s, live, e);
    }
  }

  lemma {:induction false} HeldCount(before: set<Addr>, hold: seq<Event>)
    requires Toggles(before, hold) && forall e <- hold :: e.Drop?
    ensures |before| == |Live(before, hold)| + |hold|
  {
    if hold != [] {
      var h' := hold[..|hold|-1];
      assert forall e <- h' :: e in hold;
      HeldCount(before, h');
      assert hold[|hold|-1] in hold;
    }
  }

  /** The initial message stays within the bounds exactly up to 50 connections: what it
      adds beyond them is held back, and then there are few. */
  lemma {:induction false} InitialMessageBound(s: Holding, live: set<Addr>)
    requires HoldsBack(s, live)
    ensures var f := Genmsg(s.feed, 0).0;
      && f.added == Live({}, s.feed) && |f.added| == s.nc + |s.hold| && f.dropped == {}
      && (|f.added| <= MAX_DELTA && |f.dropped| <= MAX_DELTA <==> s.nc <= MAX_DELTA)
  {
    GenmsgDelivers(s.feed, 0);
    HeldCount(Live({}, s.feed), s.hold);
    hide Genmsg, Live, Toggles;
  }

  /** Connections from `n` addresses, one after the other. */
  function Comings(n: nat): (es: seq<Event>)
    ensures |es| == n
  {
    seq(n, i requires 0 <= i < n => Add(V4(i, 0), 0))
  }

  function Sources(n: nat): set<Addr> { set i: nat | 0 <= i < n :: V4(i, 0) }

  lemma {:induction false} SourcesNext(n: nat)
    ensures Sources(n + 1) == Sources(n) + {V4(n, 0)} && V4(n, 0) !in Sources(n)
  {
  }

  lemma {:induction false} ComingsNext(n: nat)
    ensures Comings(n + 1) == Comings(n) + [Add(V4(n, 0), 0)]
    ensures Call(Holding(Comings(n), [], n), Add(V4(n, 0), 0)) == Holding(Comings(n + 1), [], n + 1)
  {
    assert Comings(n) + [] == Comings(n);
  }

  lemma {:induction false} NoneCome()
    ensures Toggles({}, Comings(0)) && Live({}, Comings(0)) == Sources(0) == {} && Calls(Comings(0)) == Holding(Comings(0), [], 0)
  {
  }

  lemma {:induction false} ComingsRun(n: nat)
    ensures Toggles({}, Comings(n)) && Live({}, Comings(n)) == Sources(n) && |Sources(n)| == n
    ensures Calls(Comings(n)) == Holding(Comings(n), [], n)
  {
    hide Sources, Comings, Calls, Live, Toggles, Call;
    if n == 0 {
      NoneCome();
    } else {
      ComingsRun(n - 1);
      SourcesNext(n - 1);
      ComingsNext(n - 1);
      CallsNext(Comings(n - 1), Add(V4(n - 1, 0), 0));
    }
  }

  /** With one connection more, the initial message is too long. */
  lemma {:induction false} InitialMessageTooLong()
    ensures |Genmsg(Calls(Comings(51)).feed, 0).0.added| == 51 > MAX_DELTA
  {
    ComingsRun(51);
    GenmsgDelivers(Comings(51), 0);
    hide Genmsg, Live, Comings, Calls, Sources;
  }

  const GONE: Event := Drop(V4(0, 0), 0)
  const BACK: Event := Add(V4(0, 0), 0)
  const NEXT: Event := Add(V4(24, 0), 0)

  lemma {:induction false} OneGone()
    ensures var one := Comings(24) + [GONE];
      && Toggles({}, one) && Live({}, one) == Sources(24) - {V4(0, 0)}
      && HoldsBack(Calls(one), Sources(24) - {V4(0, 0)}) && Calls(one).nc == 23 && GONE in Calls(one).hold
  {
    ComingsRun(24);
    CallsNext(Comings(24), GONE);
    hide Comings, Live, Calls;
    assert HoldsBack(Calls(Comings(24)), Sources(24)) by { assert Toggles(Sources(24), []); }
    DropKeepsToggling(Calls(Comings(24)), Sources(24), GONE);
  }

  /** How a live connection is lost: of 24, one goes and comes back, and one more comes. */
  lemma {:induction false} LiveConnectionLost()
    ensures var es := Comings(24) + [GONE] + [BACK] + [NEXT];
      Toggles({}, es) && V4(0, 0) in Live({}, es) && V4(0, 0) !in Live({}, Calls(es).feed)
  {
    var one := Comings(24) + [GONE];
    OneGone();
    CallsNext(one, BACK);
    CallsNext(one + [BACK], NEXT);
    hide Comings, Live, Calls, HoldsBack, Toggles;
    HeldDropLosesLiveConnection(Calls(one), Sources(24) - {V4(0, 0)}, BACK, NEXT);
  }
}
