/** A set of request indexes that remembers the order of insertion: a bitmap, a ring
    list of the members, and a table from each member to its list element. */
module OrderedBitmap {
  import opened RingList

  /** A bitmap, a table and a list hold the same members, each once. */
  ghost predicate Agree(bitmap: set<nat>, elements: map<nat, Element>, es: seq<Element>)
  {
    && bitmap == elements.Keys && Different(es)
    && (forall x <- elements :: elements[x] in es && elements[x].value == x)
    && (forall e <- es :: e.value in elements && elements[e.value] == e)
  }

  lemma {:induction false} AgreeAdd(bitmap: set<nat>, elements: map<nat, Element>, es: seq<Element>, e: Element)
    requires Agree(bitmap, elements, es) && e.value !in elements
    ensures Agree(bitmap + {e.value}, elements[e.value := e], es + [e])
    ensures Values(es + [e]) == Values(es) + [e.value]
  {
    ValuesConcat(es, [e]);
    ValuesOne(e);
  }

  /** Taking one element out of the list and the table drops one value. */
  lemma {:induction false} AgreeRemove(bitmap: set<nat>, elements: map<nat, Element>, es: seq<Element>, x: nat)
    requires Agree(bitmap, elements, es) && x in elements
    ensures Agree(bitmap - {x}, elements - {x}, Without(es, elements[x]))
    ensures Values(Without(es, elements[x])) == Dropped(Values(es), x)
  {
    var p := Position(es, elements[x]);
    hide Dropped, Position;
    StillAgree(bitmap, elements, es, x, p);
    assert forall i | 0 <= i < p :: Values(es)[i] != x;
    hide Agree;
    DroppedAt(Values(es), x, p);
    ValuesRemove(es, p);
  }

  lemma {:induction false} ValuesRemove(es: seq<Element>, p: nat)
    requires p < |es|
    ensures Values(RemoveAt(es, p)) == RemoveAt(Values(es), p)
  {
  }

  lemma {:induction false} StillAgree(bitmap: set<nat>, elements: map<nat, Element>, es: seq<Element>, x: nat, p: nat)
    requires Agree(bitmap, elements, es) && x in elements && p < |es| && es[p] == elements[x]
    ensures Agree(bitmap - {x}, elements - {x}, RemoveAt(es, p))
  {
    var r := RemoveAt(es, p);
    hide RemoveAt;
    forall y | y in elements && y != x
      ensures elements[y] in r
    {
      var i :| 0 <= i < |es| && es[i] == elements[y];
      assert r[if i < p then i else i - 1] == es[i];
    }
  }

  lemma {:induction false} DroppedAt(s: seq<nat>, x: nat, p: nat)
    requires p < |s| && s[p] == x && forall i | 0 <= i < p :: s[i] != x
    ensures Dropped(s, x) == RemoveAt(s, p)
  {
    if p > 0 {
      DroppedAt(s[1..], x, p - 1);
      assert [s[0]] + RemoveAt(s[1..], p - 1) == RemoveAt(s, p);
    }
  }

  lemma {:induction false} NothingDropped(s: seq<nat>, x: nat)
    requires x !in s
    ensures Dropped(s, x) == s
  {
    if s != [] { NothingDropped(s[1..], x); }
  }

  lemma {:induction false} AddOld(bitmap: set<nat>, elements: map<nat, Element>, es: seq<Element>, x: nat)
    requires Agree(bitmap, elements, es)
    ensures x in elements <==> x in bitmap
    ensures x in elements ==> bitmap + {x} == bitmap
  {
  }

  lemma {:induction false} RemoveOld(bitmap: set<nat>, elements: map<nat, Element>, es: seq<Element>, x: nat)
    requires Agree(bitmap, elements, es)
    ensures x in bitmap ==> x in elements && elements[x] in es
    ensures x !in bitmap ==> bitmap - {x} == bitmap && Dropped(Values(es), x) == Values(es)
  {
    if x !in bitmap { NothingDropped(Values(es), x); }
  }

  /** So the length of the list is the number of members. */
  lemma {:induction false} SizesAgree(bitmap: set<nat>, elements: map<nat, Element>, es: seq<Element>)
    requires Agree(bitmap, elements, es)
    ensures |es| == |bitmap|
    decreases |es|
  {
    if es == [] {
      assert bitmap == {};
    } else {
      var p := |es| - 1;
      var x := es[p].value;
      StillAgree(bitmap, elements, es, x, p);
      SizesAgree(bitmap - {x}, elements - {x}, RemoveAt(es, p));
    }
  }

  class Bitmap {
    var bitmap: set<nat>
    const order: List
    var elements: map<nat, Element>

    ghost predicate Valid()
      reads this, order`len, order`loop, order.loop`next, order.loop`prev, order.loop`list
      reads order.root`next, order.root`prev, order.root`list
    {
      order.Valid() && Agree(bitmap, elements, order.Elements())
    }

    /** The members in the order of their insertion. */
    ghost function Members(): seq<nat>
      requires |order.loop| >= 2
      reads order`loop
    {
      order.Contents()
    }

    constructor ()
      ensures Valid() && Members() == [] && bitmap == {} && fresh(order)
    {
      bitmap, elements := {}, map[];
      order := new List(0);
    }

    function IsEmpty(): bool
      reads this`bitmap
    {
      bitmap == {}
    }

    function GetCardinality(): (n: int)
      requires Valid()
      reads this, order`len, order`loop, order.loop`next, order.loop`prev, order.loop`list
      reads order.root`next, order.root`prev, order.root`list
      ensures n == |bitmap|
    {
      SizesAgree(bitmap, elements, order.Elements());
      order.Len()
    }

    function Contains(index: nat): bool
      reads this`bitmap
    {
      index in bitmap
    }

    method Add(index: nat)
      requires Valid()
      modifies this, order`len, order`loop, order.loop`next, order.loop`prev
      ensures Valid() && bitmap == old(bitmap) + {index}
      ensures Members() == if index in old(bitmap) then old(Members()) else old(Members()) + [index]
    {
      hide *;
      Opened();
      ghost var was, es := bitmap, order.Elements();
      AddOld(was, elements, es, index);
      bitmap := bitmap + {index};
      if index !in elements {
        var e := order.PushBack(index);
        AgreeAdd(was, elements, es, e);
        elements := elements[index := e];
      }
      order.Facts();
      Restored();
    }

    lemma {:induction false} Restored()
      requires order.Valid() && |order.loop| >= 2 && Agree(bitmap, elements, order.Elements())
      ensures Valid() && Members() == Values(order.Elements())
    {
    }

    method CheckedRemove(index: nat) returns (removed: bool)
      requires Valid()
      modifies this, order`len, order`loop, order.loop`next, order.loop`prev, order.loop`list
      ensures Valid() && removed == (index in old(bitmap)) && bitmap == old(bitmap) - {index}
      ensures Members() == Dropped(old(Members()), index)
    {
      hide *;
      Opened();
      ghost var was, es := bitmap, order.Elements();
      RemoveOld(was, elements, es, index);
      if index !in bitmap { return false; }
      order.Names(elements[index]);
      AgreeRemove(was, elements, es, index);
      bitmap := bitmap - {index};
      var _ := order.Remove(elements[index]);
      elements := elements - {index};
      order.Facts();
      Restored();
      return true;
    }

    lemma {:induction false} Opened()
      requires Valid()
      ensures order.Valid() && |order.loop| >= 2 && Members() == order.Contents() == Values(order.Elements()) && |Members()| == |order.Elements()|
      ensures Agree(bitmap, elements, order.Elements())
    {
    }

    /** Visits the members in order until the visitor stops it. */
    method Iterate(goOn: nat -> bool) returns (visited: seq<nat>, all: bool)
      requires Valid()
      ensures |visited| <= |Members()| && visited == Members()[..|visited|]
      ensures forall i | 0 <= i < |visited| - 1 :: goOn(visited[i])
      ensures if all then visited == Members() && forall i | 0 <= i < |visited| :: goOn(visited[i])
        else |visited| > 0 && !goOn(visited[|visited| - 1])
    {
      hide *;
      Opened();
      ghost var es, members := order.Elements(), Members();
      visited := [];
      var e := order.Front();
      while e != null
        invariant |visited| <= |es| == |members| && visited == members[..|visited|]
        invariant e == if |visited| < |es| then es[|visited|] else null
        invariant forall i | 0 <= i < |visited| :: goOn(visited[i])
        decreases |es| - |visited|
      {
        order.NextIs(|visited|);
        visited := visited + [e.value];
        if !goOn(e.value) { return visited, false; }
        e := e.Next();
      }
      all := true;
    }
  }

  function Dropped(s: seq<nat>, x: nat): seq<nat> {
    if s == [] then [] else if s[0] == x then s[1..] else [s[0]] + Dropped(s[1..], x)
  }
}
