/** The doubly linked list of the client: a ring of elements through a sentinel,
    rewritten in place. */
module RingList {

  /** The instance the client uses: lists of 32-bit request indexes. */
  type Value = nat

  class Element {
    var next: Element?
    var prev: Element?
    var list: List?
    /** Never rewritten by the client once the element exists. */
    const value: Value

    constructor (v: Value)
      ensures next == null && prev == null && list == null && value == v
    {
      next, prev, list, value := null, null, null, v;
    }

    /** The element after this one, or null at the end of its list. */
    function Next(): Element?
      reads this`next, this`list
    {
      if list != null && next != list.root then next else null
    }

    function Prev(): Element?
      reads this`prev, this`list
    {
      if list != null && prev != list.root then prev else null
    }
  }

  /** Consecutive elements point at each other. */
  ghost predicate Chain(s: seq<Element>)
    reads s`next, s`prev
  {
    forall i | 0 <= i < |s| - 1 :: s[i].next == s[i + 1] && s[i + 1].prev == s[i]
  }

  /** No element but the last, which closes the ring, occurs twice. */
  ghost predicate Ring(s: seq<Element>)
  {
    |s| >= 2 && s[0] == s[|s| - 1] && forall i, j | 0 <= i < j < |s| - 1 :: s[i] != s[j]
  }

  /** All elements between the ends name the list. */
  ghost predicate Owned(s: seq<Element>, l: List)
    reads s`list
  {
    forall i | 0 < i < |s| - 1 :: s[i].list == l
  }

  ghost function Values(s: seq<Element>): (r: seq<Value>)
    ensures |r| == |s| && forall i | 0 <= i < |s| :: r[i] == s[i].value
  {
    if s == [] then [] else [s[0].value] + Values(s[1..])
  }

  function InsertAt<T>(s: seq<T>, k: nat, x: T): (r: seq<T>)
    requires k < |s|
    ensures |r| == |s| + 1 && r[k + 1] == x && (forall i | 0 <= i <= k :: r[i] == s[i])
    ensures forall i | k + 2 <= i < |r| :: r[i] == s[i - 1]
  {
    s[..k + 1] + [x] + s[k + 1..]
  }

  function RemoveAt<T>(s: seq<T>, k: nat): (r: seq<T>)
    requires k < |s|
    ensures |r| == |s| - 1 && (forall i | 0 <= i < k :: r[i] == s[i]) && (forall i | k <= i < |r| :: r[i] == s[i + 1])
  {
    s[..k] + s[k + 1..]
  }

  /** The four pointers written complete the chain around the new element. */
  lemma {:induction false} ChainInserted(s: seq<Element>, k: nat, e: Element)
    requires Ring(s) && k < |s| - 1 && e !in s
    requires forall i | 0 <= i < |s| - 1 && i != k :: s[i].next == s[i + 1] && s[i + 1].prev == s[i]
    requires s[k].next == e && e.prev == s[k] && e.next == s[k + 1] && s[k + 1].prev == e
    ensures Ring(InsertAt(s, k, e)) && Chain(InsertAt(s, k, e))
  {
    var r := InsertAt(s, k, e);
    forall i | 0 <= i < |r| - 1
      ensures r[i].next == r[i + 1] && r[i + 1].prev == r[i]
    {
      if i < k { assert r[i] == s[i] && r[i + 1] == s[i + 1]; }
      if i > k + 1 { assert r[i] == s[i - 1] && r[i + 1] == s[i]; }
    }
  }

  /** Puts `e` into the ring after `at`, which is at position `k`. */
  method LinkAfter(e: Element, at: Element, ghost s: seq<Element>, ghost k: nat)
    requires Ring(s) && Chain(s) && k < |s| - 1 && s[k] == at && e !in s
    modifies s`next, s`prev, e`next, e`prev
    ensures Ring(InsertAt(s, k, e)) && Chain(InsertAt(s, k, e))
  {
    assert s[k].next == s[k + 1] && s[k + 1].prev == s[k];
    e.prev := at;
    e.next := at.next;
    e.prev.next := e;
    e.next.prev := e;
    assert forall i | 0 <= i < |s| - 1 && i != k :: s[i].next == s[i + 1] && s[i + 1].prev == s[i];
    hide *;
    ChainInserted(s, k, e);
  }

  lemma {:induction false} ChainRemoved(s: seq<Element>, k: nat)
    requires Ring(s) && 0 < k < |s| - 1
    requires forall i | 0 <= i < |s| - 1 && i != k - 1 && i != k :: s[i].next == s[i + 1] && s[i + 1].prev == s[i]
    requires s[k - 1].next == s[k + 1] && s[k + 1].prev == s[k - 1]
    ensures Ring(RemoveAt(s, k)) && Chain(RemoveAt(s, k)) && s[k] !in RemoveAt(s, k)
  {
    var r := RemoveAt(s, k);
    forall i | 0 <= i < |r| - 1
      ensures r[i].next == r[i + 1] && r[i + 1].prev == r[i]
    {
      if i < k - 1 { assert r[i] == s[i] && r[i + 1] == s[i + 1]; }
      if i > k - 1 { assert r[i] == s[i + 1] && r[i + 1] == s[i + 2]; }
    }
  }

  /** Takes `e`, which is at position `k`, out of the ring. */
  method Bypass(e: Element, ghost s: seq<Element>, ghost k: nat)
    requires Ring(s) && Chain(s) && 0 < k < |s| - 1 && s[k] == e
    modifies s`next, s`prev
    ensures Ring(RemoveAt(s, k)) && Chain(RemoveAt(s, k)) && e !in RemoveAt(s, k)
  {
    assert s[k - 1].next == s[k] && s[k].prev == s[k - 1] && s[k].next == s[k + 1] && s[k + 1].prev == s[k];
    e.prev.next := e.next;
    e.next.prev := e.prev;
    assert forall i | 0 <= i < |s| - 1 && i != k - 1 && i != k :: s[i].next == s[i + 1] && s[i + 1].prev == s[i];
    hide *;
    ChainRemoved(s, k);
  }

  class List {
    const root: Element
    var len: int
    /** The ring from the sentinel round to the sentinel again. */
    ghost var loop: seq<Element>

    /** The zero value of a list has null pointers and is empty. */
    ghost predicate Uninitialized()
      reads this`loop, root`next, root`prev
    {
      |loop| == 2 && root.next == null && root.prev == null
    }

    ghost predicate Valid()
      reads this`len, this`loop, loop`next, loop`prev, loop`list, root`next, root`prev, root`list
    {
      && |loop| == len + 2 && Ring(loop) && loop[0] == root && root.list == null
      && Owned(loop, this)
      && (Uninitialized() || Chain(loop))
    }

    ghost function Elements(): seq<Element>
      requires |loop| >= 2
      reads this`loop
    {
      loop[1..|loop| - 1]
    }

    ghost function Nodes(): set<Element>
      reads this`loop
    {
      set x | x in loop
    }

    /** The values of the list, front to back. */
    ghost function Contents(): seq<Value>
      requires |loop| >= 2
      reads this`loop
    {
      Values(Elements())
    }

    constructor (zero: Value)
      ensures Valid() && Contents() == [] && fresh(root) && loop == [root, root]
    {
      root := new Element(zero);
      len := 0;
      new;
      loop := [root, root];
    }

    method Init()
      requires Valid() && len == 0
      modifies root`next, root`prev, this`len, this`loop
      ensures Valid() && Chain(loop) && loop == old(loop)
    {
      root.next := root;
      root.prev := root;
      len := 0;
      loop := [root, root];
    }

    method LazyInit()
      requires Valid()
      modifies root`next, root`prev, this`len, this`loop
      ensures Valid() && Chain(loop) && loop == old(loop)
    {
      assert Chain(loop) ==> loop[0].next == loop[1];
      if root.next == null {
        Init();
      }
    }

    function Len(): (n: int)
      requires Valid()
      reads this`len, this`loop, loop`next, loop`prev, loop`list, root`next, root`prev, root`list
      ensures n == |Elements()|
    {
      len
    }

    function Front(): (e: Element?)
      requires Valid()
      reads this`len, this`loop, loop`next, loop`prev, loop`list, root`next, root`prev, root`list
      ensures e == if |Elements()| == 0 then null else Elements()[0]
    {
      if len == 0 then null else root.next
    }

    function Back(): (e: Element?)
      requires Valid()
      reads this`len, this`loop, loop`next, loop`prev, loop`list, root`next, root`prev, root`list
      ensures e == if |Elements()| == 0 then null else Elements()[|Elements()| - 1]
    {
      if len == 0 then null else root.prev
    }

    /** Inserts `e` after `at`, which is at position `k` of the ring. */
    method Insert(e: Element, at: Element, ghost k: nat)
      requires Valid() && Chain(loop) && k < |loop| - 1 && loop[k] == at
      requires e !in loop
      modifies this`len, this`loop, loop`next, loop`prev, e`next, e`prev, e`list
      ensures Valid() && Chain(loop) && loop == InsertAt(old(loop), k, e)
    {
      LinkAfter(e, at, loop, k);
      e.list := this;
      len := len + 1;
      loop := InsertAt(loop, k, e);
      hide Ring, Chain;
    }

    method Unlink(e: Element, ghost k: nat)
      requires Valid() && Chain(loop) && 0 < k < |loop| - 1 && loop[k] == e
      modifies this`len, this`loop, loop`next, loop`prev, e`list
      ensures Valid() && Chain(loop) && loop == RemoveAt(old(loop), k)
      ensures e.list == null && e.next == null && e.prev == null
    {
      Bypass(e, loop, k);
      e.next := null;
      e.prev := null;
      e.list := null;
      len := len - 1;
      loop := RemoveAt(loop, k);
      hide Ring;
    }

    /** What a valid list is made of, and how its elements lie in the ring. */
    lemma {:induction false} Facts()
      requires Valid()
      ensures |loop| >= 2 && |loop| == len + 2 && Ring(loop) && loop[0] == root == loop[|loop| - 1] && root.list == null && Owned(loop, this)
      ensures |Elements()| == |loop| - 2 && Elements() == loop[1..|loop| - 1]
    {
    }

    lemma {:induction false} IsValid()
      requires |loop| == len + 2 && Ring(loop) && loop[0] == root && root.list == null && Owned(loop, this) && Chain(loop)
      ensures Valid()
    {
    }

    /** Moves `e`, at position `k`, to after `at`, at position `j`. */
    method Move(e: Element, at: Element, ghost k: nat, ghost j: nat)
      requires Valid() && Chain(loop) && 0 < k < |loop| - 1 && loop[k] == e && j < |loop| - 1 && loop[j] == at
      modifies this`loop, loop`next, loop`prev
      ensures Valid() && Chain(loop) && loop == Moved(old(loop), k, j)
    {
      hide *;
      Facts();
      MovePlan(loop, k, j);
      if e == at { return; }
      ghost var was, rest := loop, RemoveAt(loop, k);
      Bypass(e, was, k);
      LinkAfter(e, at, rest, Shifted(k, j));
      loop := Moved(was, k, j);
      MovedOwned(this, was, k, j);
      IsValid();
    }

    /** The list field of an element is written by this module alone, so an element
        that names the list is in it. */
    ghost predicate Knows(e: Element)
      requires |loop| >= 2
      reads this`loop, e`list
    {
      e.list == this ==> e in Elements()
    }

    lemma {:induction false} Linked(k: nat)
      requires Valid() && k < |loop| - 1 && (Chain(loop) || |loop| > 2)
      ensures Chain(loop) && loop[k].next == loop[k + 1] && loop[k + 1].prev == loop[k]
    {
    }

    /** Where an element of the list lies in the ring, and the ring without it. */
    lemma {:induction false} RemovePlan(e: Element)
      requires Valid() && e in Elements()
      ensures var k := Position(Elements(), e) + 1;
        && 0 < k < |loop| - 1 && loop[k] == e && Chain(loop)
        && RemoveAt(loop, k)[1..|loop| - 2] == Without(Elements(), e)
    {
      Facts();
      Linked(0);
      hide Ring, Position, RemoveAt, Valid;
      InnerRemove(loop, Position(Elements(), e) + 1);
    }

    /** An element of the list names it. */
    lemma {:induction false} Names(e: Element)
      requires Valid() && |loop| >= 2 && e in Elements()
      ensures e in loop && e.list == this && Knows(e)
    {
    }

    lemma {:induction false} Known(e: Element)
      requires Valid() && Knows(e) && e.list == this
      ensures e in Elements()
    {
    }

    method Remove(e: Element) returns (v: Value)
      requires Valid() && Knows(e)
      modifies this`len, this`loop, loop`next, loop`prev, e`list
      ensures Valid() && v == e.value
      ensures Elements() == if old(e.list) == this then Without(old(Elements()), e) else old(Elements())
    {
      hide *;
      if e.list == this {
        Known(e);
        Facts();
        RemovePlan(e);
        Unlink(e, Position(Elements(), e) + 1);
        Facts();
      }
      return e.value;
    }

    method InsertValue(v: Value, at: Element, ghost k: nat) returns (e: Element)
      requires Valid() && Chain(loop) && k < |loop| - 1 && loop[k] == at
      modifies this`len, this`loop, loop`next, loop`prev
      ensures Valid() && Chain(loop) && fresh(e) && e.value == v
      ensures loop == InsertAt(old(loop), k, e) && Elements() == Placed(old(Elements()), k, e)
    {
      hide *;
      Facts();
      e := new Element(v);
      InnerInsert(loop, k, e);
      Insert(e, at, k);
      Facts();
    }

    method PushFront(v: Value) returns (e: Element)
      requires Valid()
      modifies this`len, this`loop, loop`next, loop`prev
      ensures Valid() && fresh(e) && e.value == v && Elements() == [e] + old(Elements())
    {
      LazyInit();
      e := InsertValue(v, root, 0);
    }

    method PushBack(v: Value) returns (e: Element)
      requires Valid()
      modifies this`len, this`loop, loop`next, loop`prev
      ensures Valid() && fresh(e) && e.value == v && Elements() == old(Elements()) + [e]
    {
      hide *;
      Facts();
      LazyInit();
      Facts();
      LastOfRing();
      e := InsertValue(v, root.prev, |loop| - 2);
      PlacedAtEnds(old(Elements()), e);
    }

    /** Returns null, and leaves the list alone, when the mark is not of this list. */
    method InsertBefore(v: Value, mark: Element) returns (e: Element?)
      requires Valid() && Knows(mark)
      modifies this`len, this`loop, loop`next, loop`prev
      ensures Valid()
      ensures mark.list != this ==> e == null && Elements() == old(Elements())
      ensures mark.list == this ==> e != null && fresh(e) && e.value == v
      ensures mark.list == this ==> Elements() == Placed(old(Elements()), Position(old(Elements()), mark), e)
    {
      if mark.list != this { return null; }
      Linked(Position(Elements(), mark));
      e := InsertValue(v, mark.prev, Position(Elements(), mark));
    }

    method InsertAfter(v: Value, mark: Element) returns (e: Element?)
      requires Valid() && Knows(mark)
      modifies this`len, this`loop, loop`next, loop`prev
      ensures Valid()
      ensures mark.list != this ==> e == null && Elements() == old(Elements())
      ensures mark.list == this ==> e != null && fresh(e) && e.value == v
      ensures mark.list == this ==> Elements() == Placed(old(Elements()), Position(old(Elements()), mark) + 1, e)
    {
      if mark.list != this { return null; }
      e := InsertValue(v, mark, Position(Elements(), mark) + 1);
    }

    /** Moving an element to right after the sentinel. */
    lemma {:induction false} FrontPlan(e: Element)
      requires Valid() && |loop| > 2 && e in Elements()
      ensures var k := Position(Elements(), e) + 1;
        && 0 < k < |loop| - 1 && loop[k] == e && Chain(loop) && root.next == loop[1]
        && Moved(loop, k, 0)[1..|loop| - 1] == [e] + Without(Elements(), e)
        && (root.next == e ==> [e] + Without(Elements(), e) == Elements())
    {
      hide *;
      FirstOfRing();
      Facts();
      MovedToEnds(loop, Elements(), e);
      if Elements()[0] == e { FirstPosition(Elements(), e); }
    }

    lemma {:induction false} FirstOfRing()
      requires Valid() && |loop| > 2
      ensures Chain(loop) && root.next == loop[1] && root.prev == loop[|loop| - 2]
    {
      Linked(0);
      Linked(|loop| - 2);
    }

    /** And to right before it. */
    lemma {:induction false} BackPlan(e: Element)
      requires Valid() && |loop| > 2 && e in Elements()
      ensures var k := Position(Elements(), e) + 1;
        && 0 < k < |loop| - 1 && loop[k] == e && Chain(loop) && root.prev == loop[|loop| - 2]
        && Moved(loop, k, |loop| - 2)[1..|loop| - 1] == Without(Elements(), e) + [e]
        && (root.prev == e ==> Without(Elements(), e) + [e] == Elements())
    {
      hide *;
      FirstOfRing();
      Facts();
      MovedToEnds(loop, Elements(), e);
      if Elements()[|Elements()| - 1] == e {
        AllDiffer();
        LastPosition(Elements(), e);
      }
    }

    lemma {:induction false} AllDiffer()
      requires Valid()
      ensures |loop| >= 2 && Different(Elements())
    {
    }

    method MoveToFront(e: Element)
      requires Valid() && Knows(e)
      modifies this`loop, loop`next, loop`prev
      ensures Valid()
      ensures Elements() == if e.list == this then [e] + Without(old(Elements()), e) else old(Elements())
    {
      hide *;
      if e.list == this {
        Known(e);
        Facts();
        FrontPlan(e);
      }
      if e.list != this || root.next == e { return; }
      Move(e, root, Position(Elements(), e) + 1, 0);
      Facts();
    }

    method MoveToBack(e: Element)
      requires Valid() && Knows(e)
      modifies this`loop, loop`next, loop`prev
      ensures Valid()
      ensures Elements() == if e.list == this then Without(old(Elements()), e) + [e] else old(Elements())
    {
      hide *;
      if e.list == this {
        Known(e);
        Facts();
        BackPlan(e);
      }
      if e.list != this || root.prev == e { return; }
      Move(e, root.prev, Position(Elements(), e) + 1, |loop| - 2);
      Facts();
    }

    /** Whether both elements are of this list, and differ. */
    ghost predicate Movable(e: Element, mark: Element)
      reads e`list, mark`list
    {
      e.list == this && mark.list == this && e != mark
    }

    /** Moves `e` next to the mark, given the element to put it after. */
    method MoveNextTo(e: Element, mark: Element, at: Element, ghost after: nat)
      requires Valid() && Chain(loop) && e in Elements() && mark in Elements() && e != mark && after <= 1
      requires loop[Position(Elements(), mark) + after] == at
      modifies this`loop, loop`next, loop`prev
      ensures Valid() && Different(old(Elements())) && Elements() == NextTo(old(Elements()), e, mark, after)
    {
      ghost var k, j := Position(Elements(), e) + 1, Position(Elements(), mark) + after;
      MovedNextTo(loop, e, mark, after);
      hide Ring, Chain, NextTo, Position, Moved, Different;
      Move(e, at, k, j);
    }

    /** Puts `e` right before the mark, when both are of this list and differ. */
    method MoveBefore(e: Element, mark: Element)
      requires Valid() && Knows(e) && Knows(mark)
      modifies this`loop, loop`next, loop`prev
      ensures Valid()
      ensures !Movable(e, mark) ==> Elements() == old(Elements())
      ensures Movable(e, mark) ==> Elements() == NextTo(old(Elements()), e, mark, 0)
    {
      hide *;
      MovableMeans(e, mark);
      if e.list != this || e == mark || mark.list != this { return; }
      Known(e);
      Known(mark);
      RemovePlan(mark);
      Linked(Position(Elements(), mark));
      MoveNextTo(e, mark, mark.prev, 0);
    }

    lemma {:induction false} MovableMeans(e: Element, mark: Element)
      ensures Movable(e, mark) <==> e.list == this && mark.list == this && e != mark
    {
    }

    method MoveAfter(e: Element, mark: Element)
      requires Valid() && Knows(e) && Knows(mark)
      modifies this`loop, loop`next, loop`prev
      ensures Valid()
      ensures !Movable(e, mark) ==> Elements() == old(Elements())
      ensures Movable(e, mark) ==> Elements() == NextTo(old(Elements()), e, mark, 1)
    {
      hide *;
      MovableMeans(e, mark);
      if e.list != this || e == mark || mark.list != this { return; }
      Known(e);
      Known(mark);
      RemovePlan(mark);
      MoveNextTo(e, mark, mark, 1);
    }

    /** Whether the two rings share no element. Each list has its own sentinel. */
    ghost predicate Apart(other: List)
      reads this`loop, other`loop
    {
      forall x <- other.loop :: x !in loop
    }

    lemma {:induction false} OtherIsApart(other: List)
      requires Valid() && other.Valid() && other != this && other.root != root
      ensures Apart(other)
    {
    }

    /** Where the copying stands: two lists that share no element, or one and the same. */
    ghost predicate Copying(other: List)
      reads this`len, this`loop, loop`next, loop`prev, loop`list, root`next, root`prev, root`list
      reads other`len, other`loop, other.loop`next, other.loop`prev, other.loop`list
      reads other.root`next, other.root`prev, other.root`list
    {
      Valid() && Chain(loop) && other.Valid() && (other == this || Apart(other))
    }

    lemma {:induction false} StillApart(was: seq<Element>, k: nat, x: Element, theirs: seq<Element>)
      requires k < |was| && x !in theirs && forall y <- theirs :: y !in was
      ensures forall y <- theirs :: y !in InsertAt(was, k, x)
    {
    }

    lemma {:induction false} CopyingOpened(other: List)
      requires Copying(other)
      ensures Valid() && Chain(loop) && other.Valid() && |loop| >= 2 && |other.loop| >= 2 && other.root in other.loop
      ensures other != this ==> forall x <- other.loop :: x !in loop
    {
    }

    lemma {:induction false} IsCopying(other: List)
      requires Valid() && Chain(loop) && other.Valid() && (other != this ==> forall x <- other.loop :: x !in loop)
      ensures Copying(other)
    {
    }

    method InsertCopy(other: List, v: Value, at: Element, ghost k: nat) returns (x: Element)
      requires Copying(other) && k < |loop| - 1 && loop[k] == at
      modifies this`len, this`loop, loop`next, loop`prev
      ensures Copying(other) && fresh(x) && x.value == v
      ensures loop == InsertAt(old(loop), k, x) && Elements() == Placed(old(Elements()), k, x)
      ensures other != this ==> other.loop == old(other.loop)
    {
      hide *;
      CopyingOpened(other);
      ghost var was := loop;
      x := InsertValue(v, at, k);
      if other != this {
        assert forall y <- other.loop :: y.next == old(y.next) && y.prev == old(y.prev);
        assert other.Valid();
        StillApart(was, k, x, other.loop);
      }
      IsCopying(other);
    }

    /** The list starts with these elements. */
    ghost predicate Begins(src: seq<Element>)
      reads this`loop
    {
      |src| + 2 <= |loop| && forall i | 0 <= i < |src| :: loop[i + 1] == src[i]
    }

    /** Appending leaves the start of the list. */
    lemma {:induction false} StillBegins(src: seq<Element>, was: seq<Element>, x: Element)
      requires |src| + 2 <= |was| && (forall i | 0 <= i < |src| :: was[i + 1] == src[i]) && loop == InsertAt(was, |was| - 2, x)
      ensures Begins(src)
    {
      hide InsertAt;
    }

    lemma {:induction false} BeginsWith(src: seq<Element>)
      requires Begins(src)
      ensures |src| + 2 <= |loop| && forall i | 0 <= i < |src| :: loop[i + 1] == src[i]
    {
    }

    lemma {:induction false} Follows(src: seq<Element>, k: nat)
      requires Valid() && Begins(src) && k < |src|
      ensures k + 1 < |src| ==> src[k].Next() == src[k + 1]
    {
      assert loop[k + 1] == src[k];
      if k + 1 < |src| { assert loop[k + 2] == src[k + 1]; }
      NotRoot(k + 1);
      hide Valid;
    }

    lemma {:induction false} LastOfRing()
      requires Valid() && Chain(loop)
      ensures root.prev == loop[|loop| - 2]
    {
      Linked(|loop| - 2);
    }

    /** Appends the value of the other list's element `k`, and steps to the next
        element of that list. */
    method CopyToBack(other: List, ghost src: seq<Element>, e: Element, ghost k: nat) returns (x: Element, following: Element?)
      requires Copying(other) && other.Begins(src) && k < |src| && src[k] == e
      modifies this`len, this`loop, loop`next, loop`prev
      ensures Copying(other) && other.Begins(src) && fresh(x) && x.value == e.value
      ensures loop == InsertAt(old(loop), |old(loop)| - 2, x) && Elements() == old(Elements()) + [x]
      ensures other != this ==> other.loop == old(other.loop)
      ensures k + 1 < |src| ==> following == src[k + 1]
    {
      hide *;
      CopyingOpened(other);
      Facts();
      LastOfRing();
      other.BeginsWith(src);
      ghost var was := loop;
      x := InsertCopy(other, e.value, root.prev, |loop| - 2);
      PlacedAtEnds(old(Elements()), x);
      if other == this { StillBegins(src, was, x); }
      CopyingOpened(other);
      other.Follows(src, k);
      following := e.Next();
    }

    lemma {:induction false} NodesAre()
      ensures Nodes() == set x | x in loop
    {
    }

    lemma {:induction false} ContentsAre()
      requires |loop| >= 2
      ensures Contents() == Values(Elements())
    {
    }

    /** The same, told by values. */
    method CopyValue(other: List, ghost src: seq<Element>, e: Element, ghost k: nat) returns (x: Element, following: Element?)
      requires Copying(other) && other.Begins(src) && k < |src| && src[k] == e
      modifies this`len, this`loop, Nodes()`next, Nodes()`prev
      ensures |loop| >= 2 && Copying(other) && other.Begins(src) && Contents() == old(Contents()) + [e.value]
      ensures fresh(x) && Nodes() == old(Nodes()) + {x}
      ensures other != this ==> other.loop == old(other.loop)
      ensures k + 1 < |src| ==> following == src[k + 1]
    {
      hide *;
      CopyingOpened(other);
      NodesAre();
      ContentsAre();
      ghost var was, es := loop, Elements();
      x, following := CopyToBack(other, src, e, k);
      NodesInserted(was, |was| - 2, x);
      NodesAre();
      ContentsAre();
      ValuesConcat(es, [x]);
      ValuesOne(x);
    }

    lemma {:induction false} NotRoot(k: nat)
      requires Valid() && 0 < k < |loop| - 1
      ensures loop[k].list == this && loop[k].next == loop[k + 1] && loop[k].prev == loop[k - 1]
      ensures (loop[k + 1] == root <==> k == |loop| - 2) && (loop[k - 1] == root <==> k == 1)
    {
      Linked(k);
      Linked(k - 1);
      assert k < |loop| - 2 ==> loop[0] != loop[k + 1];
      assert k > 1 ==> loop[0] != loop[k - 1];
    }

    /** Appends copies of the values of another list, or of this one. */
    method PushBackList(other: List)
      requires Valid() && other.Valid() && (other == this || other.root != root)
      modifies this`len, this`loop, Nodes()`next, Nodes()`prev
      ensures Valid() && other.Valid()
      ensures Contents() == old(Contents()) + old(other.Contents())
      ensures other != this ==> other.Contents() == old(other.Contents())
    {
      if other != this { OtherIsApart(other); }
      LazyInit();
      ghost var src := other.Elements();
      var i := other.Len();
      var e := other.Front();
      assert src[0..] == src && other.Begins(src);
      hide Copying, List.Valid, Begins, Chain, Ring, Apart, Nodes, Values;
      CopyLoop(other, src, i, e);
    }

    /** The rounds that are left when `i` elements of the list remain, from `e` on. */
    method CopyLoop(other: List, ghost src: seq<Element>, left: int, from: Element?)
      requires |loop| >= 2 && Copying(other) && other.Begins(src) && left == |src| && (left > 0 ==> from == src[0])
      modifies this`len, this`loop, Nodes()`next, Nodes()`prev
      ensures |loop| >= 2 && Copying(other) && Contents() == old(ToCome(Contents(), src, 0))
      ensures other != this ==> other.loop == old(other.loop)
    {
      hide *;
      var i, e := left, from;
      while i > 0
        invariant 0 <= i <= |src| && |loop| >= 2 && Copying(other) && fresh(Nodes() - old(Nodes()))
        invariant other.Begins(src) && (other != this ==> other.loop == old(other.loop))
        invariant i > 0 ==> e == src[|src| - i]
        invariant ToCome(Contents(), src, |src| - i) == old(ToCome(Contents(), src, 0))
      {
        CopyStep(Contents(), src, |src| - i);
        var x, following := CopyValue(other, src, e, |src| - i);
        e := following;
        i := i - 1;
      }
      NothingLeft(Contents(), src);
    }

    /** Stepping from an element reaches the next one, and null from the last. */
    lemma {:induction false} NextIs(k: nat)
      requires Valid() && k < |Elements()|
      ensures Elements()[k].Next() == if k + 1 < |Elements()| then Elements()[k + 1] else null
      ensures |Contents()| == |Elements()| && Contents()[k] == Elements()[k].value
    {
      NotRoot(k + 1);
    }

    /** The list ends with these elements. */
    ghost predicate Ends(src: seq<Element>)
      reads this`loop
    {
      |src| + 2 <= |loop| && forall i | 0 <= i < |src| :: loop[|loop| - 1 - |src| + i] == src[i]
    }

    /** Prepending leaves the end of the list. */
    lemma {:induction false} StillEnds(src: seq<Element>, was: seq<Element>, x: Element)
      requires |src| + 2 <= |was| && (forall i | 0 <= i < |src| :: was[|was| - 1 - |src| + i] == src[i]) && loop == InsertAt(was, 0, x)
      ensures Ends(src)
    {
      hide InsertAt;
    }

    lemma {:induction false} EndsWith(src: seq<Element>)
      requires Ends(src)
      ensures |src| + 2 <= |loop| && forall i | 0 <= i < |src| :: loop[|loop| - 1 - |src| + i] == src[i]
    {
    }

    lemma {:induction false} Precedes(src: seq<Element>, k: nat)
      requires Valid() && Ends(src) && k < |src|
      ensures k > 0 ==> src[k].Prev() == src[k - 1]
    {
      var at: nat := |loop| - 1 - |src| + k;
      assert loop[at] == src[k] && (k > 0 ==> loop[at - 1] == src[k - 1]);
      NotRoot(at);
      hide Valid;
    }

    /** Prepends the value of the other list's element `k`, and steps to the element
        before it in that list. */
    method CopyToFront(other: List, ghost src: seq<Element>, e: Element, ghost k: nat) returns (x: Element, preceding: Element?)
      requires Copying(other) && other.Ends(src) && k < |src| && src[k] == e
      modifies this`len, this`loop, loop`next, loop`prev
      ensures Copying(other) && other.Ends(src) && fresh(x) && x.value == e.value
      ensures |old(loop)| >= 2 && loop == InsertAt(old(loop), 0, x) && Elements() == [x] + old(Elements())
      ensures other != this ==> other.loop == old(other.loop)
      ensures k > 0 ==> preceding == src[k - 1]
    {
      hide *;
      CopyingOpened(other);
      Facts();
      other.EndsWith(src);
      ghost var was := loop;
      x := InsertCopy(other, e.value, root, 0);
      PlacedAtEnds(old(Elements()), x);
      if other == this { StillEnds(src, was, x); }
      CopyingOpened(other);
      other.Precedes(src, k);
      preceding := e.Prev();
    }

    method CopyValueToFront(other: List, ghost src: seq<Element>, e: Element, ghost k: nat) returns (x: Element, preceding: Element?)
      requires Copying(other) && other.Ends(src) && k < |src| && src[k] == e
      modifies this`len, this`loop, Nodes()`next, Nodes()`prev
      ensures |loop| >= 2 && Copying(other) && other.Ends(src) && Contents() == [e.value] + old(Contents())
      ensures fresh(x) && Nodes() == old(Nodes()) + {x}
      ensures other != this ==> other.loop == old(other.loop)
      ensures k > 0 ==> preceding == src[k - 1]
    {
      hide *;
      CopyingOpened(other);
      NodesAre();
      ContentsAre();
      ghost var was, es := loop, Elements();
      x, preceding := CopyToFront(other, src, e, k);
      NodesInserted(was, 0, x);
      NodesAre();
      ContentsAre();
      ValuesConcat([x], es);
      ValuesOne(x);
    }

    /** Puts copies of the values of another list, or of this one, in front. */
    method PushFrontList(other: List)
      requires Valid() && other.Valid() && (other == this || other.root != root)
      modifies this`len, this`loop, Nodes()`next, Nodes()`prev
      ensures Valid() && other.Valid()
      ensures Contents() == old(other.Contents()) + old(Contents())
      ensures other != this ==> other.Contents() == old(other.Contents())
    {
      if other != this { OtherIsApart(other); }
      LazyInit();
      ghost var src := other.Elements();
      var i := other.Len();
      var e := other.Back();
      assert src[..|src|] == src && other.Ends(src);
      hide Copying, List.Valid, Ends, Chain, Ring, Apart, Nodes, Values;
      CopyLoopToFront(other, src, i, e);
    }

    method CopyLoopToFront(other: List, ghost src: seq<Element>, left: int, from: Element?)
      requires |loop| >= 2 && Copying(other) && other.Ends(src) && left == |src| && (left > 0 ==> from == src[|src| - 1])
      modifies this`len, this`loop, Nodes()`next, Nodes()`prev
      ensures |loop| >= 2 && Copying(other) && Contents() == old(ToPrecede(Contents(), src, |src|))
      ensures other != this ==> other.loop == old(other.loop)
    {
      hide *;
      var i, e := left, from;
      while i > 0
        invariant 0 <= i <= |src| && |loop| >= 2 && Copying(other) && fresh(Nodes() - old(Nodes()))
        invariant other.Ends(src) && (other != this ==> other.loop == old(other.loop))
        invariant i > 0 ==> e == src[i - 1]
        invariant ToPrecede(Contents(), src, i) == old(ToPrecede(Contents(), src, |src|))
      {
        CopyStepToFront(Contents(), src, i - 1);
        var x, preceding := CopyValueToFront(other, src, e, i - 1);
        e := preceding;
        i := i - 1;
      }
      NothingToPrecede(Contents(), src);
    }
  }

  /** What a list will hold when the first `k` values have been put in front too. */
  ghost function ToPrecede(tail: seq<Value>, s: seq<Element>, k: nat): seq<Value>
    requires k <= |s|
  {
    Values(s[..k]) + tail
  }

  lemma {:induction false} CopyStepToFront(tail: seq<Value>, s: seq<Element>, k: nat)
    requires k < |s|
    ensures ToPrecede([s[k].value] + tail, s, k) == ToPrecede(tail, s, k + 1)
  {
    assert Values(s[..k]) + ([s[k].value] + tail) == Values(s[..k + 1]) + tail;
  }

  lemma {:induction false} NothingToPrecede(tail: seq<Value>, s: seq<Element>)
    ensures ToPrecede(tail, s, 0) == tail
  {
  }

  lemma {:induction false} ValuesConcat(a: seq<Element>, b: seq<Element>)
    ensures Values(a + b) == Values(a) + Values(b)
  {
  }

  /** What a list will hold when the values from `k` on have been appended too. */
  ghost function ToCome(head: seq<Value>, s: seq<Element>, k: nat): seq<Value>
    requires k <= |s|
  {
    head + Values(s[k..])
  }

  lemma {:induction false} CopyStep(head: seq<Value>, s: seq<Element>, k: nat)
    requires k < |s|
    ensures ToCome(head + [s[k].value], s, k + 1) == ToCome(head, s, k)
  {
    assert head + [s[k].value] + Values(s[k + 1..]) == head + Values(s[k..]);
  }

  lemma {:induction false} NothingLeft(head: seq<Value>, s: seq<Element>)
    ensures ToCome(head, s, |s|) == head
  {
  }

  lemma {:induction false} ValuesOne(x: Element)
    ensures Values([x]) == [x.value]
  {
  }

  /** Where `e` first is. */
  ghost function Position(s: seq<Element>, e: Element): (p: nat)
    requires e in s
    ensures p < |s| && s[p] == e
  {
    if s[0] == e then 0 else 1 + Position(s[1..], e)
  }

  ghost function Without(s: seq<Element>, e: Element): seq<Element>
    requires e in s
  {
    RemoveAt(s, Position(s, e))
  }

  function Placed<T>(s: seq<T>, p: nat, x: T): seq<T>
    requires p <= |s|
  {
    s[..p] + [x] + s[p..]
  }

  lemma {:induction false} PlacedAtEnds(s: seq<Element>, x: Element)
    ensures Placed(s, |s|, x) == s + [x] && Placed(s, 0, x) == [x] + s
  {
  }

  lemma {:induction false} NodesInserted(s: seq<Element>, k: nat, x: Element)
    requires k < |s|
    ensures (set y | y in InsertAt(s, k, x)) == (set y | y in s) + {x}
  {
    var r := InsertAt(s, k, x);
    hide InsertAt;
    forall y <- s ensures y in r {
      var i :| 0 <= i < |s| && s[i] == y;
      assert r[if i <= k then i else i + 1] == y;
    }
    forall y <- r ensures y in s || y == x {
      var i :| 0 <= i < |r| && r[i] == y;
      assert i <= k ==> y == s[i];
      assert i > k + 1 ==> y == s[i - 1];
    }
    assert r[k + 1] == x;
  }

  lemma {:induction false} WithoutIs(s: seq<Element>, e: Element)
    requires e in s
    ensures Without(s, e) == RemoveAt(s, Position(s, e)) && |Without(s, e)| == |s| - 1
  {
  }

  lemma {:induction false} ShiftedToEnds(k: nat, n: nat)
    requires 0 < k < n - 1
    ensures Shifted(k, 0) == 0 && Shifted(k, n - 2) == n - 3
  {
  }

  /** Taking the last element out and putting it last changes nothing, nor does it with
      the first. */
  lemma {:induction false} LastPosition(s: seq<Element>, e: Element)
    requires e in s && s[|s| - 1] == e && Different(s)
    ensures Position(s, e) == |s| - 1 && Without(s, e) + [e] == s
  {
    PositionIs(s, e, |s| - 1);
  }

  lemma {:induction false} FirstPosition(s: seq<Element>, e: Element)
    requires e in s && s[0] == e
    ensures Position(s, e) == 0 && [e] + Without(s, e) == s
  {
  }

  lemma {:induction false} PositionIs(s: seq<Element>, e: Element, i: nat)
    requires i < |s| && s[i] == e && forall j | 0 <= j < i :: s[j] != e
    ensures Position(s, e) == i
  {
    if i > 0 { PositionIs(s[1..], e, i - 1); }
  }

  lemma {:induction false} MovedIs<T>(s: seq<T>, k: nat, j: nat)
    requires 0 < k < |s| && j < |s|
    ensures if j == k then Moved(s, k, j) == s
      else |RemoveAt(s, k)| > Shifted(k, j) && Moved(s, k, j) == InsertAt(RemoveAt(s, k), Shifted(k, j), s[k])
    ensures |Moved(s, k, j)| == |s| && |RemoveAt(s, k)| == |s| - 1 && Shifted(k, k) == k - 1 && (j < |s| - 1 && k < |s| - 1 ==> Shifted(k, j) < |s| - 2)
  {
    hide RemoveAt, InsertAt;
  }

  lemma {:induction false} PutBack<T>(s: seq<T>, k: nat)
    requires k < |s|
    ensures s == Placed(RemoveAt(s, k), k, s[k])
  {
  }

  /** What moving along the ring means for the elements between the sentinels. */
  lemma {:induction false} MovedInner<T>(s: seq<T>, k: nat, j: nat)
    requires 0 < k < |s| - 1 && j < |s| - 1
    ensures |Moved(s, k, j)| == |s| && |RemoveAt(s[1..|s| - 1], k - 1)| == |s| - 3 && Shifted(k, j) <= |s| - 3
    ensures Moved(s, k, j)[1..|s| - 1] == Placed(RemoveAt(s[1..|s| - 1], k - 1), Shifted(k, j), s[k])
  {
    hide *;
    MovedIs(s, k, j);
    InnerRemove(s, k);
    if j == k {
      PutBack(s[1..|s| - 1], k - 1);
    } else {
      InnerInsert(RemoveAt(s, k), Shifted(k, j), s[k]);
    }
  }

  /** Moving an element along a ring to either end of what is between the sentinels. */
  lemma {:induction false} MovedToEnds(s: seq<Element>, es: seq<Element>, e: Element)
    requires |s| > 2 && es == s[1..|s| - 1] && e in es
    ensures var k := Position(es, e) + 1;
      && 0 < k < |s| - 1 && s[k] == e
      && Moved(s, k, 0)[1..|s| - 1] == [e] + Without(es, e)
      && Moved(s, k, |s| - 2)[1..|s| - 1] == Without(es, e) + [e]
  {
    hide *;
    InnerPosition(s, e);
    var k := Position(es, e) + 1;
    WithoutIs(es, e);
    PlacedAtEnds(Without(es, e), e);
    ShiftedToEnds(k, |s|);
    MovedInner(s, k, 0);
    MovedInner(s, k, |s| - 2);
  }

  ghost predicate Different(s: seq<Element>)
  {
    forall i, j | 0 <= i < j < |s| :: s[i] != s[j]
  }

  /** The sequence with `e` taken out and put right before `mark`, or right after it. */
  ghost function NextTo(s: seq<Element>, e: Element, mark: Element, after: nat): seq<Element>
    requires e in s && mark in s && e != mark && Different(s) && after <= 1
  {
    PositionWithout(s, e, mark);
    var rest := Without(s, e);
    Placed(rest, Position(rest, mark) + after, e)
  }

  /** Moving `e` after what precedes `mark`, or after `mark`, along the ring. */
  lemma {:induction false} MovedNextTo(s: seq<Element>, e: Element, mark: Element, after: nat)
    requires |s| >= 2 && Ring(s) && e in s[1..|s| - 1] && mark in s[1..|s| - 1] && e != mark && after <= 1
    ensures var es := s[1..|s| - 1];
      && Different(es)
      && s[Position(es, e) + 1] == e && s[Position(es, mark) + 1] == mark
      && Moved(s, Position(es, e) + 1, Position(es, mark) + after)[1..|s| - 1] == NextTo(es, e, mark, after)
  {
    hide *;
    var es := s[1..|s| - 1];
    InnerDifferent(s);
    InnerPosition(s, e);
    InnerPosition(s, mark);
    PositionWithout(es, e, mark);
    MovedInner(s, Position(es, e) + 1, Position(es, mark) + after);
    NextToIs(es, e, mark, after);
  }

  lemma {:induction false} InnerPosition(s: seq<Element>, e: Element)
    requires |s| >= 2 && e in s[1..|s| - 1]
    ensures var k := Position(s[1..|s| - 1], e) + 1; 0 < k < |s| - 1 && s[k] == e
  {
  }

  lemma {:induction false} NextToIs(s: seq<Element>, e: Element, mark: Element, after: nat)
    requires e in s && mark in s && e != mark && Different(s) && after <= 1
    ensures NextTo(s, e, mark, after) == Placed(RemoveAt(s, Position(s, e)), Shifted(Position(s, e) + 1, Position(s, mark) + after), e)
  {
    hide Different, Placed, RemoveAt, Position;
    PositionWithout(s, e, mark);
    PositionsDiffer(s, e, mark);
  }

  lemma {:induction false} PositionsDiffer(s: seq<Element>, e: Element, mark: Element)
    requires e in s && mark in s && e != mark
    ensures Position(s, e) != Position(s, mark)
  {
    hide Position;
    assert s[Position(s, e)] == e && s[Position(s, mark)] == mark;
  }

  lemma {:induction false} InnerDifferent(s: seq<Element>)
    requires Ring(s)
    ensures Different(s[1..|s| - 1])
  {
  }

  lemma {:induction false} PositionWithout(s: seq<Element>, e: Element, mark: Element)
    requires e in s && mark in s && e != mark && Different(s)
    ensures mark in Without(s, e)
    ensures Position(Without(s, e), mark) == if Position(s, mark) < Position(s, e) then Position(s, mark) else Position(s, mark) - 1
  {
    var p, m := Position(s, e), Position(s, mark);
    PositionsDiffer(s, e, mark);
    hide Position;
    PositionIs(Without(s, e), mark, if m < p then m else m - 1);
  }

  lemma {:induction false} InnerInsert<T>(s: seq<T>, k: nat, x: T)
    requires |s| >= 2 && k < |s| - 1
    ensures InsertAt(s, k, x)[1..|s|] == Placed(s[1..|s| - 1], k, x)
  {
  }

  lemma {:induction false} InnerRemove<T>(s: seq<T>, k: nat)
    requires |s| >= 3 && 0 < k < |s| - 1
    ensures RemoveAt(s, k)[1..|s| - 2] == RemoveAt(s[1..|s| - 1], k - 1)
  {
  }

  /** Where position `j` is once position `k` is gone. */
  function Shifted(k: nat, j: nat): nat
    requires k > 0
  {
    if j < k then j else j - 1
  }

  /** The sequence with the element at `k` taken out and put after the one at `j`. */
  function Moved<T>(s: seq<T>, k: nat, j: nat): (r: seq<T>)
    requires 0 < k < |s| && j < |s|
    ensures |r| == |s|
  {
    if j == k then s else InsertAt(RemoveAt(s, k), Shifted(k, j), s[k])
  }

  /** Moving is taking out and inserting, unless the element stays where it is. */
  lemma {:induction false} MovePlan(s: seq<Element>, k: nat, j: nat)
    requires Ring(s) && 0 < k < |s| - 1 && j < |s| - 1
    ensures s[0] == s[|s| - 1] && (s[k] == s[j] ==> k == j) && Moved(s, k, k) == s
    ensures k != j ==>
      var rest := RemoveAt(s, k);
      Shifted(k, j) < |rest| - 1 && rest[Shifted(k, j)] == s[j] && Moved(s, k, j) == InsertAt(rest, Shifted(k, j), s[k])
  {
  }

  lemma {:induction false} MovedOwned(l: List, s: seq<Element>, k: nat, j: nat)
    requires 0 < k < |s| - 1 && j < |s| - 1 && s[0] == s[|s| - 1] && Owned(s, l)
    ensures var r := Moved(s, k, j); |r| == |s| && r[0] == s[0] && r[|r| - 1] == s[0] && Owned(r, l)
  {
    if j == k { return; }
    var rest := RemoveAt(s, k);
    hide RemoveAt, InsertAt;
    assert Owned(rest, l);
  }
}
