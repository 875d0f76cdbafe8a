/** The binary heap of the client, over a slice and a caller's order. */
module Heap {

  /** What the order must be: a strict weak order. */
  ghost predicate StrictWeak<T(!new)>(less: (T, T) -> bool)
  {
    && (forall a, b :: less(a, b) ==> !less(b, a))
    && (forall a, b, c :: !less(a, b) && !less(b, c) ==> !less(a, c))
  }

  function Swapped<T>(s: seq<T>, i: nat, j: nat): seq<T>
    requires i < |s| && j < |s|
  {
    s[i := s[j]][j := s[i]]
  }

  lemma {:induction false} SwappedKeeps<T>(s: seq<T>, i: nat, j: nat)
    requires i < |s| && j < |s|
    ensures multiset(Swapped(s, i, j)) == multiset(s)
  {
  }

  /** Element `c` is not below its parent. */
  predicate Ok<T>(less: (T, T) -> bool, s: seq<T>, c: nat)
    requires 0 < c < |s|
  {
    !less(s[c], s[(c - 1) / 2])
  }

  /** The first `n` elements are in heap order below position `lo`. */
  ghost predicate Ordered<T>(less: (T, T) -> bool, s: seq<T>, lo: nat, n: nat)
    requires n <= |s|
  {
    forall c: nat | 0 < c < n && (c - 1) / 2 >= lo :: Ok(less, s, c)
  }

  ghost predicate IsHeap<T>(less: (T, T) -> bool, s: seq<T>) { Ordered(less, s, 0, |s|) }

  /** Heap order but for the element at `i`: against its children, and, when `above`,
      also against its parent. Its parent is in order with its children. */
  ghost predicate But<T>(less: (T, T) -> bool, s: seq<T>, lo: nat, n: nat, i: nat, above: bool)
    requires n <= |s|
  {
    && (forall c: nat | 0 < c < n && (c - 1) / 2 >= lo && (c - 1) / 2 != i && !(above && c == i) :: Ok(less, s, c))
    && (i > 0 && (i - 1) / 2 >= lo ==> forall c: nat | 0 < c < n && (c - 1) / 2 == i :: !less(s[c], s[(i - 1) / 2]))
  }

  /** Heap order but for the element at `j` against its parent. */
  ghost predicate ButAbove<T>(less: (T, T) -> bool, s: seq<T>, n: nat, j: nat)
    requires j < n <= |s|
  {
    && (forall c: nat | 0 < c < n && c != j :: Ok(less, s, c))
    && (j > 0 ==> forall c: nat | 0 < c < n && (c - 1) / 2 == j :: !less(s[c], s[(j - 1) / 2]))
  }

  /** One step down: the smaller child comes up. */
  lemma {:induction false} StepDown<T(!new)>(less: (T, T) -> bool, s: seq<T>, lo: nat, n: nat, i: nat, j: nat, above: bool)
    requires StrictWeak(less) && i < n <= |s| && lo <= i && But(less, s, lo, n, i, above)
    requires 0 < j < n && (j - 1) / 2 == i && less(s[j], s[i])
    requires forall c: nat | 0 < c < n && (c - 1) / 2 == i :: !less(s[c], s[j])
    ensures But(less, Swapped(s, i, j), lo, n, j, false)
  {
    var r := Swapped(s, i, j);
    forall c: nat | 0 < c < n && (c - 1) / 2 >= lo && (c - 1) / 2 != j
      ensures Ok(less, r, c)
    {
      if c != i && (c - 1) / 2 != i { assert Ok(less, s, c); }
    }
    forall c: nat | 0 < c < n && (c - 1) / 2 == j
      ensures !less(r[c], r[i])
    {
      assert Ok(less, s, c);
    }
  }

  /** The child that was chosen is not above the other. */
  lemma {:induction false} OneOf<T(!new)>(less: (T, T) -> bool, s: seq<T>, n: nat, i: nat, j: nat)
    requires StrictWeak(less) && 2 * i + 1 < n <= |s|
    requires j == if 2 * i + 2 < n && less(s[2 * i + 2], s[2 * i + 1]) then 2 * i + 2 else 2 * i + 1
    ensures forall c: nat | 0 < c < n && (c - 1) / 2 == i :: !less(s[c], s[j])
  {
    forall c: nat | 0 < c < n && (c - 1) / 2 == i
      ensures !less(s[c], s[j])
    {
      assert c == 2 * i + 1 || c == 2 * i + 2;
      assert !less(s[c], s[c]);
    }
  }

  /** The element is in order with its children: the way down ends here. */
  lemma {:induction false} Settled<T(!new)>(less: (T, T) -> bool, s: seq<T>, lo: nat, n: nat, i: nat, above: bool)
    requires n <= |s| && But(less, s, lo, n, i, above)
    requires forall c: nat | 0 < c < n && (c - 1) / 2 == i :: !less(s[c], s[i])
    ensures !above ==> Ordered(less, s, lo, n)
    ensures lo == 0 && i < n ==> ButAbove(less, s, n, i)
  {
  }

  /** One step up. */
  lemma {:induction false} StepUp<T(!new)>(less: (T, T) -> bool, s: seq<T>, n: nat, j: nat)
    requires StrictWeak(less) && 0 < j < n <= |s| && ButAbove(less, s, n, j) && less(s[j], s[(j - 1) / 2])
    ensures ButAbove(less, Swapped(s, (j - 1) / 2, j), n, (j - 1) / 2)
  {
    var i := (j - 1) / 2;
    var r := Swapped(s, i, j);
    forall c: nat | 0 < c < n && c != i
      ensures Ok(less, r, c)
    {
      if c != j { assert Ok(less, s, c); }
    }
    if i > 0 {
      assert Ok(less, s, i);
      forall c: nat | 0 < c < n && (c - 1) / 2 == i
        ensures !less(r[c], r[(i - 1) / 2])
      {
        if c != j { assert Ok(less, s, c); }
      }
    }
  }

  /** Nothing in a heap is below its root. */
  lemma {:induction false} RootIsLeast<T(!new)>(less: (T, T) -> bool, s: seq<T>, k: nat)
    requires StrictWeak(less) && IsHeap(less, s) && k < |s|
    ensures !less(s[k], s[0])
  {
    if k > 0 {
      assert Ok(less, s, k);
      RootIsLeast(less, s, (k - 1) / 2);
    }
  }

  lemma {:induction false} RootIsLeastOf<T(!new)>(less: (T, T) -> bool, s: seq<T>, x: T)
    requires StrictWeak(less) && IsHeap(less, s) && x in s
    ensures !less(x, s[0])
  {
    var k :| 0 <= k < |s| && s[k] == x;
    RootIsLeast(less, s, k);
  }

  lemma {:induction false} AllAboveRoot<T(!new)>(less: (T, T) -> bool, s: seq<T>)
    requires StrictWeak(less) && IsHeap(less, s)
    ensures forall y <- s :: !less(y, s[0])
  {
    hide StrictWeak, IsHeap;
    forall y <- s { RootIsLeastOf(less, s, y); }
  }

  /** Rewriting one element of a heap leaves it in order but for that element. */
  lemma {:induction false} Rewritten<T(!new)>(less: (T, T) -> bool, s: seq<T>, n: nat, i: nat, x: T)
    requires StrictWeak(less) && i < n <= |s| && Ordered(less, s, 0, n)
    ensures But(less, s[i := x], 0, n, i, true)
  {
    var r := s[i := x];
    forall c: nat | 0 < c < n && (c - 1) / 2 != i && c != i
      ensures Ok(less, r, c)
    {
      assert Ok(less, s, c);
    }
    if i > 0 {
      assert Ok(less, s, i);
      forall c: nat | 0 < c < n && (c - 1) / 2 == i
        ensures !less(r[c], r[(i - 1) / 2])
      {
        assert Ok(less, s, c);
      }
    }
  }

  /** Order among the first elements does not look at the last. */
  lemma {:induction false} LastAside<T(!new)>(less: (T, T) -> bool, s: seq<T>, i: nat)
    requires i < |s| - 1 && But(less, s[i := s[|s| - 1]], 0, |s| - 1, i, true)
    ensures But(less, Swapped(s, i, |s| - 1), 0, |s| - 1, i, true)
  {
    var n := |s| - 1;
    var r, q := s[i := s[n]], Swapped(s, i, n);
    forall c: nat | 0 < c < n && (c - 1) / 2 != i && c != i
      ensures Ok(less, q, c)
    {
      assert Ok(less, r, c);
    }
  }

  lemma {:induction false} RootAside<T(!new)>(less: (T, T) -> bool, s: seq<T>)
    requires |s| > 0 && IsHeap(less, s)
    ensures But(less, Swapped(s, 0, |s| - 1), 0, |s| - 1, 0, false)
  {
    var n, q := |s| - 1, Swapped(s, 0, |s| - 1);
    forall c: nat | 0 < c < n && (c - 1) / 2 != 0
      ensures Ok(less, q, c)
    {
      assert Ok(less, s, c);
    }
  }

  lemma {:induction false} Cut<T(!new)>(less: (T, T) -> bool, s: seq<T>, n: nat)
    requires n <= |s| && Ordered(less, s, 0, n)
    ensures IsHeap(less, s[..n])
  {
    forall c: nat | 0 < c < n
      ensures Ok(less, s[..n], c)
    {
      assert Ok(less, s, c);
    }
  }

  lemma {:induction false} Appended<T(!new)>(less: (T, T) -> bool, s: seq<T>, x: T)
    requires IsHeap(less, s)
    ensures ButAbove(less, s + [x], |s| + 1, |s|)
  {
    forall c: nat | 0 < c < |s|
      ensures Ok(less, s + [x], c)
    {
      assert Ok(less, s, c);
    }
  }

  class Slice<T(!new, ==)> {
    var slice: seq<T>
    const less: (T, T) -> bool

    constructor (slice: seq<T>, less: (T, T) -> bool)
      ensures this.slice == slice && this.less == less
    {
      this.slice, this.less := slice, less;
    }

    method Swap(i: nat, j: nat)
      requires i < |slice| && j < |slice|
      modifies this`slice
      ensures slice == Swapped(old(slice), i, j) && multiset(slice) == multiset(old(slice))
      ensures |slice| == |old(slice)| && slice[i] == old(slice)[j] && slice[j] == old(slice)[i]
    {
      SwappedKeeps(slice, i, j);
      slice := slice[i := slice[j]][j := slice[i]];
    }

    /** Sinks the element at `i0`; says whether it moved. */
    method Down(i0: nat, n: nat, ghost lo: nat, ghost above: bool) returns (moved: bool)
      requires StrictWeak(less) && lo <= i0 <= n <= |slice| && But(less, slice, lo, n, i0, above)
      modifies this`slice
      ensures |slice| == |old(slice)| && slice[n..] == old(slice)[n..] && multiset(slice) == multiset(old(slice))
      ensures moved || !above ==> Ordered(less, slice, lo, n)
      ensures !moved && lo == 0 && i0 < n ==> slice == old(slice) && ButAbove(less, slice, n, i0)
    {
      hide But, ButAbove, Ordered;
      var i: nat := i0;
      while true
        invariant i0 <= i <= n <= |slice| == |old(slice)| && slice[n..] == old(slice)[n..]
        invariant multiset(slice) == multiset(old(slice))
        invariant But(less, slice, lo, n, i, above && i == i0)
        invariant i == i0 ==> slice == old(slice)
        decreases n - i
      {
        var j1 := 2 * i + 1;
        if j1 >= n {
          Settled(less, slice, lo, n, i, above && i == i0);
          break;
        }
        var j := j1;
        if j1 + 1 < n && less(slice[j1 + 1], slice[j1]) { j := j1 + 1; }
        OneOf(less, slice, n, i, j);
        if !less(slice[j], slice[i]) {
          Settled(less, slice, lo, n, i, above && i == i0);
          break;
        }
        StepDown(less, slice, lo, n, i, j, above && i == i0);
        Swap(i, j);
        i := j;
      }
      return i > i0;
    }

    /** Floats the element at `j0`. */
    method Up(j0: nat, ghost n: nat)
      requires StrictWeak(less) && j0 < n <= |slice| && ButAbove(less, slice, n, j0)
      modifies this`slice
      ensures |slice| == |old(slice)| && slice[n..] == old(slice)[n..] && multiset(slice) == multiset(old(slice))
      ensures Ordered(less, slice, 0, n)
    {
      var j := j0;
      while true
        invariant 0 <= j < n <= |slice| == |old(slice)| && slice[n..] == old(slice)[n..]
        invariant ButAbove(less, slice, n, j) && multiset(slice) == multiset(old(slice))
        decreases j
      {
        var i := Half(j - 1);
        if i == j || !less(slice[j], slice[i]) { break; }
        StepUp(less, slice, n, j);
        Swap(i, j);
        j := i;
      }
    }

    method Init()
      requires StrictWeak(less)
      modifies this`slice
      ensures IsHeap(less, slice) && multiset(slice) == multiset(old(slice)) && |slice| == |old(slice)|
    {
      var n := |slice|;
      var i := n / 2 - 1;
      while i >= 0
        invariant -1 <= i < n && |slice| == n && Ordered(less, slice, i + 1, n) && multiset(slice) == multiset(old(slice))
      {
        var _ := Down(i, n, i, false);
        i := i - 1;
      }
    }

    method Push(x: T)
      requires StrictWeak(less) && IsHeap(less, slice)
      modifies this`slice
      ensures IsHeap(less, slice) && multiset(slice) == multiset(old(slice)) + multiset{x}
    {
      Appended(less, slice, x);
      slice := slice + [x];
      assert multiset(slice) == multiset(old(slice)) + multiset{x};
      Up(|slice| - 1, |slice|);
    }

    /** Takes a least element off. */
    method Pop() returns (x: T)
      requires StrictWeak(less) && IsHeap(less, slice) && |slice| > 0
      modifies this`slice
      ensures IsHeap(less, slice) && multiset(slice) + multiset{x} == multiset(old(slice))
      ensures forall y <- old(slice) :: !less(y, x)
    {
      hide *;
      AllAboveRoot(less, slice);
      var n := |slice| - 1;
      RootAside(less, slice);
      Swap(0, n);
      var _ := Down(0, n, 0, false);
      assert slice[n] == slice[n..][0];
      Cut(less, slice, n);
      x := PopLast();
    }

    method PopLast() returns (x: T)
      requires |slice| > 0
      modifies this`slice
      ensures x == old(slice)[|old(slice)| - 1] && slice == old(slice)[..|old(slice)| - 1]
      ensures multiset(slice) + multiset{x} == multiset(old(slice))
    {
      var n := |slice|;
      assert slice == slice[..n - 1] + [slice[n - 1]];
      x := slice[n - 1];
      slice := slice[..n - 1];
    }

    method Remove(i: nat) returns (x: T)
      requires StrictWeak(less) && IsHeap(less, slice) && i < |slice|
      modifies this`slice
      ensures IsHeap(less, slice) && x == old(slice)[i] && multiset(slice) + multiset{x} == multiset(old(slice))
    {
      hide *;
      var n := |slice| - 1;
      Shorter(less, slice, n);
      if n != i {
        Rewritten(less, slice, n, i, slice[n]);
        LastAside(less, slice, i);
        Swap(i, n);
        var moved := Down(i, n, 0, true);
        if !moved { Up(i, n); }
      }
      assert slice[n] == slice[n..][0];
      Cut(less, slice, n);
      x := PopLast();
    }

    /** Restores the order after the element at `i` of a heap was rewritten. */
    method Fix(i: nat, ghost was: seq<T>)
      requires StrictWeak(less) && i < |slice| && |was| == |slice| && IsHeap(less, was) && slice == was[i := slice[i]]
      modifies this`slice
      ensures IsHeap(less, slice) && multiset(slice) == multiset(old(slice))
    {
      Rewritten(less, was, |was|, i, slice[i]);
      var moved := Down(i, |slice|, 0, true);
      if !moved { Up(i, |slice|); }
    }

    /** Heapifies, then takes the elements off one by one. */
    method Drain() returns (out: seq<T>)
      requires StrictWeak(less)
      modifies this`slice
      ensures slice == [] && multiset(out) == multiset(old(slice))
      ensures forall i, j | 0 <= i < j < |out| :: !less(out[j], out[i])
    {
      hide *;
      Init();
      out := [];
      NothingDrained(less, multiset(slice));
      while |slice| > 0
        invariant IsHeap(less, slice) && multiset(out) + multiset(slice) == multiset(old(slice))
        invariant Drained(less, out, multiset(slice))
        decreases |slice|
      {
        ghost var was := slice;
        var x := Pop();
        assert |multiset(slice)| + 1 == |multiset(was)|;
        assert forall y :: y in multiset(was) ==> y in was;
        DrainedNext(less, out, multiset(was), x, multiset(slice));
        out := out + [x];
      }
      DrainedIs(less, out, multiset(slice));
    }
  }

  /** Halving that truncates towards zero. */
  function Half(x: int): (r: int)
    ensures x >= 0 ==> r == x / 2
    ensures x == -1 ==> r == 0
  {
    if x >= 0 then x / 2 else -((-x) / 2)
  }

  /** What came out is in order, and what is still in comes after it. */
  ghost predicate Drained<T>(less: (T, T) -> bool, out: seq<T>, rest: multiset<T>)
  {
    && (forall i, j | 0 <= i < j < |out| :: !less(out[j], out[i]))
    && (forall i, y | 0 <= i < |out| && y in rest :: !less(y, out[i]))
  }

  lemma {:induction false} NothingDrained<T>(less: (T, T) -> bool, rest: multiset<T>)
    ensures Drained(less, [], rest)
  {
  }

  lemma {:induction false} DrainedNext<T>(less: (T, T) -> bool, out: seq<T>, was: multiset<T>, x: T, rest: multiset<T>)
    requires Drained(less, out, was) && rest + multiset{x} == was && forall y :: y in was ==> !less(y, x)
    ensures Drained(less, out + [x], rest)
  {
    assert x in was && forall y :: y in rest ==> y in was;
  }

  lemma {:induction false} DrainedIs<T>(less: (T, T) -> bool, out: seq<T>, rest: multiset<T>)
    requires Drained(less, out, rest)
    ensures forall i, j | 0 <= i < j < |out| :: !less(out[j], out[i])
  {
  }

  lemma {:induction false} Shorter<T>(less: (T, T) -> bool, s: seq<T>, n: nat)
    requires IsHeap(less, s) && n <= |s|
    ensures Ordered(less, s, 0, n)
  {
  }
}
