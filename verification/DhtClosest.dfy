/** When the search for close nodes finds the closest ones, whatever order the nodes of a
    bucket come in. */
module DhtClosest {
  import opened Dht
  import opened Options
  import opened Sets

  // ---- what the search may return, as sets

  /** The matching nodes in the buckets the search looks at. */
  ghost function Reach(root: Id, nodes: set<Node>, target: Id, filter: Node -> bool): set<Node>
  {
    set n <- nodes | filter(n) && Level(root, n) <= Start(root, target)
  }

  ghost function At(root: Id, reach: set<Node>, level: int): set<Node>
  {
    set n <- reach | Level(root, n) == level
  }

  ghost function Over(root: Id, reach: set<Node>, level: int): set<Node>
  {
    set n <- reach | Level(root, n) > level
  }

  /** Up to `k` nodes, and none left out but from buckets no higher than those taken. */
  ghost predicate Chosen(root: Id, reach: set<Node>, k: nat, c: set<Node>)
  {
    && c <= reach && |c| <= k
    && forall n <- reach - c :: |c| == k && forall m <- c :: Level(root, n) <= Level(root, m)
  }

  /** No matching node left out is closer than any returned. */
  ghost predicate Closest(nodes: set<Node>, k: nat, target: Id, filter: Node -> bool, ret: seq<Node>)
  {
    forall n <- nodes | filter(n) && n !in ret ::
      |ret| == k && forall m <- ret :: Distance(m.id, target) <= Distance(n.id, target)
  }

  /** A bucket that has to be cut holds nodes of one identifier only. */
  ghost predicate CutsAlike(root: Id, reach: set<Node>, k: nat)
  {
    forall n, m | n in reach && m in reach && Level(root, n) == Level(root, m) && IsCut(root, reach, k, Level(root, n)) :: n.id == m.id
  }

  /** Not all matching nodes of the bucket fit beside those of the buckets above it. */
  ghost predicate IsCut(root: Id, reach: set<Node>, k: nat, level: int)
  {
    |Over(root, reach, level)| < k < |Over(root, reach, level)| + |At(root, reach, level)|
  }

  lemma {:induction false} SearchedIsChosen(root: Id, nodes: set<Node>, k: nat, target: Id, filter: Node -> bool, ret: seq<Node>)
    requires SearchedDown(root, nodes, k, target, filter, ret)
    ensures Chosen(root, Reach(root, nodes, target, filter), k, set n <- ret) && |(set n <- ret)| == |ret|
  {
    hide Level, Start;
    Distinct(ret);
  }

  lemma {:induction false} ChosenIsSearched(root: Id, nodes: set<Node>, k: nat, target: Id, filter: Node -> bool, c: set<Node>)
    returns (ret: seq<Node>)
    requires Chosen(root, Reach(root, nodes, target, filter), k, c)
    ensures SearchedDown(root, nodes, k, target, filter, ret) && c == set n <- ret
  {
    hide Level, Start;
    ret := Listing(c);
    var reach := Reach(root, nodes, target, filter);
    assert forall n <- ret :: n in c;
    forall n <- nodes | filter(n) && n !in ret && Level(root, n) <= Start(root, target)
      ensures |ret| == k && forall m <- ret :: Level(root, n) <= Level(root, m)
    {
      assert n in reach - c;
    }
  }

  lemma {:induction false} Listing(c: set<Node>) returns (ret: seq<Node>)
    ensures c == (set n <- ret) && |ret| == |c| && forall i, j | 0 <= i < j < |ret| :: ret[i] != ret[j]
    decreases |c|
  {
    ret := [];
    if c != {} {
      var n :| n in c;
      var rest := Listing(c - {n});
      ret := rest + [n];
      assert forall i | 0 <= i < |rest| :: rest[i] in c - {n};
      assert (set m <- ret) == (set m <- rest) + {n};
    }
  }

  // ---- the condition is enough

  /** A node left out beside one taken from the same bucket: the bucket was cut. */
  lemma {:induction false} LeftOutMeansCut(root: Id, reach: set<Node>, k: nat, c: set<Node>, n: Node, m: Node)
    requires Chosen(root, reach, k, c) && n in reach && n !in c && m in c && Level(root, n) == Level(root, m)
    ensures IsCut(root, reach, k, Level(root, n))
  {
    hide Level;
    var over, at := Over(root, reach, Level(root, n)), At(root, reach, Level(root, n));
    assert over + {m} <= c && c + {n} <= over + at && over !! at;
    SubsetSize(over + {m}, c);
    SubsetSize(c + {n}, over + at);
  }

  lemma {:induction false} ChosenIsClosest(root: Id, reach: set<Node>, k: nat, target: Id, c: set<Node>, n: Node, m: Node)
    requires Chosen(root, reach, k, c) && CutsAlike(root, reach, k) && n in reach && n !in c && m in c
    requires forall x <- reach :: 0 <= Level(root, x) <= Start(root, target)
    ensures |c| == k && Distance(m.id, target) <= Distance(n.id, target)
  {
    hide Level, Start, Distance, IsCut;
    if Level(root, n) == Level(root, m) {
      LeftOutMeansCut(root, reach, k, c, n, m);
    } else {
      UpperLevelIsCloser(root, target, m, n);
    }
  }

  lemma {:induction false} SearchIsClosest(root: Id, nodes: set<Node>, k: nat, target: Id, filter: Node -> bool, ret: seq<Node>)
    requires SearchedDown(root, nodes, k, target, filter, ret) && forall n <- nodes :: Level(root, n) >= 0
    requires CutsAlike(root, Reach(root, nodes, target, filter), k)
    requires NodesAbove(root, nodes, target, filter) == {} || |NodesBeside(root, nodes, target, filter)| >= k
    ensures Closest(nodes, k, target, filter, ret)
  {
    SearchIsRight(root, nodes, k, target, filter, ret);
    SearchedIsChosen(root, nodes, k, target, filter, ret);
    hide Level, Start, Distance, SearchedDown, CutsAlike, Chosen;
    var reach, c := Reach(root, nodes, target, filter), (set n <- ret);
    forall n <- nodes | filter(n) && n !in ret
      ensures |ret| == k && forall m <- ret :: Distance(m.id, target) <= Distance(n.id, target)
    {
      if n in reach {
        LeftOutMeansFull(root, reach, k, c, n);
        forall m <- ret ensures Distance(m.id, target) <= Distance(n.id, target) { ChosenIsClosest(root, reach, k, target, c, n, m); }
      } else {
        assert n in NodesAbove(root, nodes, target, filter);
      }
    }
  }

  lemma {:induction false} LeftOutMeansFull(root: Id, reach: set<Node>, k: nat, c: set<Node>, n: Node)
    requires Chosen(root, reach, k, c) && n in reach && n !in c
    ensures |c| == k
  {
    assert n in reach - c;
  }

  // ---- and needed

  lemma {:induction false} ValueDecides(x: seq<bool>, y: seq<bool>)
    requires |x| == |y| && Value(x) == Value(y)
    ensures x == y
  {
    if x != [] {
      BelowPow(x[1..]);
      BelowPow(y[1..]);
      ValueDecides(x[1..], y[1..]);
      assert x == [x[0]] + x[1..] && y == [y[0]] + y[1..];
    }
  }

  lemma {:induction false} BelowPow(s: seq<bool>)
    ensures Value(s) < Pow2(|s|)
  {
    ValueBounds(s);
    PowMono(BitLen(s), |s|);
  }

  /** Only equal identifiers are equally far. */
  lemma {:induction false} DistanceDecides(a: Id, b: Id, target: Id)
    requires Distance(a, target) == Distance(b, target)
    ensures a == b
  {
    ValueDecides(Xor(a, target), Xor(b, target));
    forall i | 0 <= i < WIDTH ensures a[i] == b[i] { XorAt(a, b, target, i); }
  }

  lemma {:induction false} XorAt(a: Id, b: Id, target: Id, i: nat)
    requires i < WIDTH && Xor(a, target) == Xor(b, target)
    ensures a[i] == b[i]
  {
    assert Xor(a, target)[i] == (a[i] != target[i]) && Xor(b, target)[i] == (b[i] != target[i]);
  }

  lemma {:induction false} Pick(s: set<Node>, n: nat) returns (x: set<Node>)
    requires n <= |s|
    ensures x <= s && |x| == n
    decreases n
  {
    x := {};
    if n > 0 {
      var e :| e in s;
      var rest := Pick(s - {e}, n - 1);
      x := rest + {e};
    }
  }

  lemma {:induction false} Highest(root: Id, s: set<Node>) returns (x: Node)
    requires s != {}
    ensures x in s && forall n <- s :: Level(root, n) <= Level(root, x)
    decreases |s|
  {
    hide Level;
    x :| x in s;
    assert forall n <- s :: n == x || n in s - {x};
    if s - {x} != {} {
      var y := Highest(root, s - {x});
      if Level(root, y) > Level(root, x) { x := y; }
    }
  }

  /** There always is a result: the highest nodes one by one. */
  lemma {:induction false} SomeChosen(root: Id, reach: set<Node>, k: nat) returns (c: set<Node>)
    ensures Chosen(root, reach, k, c)
    decreases k
  {
    hide Level;
    c := {};
    if k > 0 && reach != {} {
      var x := Highest(root, reach);
      var rest := SomeChosen(root, reach - {x}, k - 1);
      c := rest + {x};
      assert reach - c == reach - {x} - rest;
    }
  }

  /** Of two nodes of a cut bucket, the farther may be taken and the closer left. */
  lemma {:induction false} CutBadly(root: Id, reach: set<Node>, k: nat, near: Node, far: Node) returns (c: set<Node>)
    requires near in reach && far in reach && near != far && Level(root, near) == Level(root, far) && IsCut(root, reach, k, Level(root, near))
    ensures Chosen(root, reach, k, c) && near !in c && far in c
  {
    hide Level;
    var level := Level(root, near);
    var over, at := Over(root, reach, level), At(root, reach, level);
    WithoutTwo(at, near, far);
    var x := Pick(at - {near, far}, k - |over| - 1);
    c := over + (x + {far});
    Joined(over, x, far);
    assert forall n <- reach - c :: Level(root, n) <= level;
  }

  lemma {:induction false} WithoutTwo(s: set<Node>, a: Node, b: Node)
    requires a in s && b in s && a != b
    ensures |s - {a, b}| == |s| - 2
  {
    assert s == s - {a, b} + {a, b};
  }

  lemma {:induction false} Joined(over: set<Node>, x: set<Node>, far: Node)
    requires over !! x && far !in over && far !in x
    ensures |over + (x + {far})| == |over| + |x| + 1
  {
    assert over !! x + {far};
  }

  /** Main result: every result the search may give, in whatever order the nodes of a
      bucket come, is the closest exactly when no matching node lies above the target's
      bucket or that bucket has enough, and a bucket that is cut holds one identifier. */
  lemma {:induction false} SearchIsClosestWhen(root: Id, nodes: set<Node>, k: nat, target: Id, filter: Node -> bool)
    requires forall n <- nodes :: Level(root, n) >= 0
    ensures (forall ret: seq<Node> | SearchedDown(root, nodes, k, target, filter, ret) :: Closest(nodes, k, target, filter, ret))
      <==> ((NodesAbove(root, nodes, target, filter) == {} || |NodesBeside(root, nodes, target, filter)| >= k)
            && CutsAlike(root, Reach(root, nodes, target, filter), k))
  {
    hide Level, Start, SearchedDown, Closest, Distance, IsCut;
    var reach := Reach(root, nodes, target, filter);
    if NodesAbove(root, nodes, target, filter) != {} && |NodesBeside(root, nodes, target, filter)| < k {
      var ret := SkippedBadly(root, nodes, k, target, filter);
    } else if n, m :| n in reach && m in reach && Level(root, n) == Level(root, m) && IsCut(root, reach, k, Level(root, n)) && n.id != m.id {
      var ret := ResultCutBadly(root, nodes, k, target, filter, n, m);
    } else {
      forall ret: seq<Node> | SearchedDown(root, nodes, k, target, filter, ret) ensures Closest(nodes, k, target, filter, ret) {
        SearchIsClosest(root, nodes, k, target, filter, ret);
      }
    }
  }

  lemma {:induction false} SkippedBadly(root: Id, nodes: set<Node>, k: nat, target: Id, filter: Node -> bool) returns (ret: seq<Node>)
    requires forall n <- nodes :: Level(root, n) >= 0
    requires NodesAbove(root, nodes, target, filter) != {} && |NodesBeside(root, nodes, target, filter)| < k
    ensures SearchedDown(root, nodes, k, target, filter, ret) && !Closest(nodes, k, target, filter, ret)
  {
    var c := SomeChosen(root, Reach(root, nodes, target, filter), k);
    ret := ChosenIsSearched(root, nodes, k, target, filter, c);
    var n :| n in NodesAbove(root, nodes, target, filter);
    hide BucketIndex, Start, Distance, Chosen;
    assert n !in ret;
    if |ret| == k {
      var m := TooFewBeside(root, nodes, k, target, filter, ret);
      SkippedBucketIsCloser(root, target, n.id, m.id);
    }
  }

  lemma {:induction false} ResultCutBadly(root: Id, nodes: set<Node>, k: nat, target: Id, filter: Node -> bool, n: Node, m: Node) returns (ret: seq<Node>)
    requires var reach := Reach(root, nodes, target, filter);
      n in reach && m in reach && Level(root, n) == Level(root, m) && IsCut(root, reach, k, Level(root, n)) && n.id != m.id
    ensures SearchedDown(root, nodes, k, target, filter, ret) && !Closest(nodes, k, target, filter, ret)
  {
    hide Level, Start, IsCut, SearchedDown, Chosen, Distance;
    var reach := Reach(root, nodes, target, filter);
    if Distance(n.id, target) == Distance(m.id, target) { DistanceDecides(n.id, m.id, target); }
    var near, far := n, m;
    if Distance(m.id, target) < Distance(n.id, target) { near, far := m, n; }
    var c := CutBadly(root, reach, k, near, far);
    ret := ChosenIsSearched(root, nodes, k, target, filter, c);
    assert far in ret && near !in ret;
  }

  /** A table that has the very node searched for, and another in the same bucket. A
      search for one node may return the other. */
  method SearchMissesTarget(root: Id) returns (table: Table, there: Node, other: Node)
    ensures fresh(table) && table.Valid() && table.Nodes() == {there, other} && table.k == 8 && table.rootID == root
    ensures SearchedDown(root, table.Nodes(), 1, there.id, _ => true, [other])
    ensures Distance(there.id, there.id) < Distance(other.id, there.id)
  {
    hide BucketIndex, Distance, AllNodes, Placed, Indexed, SearchedDown, Level, Start;
    var id: Id := root[0 := !root[0]];
    there := new Node("there", id);
    other := new Node("other", id[1 := !id[1]]);
    SameBucket(root, there, other);
    table := TwoInBucket(root, there, other);
  }

  method TwoInBucket(root: Id, there: Node, other: Node) returns (table: Table)
    requires there.id != other.id && Level(root, there) == Level(root, other) == 0
    ensures fresh(table) && table.Valid() && table.Nodes() == {there, other} && table.k == 8 && table.rootID == root
  {
    hide BucketIndex, AllNodes, Placed, Indexed;
    table := new Table(root, 8);
    table.NoneAt(0);
    assert table.Nodes() == {} && BucketIndex(table.rootID, there.id) == 0;
    var added := table.AddNode(there);
    table.FewAt(0);
    assert BucketIndex(table.rootID, other.id) == 0;
    added := table.AddNode(other);
  }

  lemma {:induction false} SameBucket(root: Id, there: Node, other: Node)
    requires there.id == root[0 := !root[0]] && other.id == there.id[1 := !there.id[1]]
    ensures there.id != other.id && Level(root, there) == Level(root, other) == 0
    ensures SearchedDown(root, {there, other}, 1, there.id, _ => true, [other])
    ensures Distance(there.id, there.id) < Distance(other.id, there.id)
  {
    FlippedBit(root, 0);
    assert other.id[1] != there.id[1] && Diverge(other.id, root, 0) && Diverge(other.id, there.id, 1);
    DivergeOnce(other.id, root, BucketIndex(root, other.id), 0);
    hide Distance, BucketIndex;
    LongerPrefixIsCloser(there.id, there.id, other.id, 1);
  }
}
