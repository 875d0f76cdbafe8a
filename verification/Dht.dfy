/** The routing table of BEP 5: node identifiers and their distance, the buckets by
    distance from the root, and the index by address. */
module Dht {
  import opened Options
  import opened Sets

  const WIDTH: nat := 160

  /** An identifier, most significant bit first. */
  type Id = s: seq<bool> | |s| == WIDTH witness seq(WIDTH, _ => false)

  function Xor(a: seq<bool>, b: seq<bool>): (x: seq<bool>)
    requires |a| == |b|
    ensures |x| == |a|
  {
    seq(|a|, i requires 0 <= i < |a| => a[i] != b[i])
  }

  /** The number of bits from the first that is set. */
  function BitLen(s: seq<bool>): (n: nat)
    ensures n <= |s|
  {
    if s == [] then 0 else if s[0] then |s| else BitLen(s[1..])
  }

  function Pow2(n: nat): (p: nat)
    ensures p > 0
  {
    if n == 0 then 1 else 2 * Pow2(n - 1)
  }

  function Value(s: seq<bool>): nat
  {
    if s == [] then 0 else (if s[0] then Pow2(|s| - 1) else 0) + Value(s[1..])
  }

  /** The XOR metric. */
  function Distance(a: Id, b: Id): nat { Value(Xor(a, b)) }

  /** The first bit in which two identifiers differ is bit `i`. */
  ghost predicate Diverge(a: seq<bool>, b: seq<bool>, i: nat)
    requires |a| == |b|
  {
    i < |a| && a[i] != b[i] && forall j | 0 <= j < i :: a[j] == b[j]
  }

  lemma {:induction false} BitLenIs(s: seq<bool>, i: nat)
    requires i < |s| && forall j | 0 <= j < i :: !s[j]
    ensures s[i] ==> BitLen(s) == |s| - i
    ensures BitLen(s) <= |s| - i
  {
    if i > 0 { BitLenIs(s[1..], i - 1); }
  }

  lemma {:induction false} ValueBounds(s: seq<bool>)
    ensures Value(s) < Pow2(BitLen(s))
    ensures BitLen(s) > 0 ==> Value(s) >= Pow2(BitLen(s) - 1)
  {
    if s != [] {
      ValueBounds(s[1..]);
      if s[0] { PowMono(BitLen(s[1..]), |s| - 1); }
    }
  }

  lemma {:induction false} PowMono(a: nat, b: nat)
    requires a <= b
    ensures Pow2(a) <= Pow2(b)
    decreases b
  {
    if a < b { PowMono(a, b - 1); }
  }

  /** Whoever shares a longer prefix with the target is strictly closer to it. */
  lemma {:induction false} LongerPrefixIsCloser(target: Id, a: Id, b: Id, j: nat)
    requires Diverge(b, target, j) && forall m | 0 <= m <= j :: a[m] == target[m]
    ensures Distance(a, target) < Distance(b, target)
  {
    var x, y := Xor(a, target), Xor(b, target);
    BitLenIs(y, j);
    if j + 1 < WIDTH {
      BitLenIs(x, j + 1);
    } else {
      BitLenIs(x, j);
      assert BitLen(x) == 0 by { AllClear(x); }
    }
    ValueBounds(x);
    ValueBounds(y);
    PowMono(BitLen(x), BitLen(y) - 1);
  }

  lemma {:induction false} AllClear(s: seq<bool>)
    requires forall j | 0 <= j < |s| :: !s[j]
    ensures BitLen(s) == 0
  {
    if s != [] { AllClear(s[1..]); }
  }

  /** Where an identifier other than the root belongs. */
  function BucketIndex(root: Id, id: Id): (i: int)
    requires id != root
    ensures 0 <= i < WIDTH && Diverge(id, root, i)
  {
    BucketIndexIs(root, id);
    WIDTH - BitLen(Xor(root, id))
  }

  lemma {:induction false} SameUpTo(a: seq<bool>, b: seq<bool>, n: nat)
    requires |a| == |b| && n <= |a| && a != b && forall j | 0 <= j < n :: a[j] == b[j]
    ensures n < |a|
  {
  }

  lemma {:induction false} FirstDifference(a: seq<bool>, b: seq<bool>) returns (i: nat)
    requires |a| == |b| && a != b
    ensures Diverge(a, b, i)
  {
    i := 0;
    while a[i] == b[i]
      invariant i < |a| && forall j | 0 <= j < i :: a[j] == b[j]
      decreases |a| - i
    {
      SameUpTo(a, b, i + 1);
      i := i + 1;
    }
  }

  lemma {:induction false} BucketIndexIs(root: Id, id: Id)
    requires id != root
    ensures BitLen(Xor(root, id)) > 0 && Diverge(id, root, WIDTH - BitLen(Xor(root, id)))
  {
    var i := FirstDifference(id, root);
    BitLenIs(Xor(root, id), i);
  }

  lemma {:induction false} DivergeOnce(a: seq<bool>, b: seq<bool>, i: nat, j: nat)
    requires |a| == |b| && Diverge(a, b, i) && Diverge(a, b, j)
    ensures i == j
  {
  }

  /** The random identifier made for a bucket lands in that bucket. */
  method RandomIdInBucket(root: Id, bucketIndex: nat, random: Id) returns (id: Id)
    requires bucketIndex < WIDTH
    ensures id != root && BucketIndex(root, id) == bucketIndex
    ensures forall j | bucketIndex < j < WIDTH :: id[j] == random[j]
  {
    id := random;
    for i := 0 to bucketIndex
      invariant forall j | 0 <= j < i :: id[j] == root[j]
      invariant forall j | i <= j < WIDTH :: id[j] == random[j]
    {
      id := id[i := root[i]];
    }
    id := id[bucketIndex := !root[bucketIndex]];
    assert Diverge(id, root, bucketIndex);
    DivergeOnce(id, root, BucketIndex(root, id), bucketIndex);
  }

  /** The bucket a search for the target starts from. */
  function Start(root: Id, target: Id): (i: nat)
    ensures i < WIDTH && forall j | 0 <= j < i :: root[j] == target[j]
  {
    if target == root then WIDTH - 1 else BucketIndex(root, target)
  }

  /** Of two buckets at or below the target's, every node of the upper one is strictly
      closer to the target than every node of the lower one. */
  lemma {:induction false} UpperBucketIsCloser(root: Id, target: Id, a: Id, b: Id)
    requires a != root && b != root && BucketIndex(root, b) < BucketIndex(root, a) <= Start(root, target)
    ensures Distance(a, target) < Distance(b, target)
  {
    hide BucketIndex, Start, Distance;
    LongerPrefixIsCloser(target, a, b, BucketIndex(root, b));
  }

  /** Every node of a bucket above the target's is strictly closer to the target than
      every node of a bucket below the target's. */
  lemma {:induction false} SkippedBucketIsCloser(root: Id, target: Id, a: Id, b: Id)
    requires a != root && b != root && BucketIndex(root, b) < Start(root, target) < BucketIndex(root, a)
    ensures Distance(a, target) < Distance(b, target)
  {
    hide BucketIndex, Start, Distance;
    LongerPrefixIsCloser(target, a, b, BucketIndex(root, b));
  }

  class Node {
    const addr: string
    const id: Id

    constructor (addr: string, id: Id)
      ensures this.addr == addr && this.id == id
    {
      this.addr, this.id := addr, id;
    }

    predicate HasAddrAndID(addr: string, id: Id) { id == this.id && this.addr == addr }
  }

  datatype AddError = IsRootId | AlreadyPresent | BucketFull

  /** One bucket: nodes that belong there, no two alike and none too many. */
  ghost predicate Proper(root: Id, k: int, bucket: set<Node>, i: nat)
  {
    && (forall n <- bucket :: n.id != root && BucketIndex(root, n.id) == i)
    && (bucket != {} ==> |bucket| <= k)
    && (forall n, m | n in bucket && m in bucket && n.HasAddrAndID(m.addr, m.id) :: n == m)
  }

  ghost predicate Placed(root: Id, k: int, buckets: seq<set<Node>>)
  {
    |buckets| == WIDTH && forall i: nat | i < WIDTH :: Proper(root, k, buckets[i], i)
  }

  /** A stored node with this address and identifier. */
  ghost predicate Stored(root: Id, buckets: seq<set<Node>>, addr: string, id: Id)
    requires |buckets| == WIDTH
  {
    id != root && exists n <- buckets[BucketIndex(root, id)] :: n.HasAddrAndID(addr, id)
  }

  /** The index lists exactly the stored nodes, and no empty entries. */
  ghost predicate Indexed(root: Id, buckets: seq<set<Node>>, addrs: map<string, set<Id>>)
    requires |buckets| == WIDTH
  {
    && (forall a <- addrs :: addrs[a] != {})
    && (forall a, id | a in addrs && id in addrs[a] :: Stored(root, buckets, a, id))
    && (forall i | 0 <= i < WIDTH :: Listed(buckets[i], addrs))
  }

  ghost predicate Listed(bucket: set<Node>, addrs: map<string, set<Id>>)
  {
    forall n <- bucket :: n.addr in addrs && n.id in addrs[n.addr]
  }

  function AllNodes(buckets: seq<set<Node>>): set<Node>
  {
    set i, n | 0 <= i < |buckets| && n in buckets[i] :: n
  }

  function With(addrs: map<string, set<Id>>, n: Node): map<string, set<Id>>
  {
    addrs[n.addr := (if n.addr in addrs then addrs[n.addr] else {}) + {n.id}]
  }

  /** The index without a node, and without an entry left empty. */
  function Without(addrs: map<string, set<Id>>, n: Node): map<string, set<Id>>
    requires n.addr in addrs
  {
    if addrs[n.addr] == {n.id} then addrs - {n.addr} else addrs[n.addr := addrs[n.addr] - {n.id}]
  }

  lemma {:induction false} AddKeepsPlaced(root: Id, k: int, buckets: seq<set<Node>>, n: Node, i: nat)
    requires Placed(root, k, buckets) && n.id != root && i == BucketIndex(root, n.id) && |buckets[i]| < k
    requires forall m <- buckets[i] :: !m.HasAddrAndID(n.addr, n.id)
    ensures Placed(root, k, buckets[i := buckets[i] + {n}])
    ensures AllNodes(buckets[i := buckets[i] + {n}]) == AllNodes(buckets) + {n} && n !in AllNodes(buckets)
  {
    AddToAll(buckets, n, i);
    NodeIsInItsBucket(root, k, buckets, n);
    AddKeepsProper(root, k, buckets[i], n, i);
    assert n.HasAddrAndID(n.addr, n.id);
    hide Proper, AllNodes, BucketIndex;
  }

  lemma {:induction false} AddKeepsProper(root: Id, k: int, bucket: set<Node>, n: Node, i: nat)
    requires Proper(root, k, bucket, i) && n.id != root && i == BucketIndex(root, n.id) && |bucket| < k
    requires forall m <- bucket :: !m.HasAddrAndID(n.addr, n.id)
    ensures Proper(root, k, bucket + {n}, i)
  {
    hide BucketIndex;
  }

  lemma {:induction false} AddToAll(buckets: seq<set<Node>>, n: Node, i: nat)
    requires i < |buckets|
    ensures AllNodes(buckets[i := buckets[i] + {n}]) == AllNodes(buckets) + {n}
  {
    var b := buckets[i := buckets[i] + {n}];
    forall m | m in AllNodes(buckets) ensures m in AllNodes(b) {
      var j :| 0 <= j < |buckets| && m in buckets[j];
      assert m in b[j];
    }
    forall m | m in AllNodes(b) ensures m in AllNodes(buckets) + {n} {
      var j :| 0 <= j < |b| && m in b[j];
      assert m == n || m in buckets[j];
    }
    assert n in b[i];
  }

  lemma {:induction false} NowStored(root: Id, buckets: seq<set<Node>>, n: Node, i: nat, addr: string, id: Id)
    requires |buckets| == WIDTH && n.id != root && i == BucketIndex(root, n.id)
    requires Stored(root, buckets, addr, id) || (addr == n.addr && id == n.id)
    ensures Stored(root, buckets[i := buckets[i] + {n}], addr, id)
  {
    var b := buckets[i := buckets[i] + {n}];
    hide BucketIndex;
    if addr == n.addr && id == n.id {
      assert n in b[i] && n.HasAddrAndID(addr, id);
    } else {
      var x :| x in buckets[BucketIndex(root, id)] && x.HasAddrAndID(addr, id);
      assert x in b[BucketIndex(root, id)];
    }
  }

  lemma {:induction false} NowListed(buckets: seq<set<Node>>, addrs: map<string, set<Id>>, n: Node, i: nat, j: nat)
    requires j < |buckets| && i < |buckets| && Listed(buckets[j], addrs)
    ensures Listed(buckets[i := buckets[i] + {n}][j], With(addrs, n))
  {
  }

  lemma {:induction false} AddKeepsIndexed(root: Id, buckets: seq<set<Node>>, addrs: map<string, set<Id>>, n: Node, i: nat)
    requires |buckets| == WIDTH && Indexed(root, buckets, addrs) && n.id != root && i == BucketIndex(root, n.id)
    ensures Indexed(root, buckets[i := buckets[i] + {n}], With(addrs, n))
  {
    var b, m := buckets[i := buckets[i] + {n}], With(addrs, n);
    hide BucketIndex, Stored, Listed;
    forall a, id | a in m && id in m[a]
      ensures Stored(root, b, a, id)
    {
      NowStored(root, buckets, n, i, a, id);
    }
    forall j | 0 <= j < WIDTH ensures Listed(b[j], m) { NowListed(buckets, addrs, n, i, j); }
  }

  lemma {:induction false} DropKeepsPlaced(root: Id, k: int, buckets: seq<set<Node>>, n: Node, i: nat)
    requires Placed(root, k, buckets) && n.id != root && i == BucketIndex(root, n.id) && n in buckets[i]
    ensures Placed(root, k, buckets[i := buckets[i] - {n}])
    ensures AllNodes(buckets[i := buckets[i] - {n}]) == AllNodes(buckets) - {n}
  {
    var b := buckets[i := buckets[i] - {n}];
    hide BucketIndex;
    forall m | m in AllNodes(buckets) && m != n ensures m in AllNodes(b) {
      var j :| 0 <= j < |buckets| && m in buckets[j];
      assert m in b[j];
    }
    forall m | m in AllNodes(b) ensures m in AllNodes(buckets) && m != n {
      var j :| 0 <= j < |b| && m in b[j];
      assert m in buckets[j];
    }
  }

  lemma {:induction false} DropKeepsIndexed(root: Id, k: int, buckets: seq<set<Node>>, addrs: map<string, set<Id>>, n: Node, i: nat)
    requires Placed(root, k, buckets) && Indexed(root, buckets, addrs)
    requires n.id != root && i == BucketIndex(root, n.id) && n in buckets[i]
    ensures n.addr in addrs && n.id in addrs[n.addr]
    ensures Indexed(root, buckets[i := buckets[i] - {n}], Without(addrs, n))
  {
    assert Listed(buckets[i], addrs);
    assert n.addr in addrs && n.id in addrs[n.addr];
    DropKeepsListed(root, k, buckets, addrs, n, i, buckets[i := buckets[i] - {n}]);
    DropKeepsEntries(root, buckets, addrs, n, i);
    hide Stored, Listed, Placed, BucketIndex, Without;
  }

  lemma {:induction false} DropKeepsListed(root: Id, k: int, buckets: seq<set<Node>>, addrs: map<string, set<Id>>, n: Node, i: nat, b: seq<set<Node>>)
    requires Placed(root, k, buckets) && Indexed(root, buckets, addrs) && n.addr in addrs
    requires n.id != root && i == BucketIndex(root, n.id) && n in buckets[i] && b == buckets[i := buckets[i] - {n}]
    ensures forall j: nat | j < WIDTH :: Listed(b[j], Without(addrs, n))
  {
    hide BucketIndex, Listed, Without;
    forall j: nat | j < WIDTH
      ensures Listed(b[j], Without(addrs, n))
    {
      assert Listed(buckets[j], addrs) && Proper(root, k, buckets[j], j);
      StillListed(root, k, buckets[j], addrs, n, j);
    }
  }

  lemma {:induction false} DropKeepsEntries(root: Id, buckets: seq<set<Node>>, addrs: map<string, set<Id>>, n: Node, i: nat)
    requires |buckets| == WIDTH && i < WIDTH && n.addr in addrs && n.id in addrs[n.addr] && Indexed(root, buckets, addrs)
    ensures var m := Without(addrs, n);
      && (forall a <- m :: m[a] != {})
      && (forall a, id | a in m && id in m[a] :: Stored(root, buckets[i := buckets[i] - {n}], a, id))
  {
    hide Stored, Listed, BucketIndex;
    var m := Without(addrs, n);
    forall a, id | a in m && id in m[a]
      ensures Stored(root, buckets[i := buckets[i] - {n}], a, id)
    {
      assert a in addrs && id in addrs[a];
      StillStored(root, buckets, n, i, a, id);
    }
    forall a <- m ensures m[a] != {} {
      assert a in addrs;
      assert a == n.addr ==> addrs[a] != {n.id} && exists id :: id in addrs[a] && id != n.id;
    }
  }

  lemma {:induction false} StillStored(root: Id, buckets: seq<set<Node>>, n: Node, i: nat, addr: string, id: Id)
    requires |buckets| == WIDTH && i < WIDTH && Stored(root, buckets, addr, id) && (addr != n.addr || id != n.id)
    ensures Stored(root, buckets[i := buckets[i] - {n}], addr, id)
  {
    hide BucketIndex;
    var x :| x in buckets[BucketIndex(root, id)] && x.HasAddrAndID(addr, id);
    assert x in buckets[i := buckets[i] - {n}][BucketIndex(root, id)];
  }

  lemma {:induction false} StillListed(root: Id, k: int, bucket: set<Node>, addrs: map<string, set<Id>>, n: Node, j: nat)
    requires Proper(root, k, bucket, j) && Listed(bucket, addrs) && n.addr in addrs
    requires n.id != root && (BucketIndex(root, n.id) == j <==> n in bucket)
    ensures Listed(bucket - {n}, Without(addrs, n)) && (n !in bucket ==> Listed(bucket, Without(addrs, n)))
  {
    hide BucketIndex;
    forall x | x in bucket && x != n
      ensures x.addr != n.addr || x.id != n.id
    {
      assert n in bucket ==> !x.HasAddrAndID(n.addr, n.id);
    }
  }

  /** A node is stored exactly when its own bucket holds it. */
  lemma {:induction false} NodeIsInItsBucket(root: Id, k: int, buckets: seq<set<Node>>, n: Node)
    requires Placed(root, k, buckets)
    ensures n in AllNodes(buckets) <==> n.id != root && n in buckets[BucketIndex(root, n.id)]
  {
    hide BucketIndex;
    if n in AllNodes(buckets) {
      var j :| 0 <= j < |buckets| && n in buckets[j];
    }
  }

  lemma {:induction false} AlikeAreTogether(root: Id, k: int, buckets: seq<set<Node>>, n: Node)
    requires Placed(root, k, buckets) && n.id != root
    ensures (exists m <- AllNodes(buckets) :: m.HasAddrAndID(n.addr, n.id))
      <==> (exists m <- buckets[BucketIndex(root, n.id)] :: m.HasAddrAndID(n.addr, n.id))
  {
    hide BucketIndex;
    var b := buckets[BucketIndex(root, n.id)];
    if m :| m in AllNodes(buckets) && m.HasAddrAndID(n.addr, n.id) {
      NodeIsInItsBucket(root, k, buckets, m);
      assert m in b;
    }
    if m :| m in b && m.HasAddrAndID(n.addr, n.id) {
      assert m in AllNodes(buckets);
    }
  }

  lemma {:induction false} IndexedNode(root: Id, buckets: seq<set<Node>>, addrs: map<string, set<Id>>, n: Node)
    requires |buckets| == WIDTH && Indexed(root, buckets, addrs)
    ensures n.id != root && n in buckets[BucketIndex(root, n.id)] ==> n.addr in addrs && n.id in addrs[n.addr]
    ensures n.addr in addrs && n.id in addrs[n.addr] ==> n.id != root
  {
    hide BucketIndex;
  }

  lemma {:induction false} IndexedId(root: Id, buckets: seq<set<Node>>, addrs: map<string, set<Id>>, addr: string, id: Id)
    requires |buckets| == WIDTH && Indexed(root, buckets, addrs) && addr in addrs && id in addrs[addr]
    ensures id != root && exists n <- buckets[BucketIndex(root, id)] :: n.HasAddrAndID(addr, id)
  {
    assert Stored(root, buckets, addr, id);
  }

  lemma {:induction false} InBucket(root: Id, buckets: seq<set<Node>>, n: Node, id: Id)
    requires |buckets| == WIDTH && id != root && n in buckets[BucketIndex(root, id)]
    ensures n in AllNodes(buckets)
  {
  }

  lemma {:induction false} OneOfAKind(root: Id, k: int, buckets: seq<set<Node>>, m: Node, n: Node)
    requires Placed(root, k, buckets) && m in AllNodes(buckets) && n in AllNodes(buckets) && m.addr == n.addr && m.id == n.id
    ensures m == n
  {
    NodeIsInItsBucket(root, k, buckets, m);
    NodeIsInItsBucket(root, k, buckets, n);
    assert Proper(root, k, buckets[BucketIndex(root, n.id)], BucketIndex(root, n.id));
    assert m.HasAddrAndID(n.addr, n.id);
    hide BucketIndex;
  }

  class Table {
    const rootID: Id
    const k: int
    var buckets: seq<set<Node>>
    var addrs: map<string, set<Id>>

    ghost predicate Valid()
      reads this
    {
      Placed(rootID, k, buckets) && Indexed(rootID, buckets, addrs)
    }

    constructor (rootID: Id, k: int)
      ensures Valid() && this.rootID == rootID && this.k == k && Nodes() == {}
    {
      this.rootID, this.k := rootID, k;
      buckets, addrs := seq(WIDTH, _ => {}), map[];
    }

    ghost function Nodes(): set<Node>
      reads this`buckets
    {
      AllNodes(buckets)
    }

    /** The node of the bucket with this address and identifier, by search. */
    method GetNode(bucket: set<Node>, addr: string, id: Id) returns (found: Option<Node>)
      ensures found.Some? ==> found.value in bucket && found.value.HasAddrAndID(addr, id)
      ensures found.None? ==> forall n <- bucket :: !n.HasAddrAndID(addr, id)
    {
      var rest := bucket;
      while rest != {}
        invariant rest <= bucket && forall n <- bucket - rest :: !n.HasAddrAndID(addr, id)
        decreases rest
      {
        var n :| n in rest;
        if n.HasAddrAndID(addr, id) { return Some(n); }
        rest := rest - {n};
      }
      return None;
    }

    method AddNode(n: Node) returns (error: Option<AddError>)
      requires Valid()
      modifies this
      ensures Valid()
      ensures error == Some(IsRootId) <==> n.id == rootID
      ensures error == Some(AlreadyPresent) <==> n.id != rootID && exists m <- old(Nodes()) :: m.HasAddrAndID(n.addr, n.id)
      ensures error == Some(BucketFull) ==> |old(buckets)[BucketIndex(rootID, n.id)]| >= k
      ensures error.None?
        <==> n.id != rootID && !(exists m <- old(Nodes()) :: m.HasAddrAndID(n.addr, n.id)) && |old(buckets)[BucketIndex(rootID, n.id)]| < k
      ensures Nodes() == if error.None? then old(Nodes()) + {n} else old(Nodes())
      ensures error.None? ==> n !in old(Nodes())
    {
      hide BucketIndex, AllNodes, Placed, Indexed, With;
      if n.id == rootID { return Some(IsRootId); }
      var i := BucketIndex(rootID, n.id);
      HasBuckets();
      AlikeAreTogether(rootID, k, buckets, n);
      var present := GetNode(buckets[i], n.addr, n.id);
      if present.Some? { return Some(AlreadyPresent); }
      if |buckets[i]| >= k { return Some(BucketFull); }
      AddKeepsPlaced(rootID, k, buckets, n, i);
      AddKeepsIndexed(rootID, buckets, addrs, n, i);
      WithIs(n);
      buckets := buckets[i := buckets[i] + {n}];
      addrs := addrs[n.addr := (if n.addr in addrs then addrs[n.addr] else {}) + {n.id}];
      return None;
    }

    lemma {:induction false} HasBuckets()
      requires Valid()
      ensures |buckets| == WIDTH
    {
    }

    /** Every node is in the bucket of its level. */
    lemma {:induction false} Shelved()
      requires Valid()
      ensures |buckets| == WIDTH
      ensures forall n <- Nodes() :: 0 <= Level(rootID, n) < WIDTH && n in buckets[Level(rootID, n)]
      ensures forall i: nat, n | i < WIDTH && n in buckets[i] :: n in Nodes() && Level(rootID, n) == i
    {
      Levels(rootID, k, buckets);
      hide Level, AllNodes, Indexed;
    }

    lemma {:induction false} NoneAt(i: nat)
      requires Valid() && i < WIDTH && forall n <- Nodes() :: Level(rootID, n) != i
      ensures |buckets| == WIDTH && |buckets[i]| == 0
    {
      hide *;
      Shelved();
      EmptyBucket(buckets, Nodes(), rootID, i);
    }

    /** No bucket has more nodes than the table. */
    lemma {:induction false} FewAt(i: nat)
      requires Valid() && i < WIDTH
      ensures |buckets| == WIDTH && |buckets[i]| <= |Nodes()|
    {
      hide *;
      Shelved();
      assert buckets[i] <= Nodes();
      SubsetSize(buckets[i], Nodes());
    }

    lemma {:induction false} WithIs(n: Node)
      ensures With(addrs, n) == addrs[n.addr := (if n.addr in addrs then addrs[n.addr] else {}) + {n.id}]
    {
    }

    /** False stands for a panic, which comes only for a node that is not stored. */
    method DropNode(n: Node) returns (ok: bool)
      requires Valid()
      modifies this
      ensures ok <==> n in old(Nodes())
      ensures ok ==> Valid() && Nodes() == old(Nodes()) - {n}
    {
      hide BucketIndex, AllNodes, Placed, Indexed, Without;
      HasBuckets();
      NodeIsInItsBucket(rootID, k, buckets, n);
      IndexedNode(rootID, buckets, addrs, n);
      if n.addr !in addrs || n.id !in addrs[n.addr] { return false; }
      ghost var was := addrs;
      WithoutIs(n);
      addrs := addrs[n.addr := addrs[n.addr] - {n.id}];
      if addrs[n.addr] == {} { addrs := addrs - {n.addr}; }
      var i := BucketIndex(rootID, n.id);
      if n !in buckets[i] { return false; }
      DropKeepsPlaced(rootID, k, buckets, n, i);
      DropKeepsIndexed(rootID, k, buckets, was, n, i);
      buckets := buckets[i := buckets[i] - {n}];
      return true;
    }

    lemma {:induction false} WithoutIs(n: Node)
      requires n.addr in addrs && n.id in addrs[n.addr]
      ensures var m := addrs[n.addr := addrs[n.addr] - {n.id}];
        Without(addrs, n) == if m[n.addr] == {} then m - {n.addr} else m
    {
    }

    /** The stored nodes at an address; none of the lookups comes back empty. */
    method AddrNodes(addr: string) returns (ret: seq<Node>)
      requires Valid()
      ensures forall n :: n in ret <==> n in Nodes() && n.addr == addr
    {
      hide BucketIndex, AllNodes, Placed, Indexed;
      HasBuckets();
      var a: set<Id> := if addr in addrs then addrs[addr] else {};
      var rest := a;
      ghost var got: map<Id, Node> := map[];
      ret := [];
      while rest != {}
        invariant rest <= a
        invariant forall n <- ret :: n in Nodes() && n.addr == addr && n.id in a - rest
        invariant got.Keys == a - rest && forall id <- got :: got[id] in ret && got[id].id == id
        decreases rest
      {
        var id :| id in rest;
        IndexedId(rootID, buckets, addrs, addr, id);
        var found := GetNode(buckets[BucketIndex(rootID, id)], addr, id);
        InBucket(rootID, buckets, found.value, id);
        ret := ret + [found.value];
        got := got[id := found.value];
        rest := rest - {id};
      }
      forall n | n in Nodes() && n.addr == addr
        ensures n in ret
      {
        NodeIsInItsBucket(rootID, k, buckets, n);
        IndexedNode(rootID, buckets, addrs, n);
        var m := got[n.id];
        NodeIsInItsBucket(rootID, k, buckets, m);
        OneOfAKind(rootID, k, buckets, m, n);
      }
    }

    /** Up to `k` matching nodes, from the target's bucket downwards. Those above it are
        rightly left out just when there are none, or the target's own bucket has enough. */
    method ClosestNodes(k: nat, target: Id, filter: Node -> bool) returns (ret: seq<Node>)
      requires Valid()
      ensures SearchedDown(rootID, Nodes(), k, target, filter, ret)
      ensures forall n, m | n in Nodes() && filter(n) && n !in ret && Level(rootID, n) <= Start(rootID, target) && m in ret ::
        Level(rootID, n) == Level(rootID, m) || Distance(m.id, target) < Distance(n.id, target)
      ensures (forall n <- NodesAbove(rootID, Nodes(), target, filter) :: Beaten(ret, k, target, n))
        <==> NodesAbove(rootID, Nodes(), target, filter) == {} || |NodesBeside(rootID, Nodes(), target, filter)| >= k
    {
      hide *;
      Shelved();
      ret := [];
      var bi := Start(rootID, target);
      ScanStart(rootID, Nodes(), target, filter);
      while bi >= 0 && |ret| < k
        invariant -1 <= bi <= Start(rootID, target) && Scanned(rootID, Nodes(), target, filter, bi, ret)
      {
        var ns := MatchingIn(buckets[bi], filter);
        ScanNext(rootID, Nodes(), target, filter, bi, ret, buckets[bi], ns);
        ret := ret + ns;
        bi := bi - 1;
      }
      ScanEnd(rootID, Nodes(), k, target, filter, bi, ret);
      if |ret| > k { ret := ret[..k]; }
      SearchedLower(rootID, Nodes(), k, target, filter, ret);
      SearchIsRight(rootID, Nodes(), k, target, filter, ret);
    }

    /** The nodes of one bucket that match, as a range over a map yields them. */
    method MatchingIn(bucket: set<Node>, filter: Node -> bool) returns (ns: seq<Node>)
      ensures (forall n <- ns :: n in bucket && filter(n)) && (forall n <- bucket | filter(n) :: n in ns)
      ensures forall i, j | 0 <= i < j < |ns| :: ns[i] != ns[j]
    {
      ns := [];
      var rest := bucket;
      while rest != {}
        invariant rest <= bucket && forall n <- ns :: n in bucket && filter(n) && n !in rest
        invariant forall n <- bucket | filter(n) && n !in ns :: n in rest
        invariant forall i, j | 0 <= i < j < |ns| :: ns[i] != ns[j]
        decreases rest
      {
        var n :| n in rest;
        rest := rest - {n};
        if filter(n) { ns := ns + [n]; }
      }
    }
  }

  /** The bucket a node belongs to, -1 for the root itself. */
  function Level(root: Id, n: Node): int { if n.id == root then -1 else BucketIndex(root, n.id) }

  lemma {:induction false} Levels(root: Id, k: int, buckets: seq<set<Node>>)
    requires Placed(root, k, buckets)
    ensures forall n <- AllNodes(buckets) :: 0 <= Level(root, n) < WIDTH && n in buckets[Level(root, n)]
    ensures forall i: nat, n | i < WIDTH && n in buckets[i] :: n in AllNodes(buckets) && Level(root, n) == i
  {
    hide BucketIndex, AllNodes;
    forall n <- AllNodes(buckets) ensures n.id != root && n in buckets[BucketIndex(root, n.id)] {
      NodeIsInItsBucket(root, k, buckets, n);
    }
    forall i: nat, n: Node | i < WIDTH && n in buckets[i] ensures n in AllNodes(buckets) && Level(root, n) == i {
      assert Proper(root, k, buckets[i], i);
      NodeIsInItsBucket(root, k, buckets, n);
    }
  }

  lemma {:induction false} EmptyBucket(buckets: seq<set<Node>>, nodes: set<Node>, root: Id, i: nat)
    requires i < |buckets| && forall n <- buckets[i] :: n in nodes && Level(root, n) == i
    ensures |buckets[i]| == 0 || exists n <- nodes :: Level(root, n) == i
  {
    hide Level;
    if buckets[i] != {} {
      var n :| n in buckets[i];
      assert n in nodes;
    }
  }

  lemma {:induction false} UpperLevelIsCloser(root: Id, target: Id, a: Node, b: Node)
    requires 0 <= Level(root, b) < Level(root, a) <= Start(root, target)
    ensures Distance(a.id, target) < Distance(b.id, target)
  {
    hide BucketIndex, Distance, Start;
    UpperBucketIsCloser(root, target, a.id, b.id);
  }

  /** The result of a search from the target's bucket down: no matching node of these
      buckets is left out but for nodes at or above its own. */
  ghost predicate SearchedDown(root: Id, nodes: set<Node>, k: nat, target: Id, filter: Node -> bool, ret: seq<Node>)
  {
    && |ret| <= k && (forall i, j | 0 <= i < j < |ret| :: ret[i] != ret[j])
    && (forall n <- ret :: n in nodes && filter(n) && Level(root, n) <= Start(root, target))
    && (forall n <- nodes | filter(n) && n !in ret && Level(root, n) <= Start(root, target) ::
      |ret| == k && forall m <- ret :: Level(root, n) <= Level(root, m))
  }

  /** Where the search stands: everything that matches in the buckets above `bi`, up to
      the target's, from the top down. */
  ghost predicate Scanned(root: Id, nodes: set<Node>, target: Id, filter: Node -> bool, bi: int, ret: seq<Node>)
  {
    && (forall i, j | 0 <= i < j < |ret| :: ret[i] != ret[j] && Level(root, ret[i]) >= Level(root, ret[j]))
    && (forall n <- ret :: n in nodes && filter(n) && bi < Level(root, n) <= Start(root, target))
    && (forall n <- nodes | filter(n) && bi < Level(root, n) <= Start(root, target) :: n in ret)
  }

  lemma {:induction false} ScanStart(root: Id, nodes: set<Node>, target: Id, filter: Node -> bool)
    ensures Scanned(root, nodes, target, filter, Start(root, target), [])
  {
    hide Level, Start;
  }

  lemma {:induction false} ScanNext(root: Id, nodes: set<Node>, target: Id, filter: Node -> bool, bi: int, ret: seq<Node>, bucket: set<Node>, ns: seq<Node>)
    requires Scanned(root, nodes, target, filter, bi, ret) && bi <= Start(root, target)
    requires (forall n <- bucket :: n in nodes && Level(root, n) == bi) && (forall n <- nodes | Level(root, n) == bi :: n in bucket)
    requires (forall n <- ns :: n in bucket && filter(n)) && (forall n <- bucket | filter(n) :: n in ns)
    requires forall i, j | 0 <= i < j < |ns| :: ns[i] != ns[j]
    ensures Scanned(root, nodes, target, filter, bi - 1, ret + ns)
  {
    hide Level, Start;
    var all := ret + ns;
    forall i, j | 0 <= i < j < |all| ensures all[i] != all[j] && Level(root, all[i]) >= Level(root, all[j]) {
      if i < |ret| { assert all[i] in ret; }
      if j >= |ret| { assert all[j] in ns; }
      if i >= |ret| { assert all[i] in ns; }
    }
  }

  /** The search ends when all buckets are done or enough was found, and is cut then. */
  lemma {:induction false} ScanEnd(root: Id, nodes: set<Node>, k: nat, target: Id, filter: Node -> bool, bi: int, ret: seq<Node>)
    requires Scanned(root, nodes, target, filter, bi, ret) && (bi < 0 || |ret| >= k) && forall n <- nodes :: Level(root, n) >= 0
    ensures SearchedDown(root, nodes, k, target, filter, if |ret| > k then ret[..k] else ret)
  {
    hide Level, Start;
    var r := if |ret| > k then ret[..k] else ret;
    assert forall i | 0 <= i < |r| :: r[i] == ret[i];
    forall n <- nodes | filter(n) && n !in r && Level(root, n) <= Start(root, target)
      ensures |r| == k && forall m <- r :: Level(root, n) <= Level(root, m)
    {
      if n in ret {
        var j :| 0 <= j < |ret| && ret[j] == n;
        if j < |r| { assert r[j] == n; }
      }
    }
  }

  /** A node left out of a bucket looked at is no higher than any returned, and strictly
      farther when it is lower. */
  lemma {:induction false} SearchedLower(root: Id, nodes: set<Node>, k: nat, target: Id, filter: Node -> bool, ret: seq<Node>)
    requires SearchedDown(root, nodes, k, target, filter, ret) && forall n <- nodes :: Level(root, n) >= 0
    ensures forall n, m | n in nodes && filter(n) && n !in ret && Level(root, n) <= Start(root, target) && m in ret ::
      Level(root, n) == Level(root, m) || Distance(m.id, target) < Distance(n.id, target)
  {
    hide Level, Start, Distance;
    forall n, m | n in nodes && filter(n) && n !in ret && Level(root, n) <= Start(root, target) && m in ret && Level(root, n) != Level(root, m)
      ensures Distance(m.id, target) < Distance(n.id, target)
    {
      UpperLevelIsCloser(root, target, m, n);
    }
  }

  /** The matching nodes in buckets above the target's, which the search never looks at. */
  ghost function NodesAbove(root: Id, nodes: set<Node>, target: Id, filter: Node -> bool): set<Node>
  {
    set n <- nodes | filter(n) && Level(root, n) > Start(root, target)
  }

  /** The matching nodes in the target's own bucket. */
  ghost function NodesBeside(root: Id, nodes: set<Node>, target: Id, filter: Node -> bool): set<Node>
  {
    set n <- nodes | filter(n) && Level(root, n) == Start(root, target)
  }

  /** A result without a node is right when it is full and all in it are closer. */
  ghost predicate Beaten(ret: seq<Node>, k: nat, target: Id, n: Node)
  {
    |ret| == k && forall m <- ret :: Distance(m.id, target) < Distance(n.id, target)
  }

  /** Every node of the target's own bucket is strictly closer to it than every node of
      the buckets above. */
  lemma {:induction false} OwnBucketIsCloser(root: Id, target: Id, a: Id, b: Id)
    requires a != root && b != root && BucketIndex(root, a) == Start(root, target) < BucketIndex(root, b)
    ensures Distance(a, target) < Distance(b, target)
  {
    hide Distance, BitLen;
    assert target != root;
    LongerPrefixIsCloser(target, a, b, Start(root, target));
  }

  lemma {:induction false} Distinct(ret: seq<Node>)
    requires forall i, j | 0 <= i < j < |ret| :: ret[i] != ret[j]
    ensures |(set n <- ret)| == |ret|
  {
    if ret != [] {
      var last := |ret| - 1;
      Distinct(ret[..last]);
      assert (set n <- ret) == (set n <- ret[..last]) + {ret[last]};
    }
  }

  /** With enough nodes in the target's bucket the result is from there alone. */
  lemma {:induction false} EnoughBeside(root: Id, nodes: set<Node>, k: nat, target: Id, filter: Node -> bool, ret: seq<Node>)
    requires SearchedDown(root, nodes, k, target, filter, ret) && |NodesBeside(root, nodes, target, filter)| >= k
    ensures |ret| == k && forall m <- ret :: Level(root, m) == Start(root, target)
  {
    hide Level, Start;
    var own, all := NodesBeside(root, nodes, target, filter), (set n <- ret);
    Distinct(ret);
    if m :| m in ret && m !in own {
      assert own + {m} <= all;
      SubsetSize(own + {m}, all);
    } else if |ret| < k {
      assert own <= all;
      SubsetSize(own, all);
    }
  }

  /** With too few, a full result holds a node of a bucket below. */
  lemma {:induction false} TooFewBeside(root: Id, nodes: set<Node>, k: nat, target: Id, filter: Node -> bool, ret: seq<Node>) returns (m: Node)
    requires SearchedDown(root, nodes, k, target, filter, ret) && |NodesBeside(root, nodes, target, filter)| < k == |ret|
    ensures m in ret && Level(root, m) < Start(root, target)
  {
    hide Level, Start;
    var own, all := NodesBeside(root, nodes, target, filter), (set n <- ret);
    Distinct(ret);
    if all <= own { SubsetSize(all, own); }
    m :| m in all && m !in own;
  }

  /** When leaving out the nodes above the target's bucket is right. */
  lemma {:induction false} SearchIsRight(root: Id, nodes: set<Node>, k: nat, target: Id, filter: Node -> bool, ret: seq<Node>)
    requires SearchedDown(root, nodes, k, target, filter, ret) && forall n <- nodes :: Level(root, n) >= 0
    ensures (forall n <- NodesAbove(root, nodes, target, filter) :: Beaten(ret, k, target, n))
      <==> NodesAbove(root, nodes, target, filter) == {} || |NodesBeside(root, nodes, target, filter)| >= k
  {
    hide BucketIndex, Start, Distance;
    var above := NodesAbove(root, nodes, target, filter);
    if |NodesBeside(root, nodes, target, filter)| >= k {
      EnoughBeside(root, nodes, k, target, filter, ret);
      forall n, m | n in above && m in ret ensures Distance(m.id, target) < Distance(n.id, target) {
        OwnBucketIsCloser(root, target, m.id, n.id);
      }
    } else if n :| n in above {
      if |ret| == k {
        var m := TooFewBeside(root, nodes, k, target, filter, ret);
        SkippedBucketIsCloser(root, target, n.id, m.id);
      }
    }
  }

  lemma {:induction false} FlippedBit(root: Id, i: nat)
    requires i < WIDTH
    ensures root[i := !root[i]] != root && BucketIndex(root, root[i := !root[i]]) == i
  {
    var id: Id := root[i := !root[i]];
    assert Diverge(id, root, i);
    DivergeOnce(id, root, BucketIndex(root, id), i);
  }

  lemma {:induction false} OnlyBelow(root: Id, near: Node, far: Node, target: Id, filter: Node -> bool, ret: seq<Node>)
    requires SearchedDown(root, {near, far}, 1, target, filter, ret) && filter(far)
    requires Level(root, far) <= Start(root, target) < Level(root, near)
    ensures ret == [far]
  {
    hide Level, Start;
    assert ret != [] ==> ret[0] in ret;
  }

  /** A table of a node in the bucket above the target's and one in the bucket below. */
  method TwoNodes(root: Id) returns (table: Table, near: Node, far: Node)
    ensures fresh(table) && table.Valid() && table.Nodes() == {near, far} && table.k == 8 && table.rootID == root
    ensures far.id == root[0 := !root[0]] && near.id == root[2 := !root[2]]
  {
    hide BucketIndex, Distance, AllNodes, Placed, Indexed;
    FlippedBit(root, 0);
    FlippedBit(root, 2);
    table := new Table(root, 8);
    far := new Node("far", root[0 := !root[0]]);
    near := new Node("near", root[2 := !root[2]]);
    assert far.id[0] != near.id[0] && Level(root, far) == 0 && Level(root, near) == 2;
    table.NoneAt(0);
    assert table.Nodes() == {} && BucketIndex(table.rootID, far.id) == 0;
    var added := table.AddNode(far);
    table.NoneAt(2);
    assert BucketIndex(table.rootID, near.id) == 2;
    added := table.AddNode(near);
  }

  /** A search for one node returns the one below though the one above is closer. */
  method SearchSkipsCloser(root: Id) returns (table: Table, near: Node, far: Node, target: Id, ret: seq<Node>)
    ensures fresh(table) && table.Valid() && near in table.Nodes() && table.k == 8
    ensures ret == [far] && Distance(near.id, target) < Distance(far.id, target)
  {
    hide BucketIndex, Distance, AllNodes, Placed, Indexed, SearchedDown;
    table, near, far := TwoNodes(root);
    target := root[1 := !root[1]];
    FlippedBit(root, 0);
    FlippedBit(root, 1);
    FlippedBit(root, 2);
    ret := table.ClosestNodes(1, target, _ => true);
    OnlyBelow(root, near, far, target, _ => true, ret);
    SkippedBucketIsCloser(root, target, near.id, far.id);
  }
}
