/** Work stealing on request counts: when a steal is allowed, and why any
    sequence of steals across any set of connections ends. */
module Stealing {
  import opened Sets

  /** May a connection with `thief` requests take one from a connection with
      `victim` requests? Times are of the last useful chunk. */
  predicate MaySteal(thief: nat, victim: nat, thiefLast: int, victimLast: int)
  {
    var diff := thief + 1 - (victim - 1);
    !(diff > 1 || (diff == 1 && !(thiefLast > victimLast)))
  }

  datatype Steal = Steal(thief: nat, victim: nat)

  ghost predicate Allowed(counts: seq<nat>, last: seq<int>, s: Steal)
    requires |counts| == |last|
  {
    && s.thief < |counts| && s.victim < |counts| && s.thief != s.victim
    && counts[s.victim] >= 1
    && MaySteal(counts[s.thief], counts[s.victim], last[s.thief], last[s.victim])
  }

  ghost function After(counts: seq<nat>, s: Steal): seq<nat>
    requires s.thief < |counts| && s.victim < |counts| && s.thief != s.victim
    requires counts[s.victim] >= 1
  {
    counts[s.thief := counts[s.thief] + 1][s.victim := counts[s.victim] - 1]
  }

  /** Every steal of the run was allowed when it happened. */
  ghost predicate StealRun(counts: seq<nat>, last: seq<int>, run: seq<Steal>)
    requires |counts| == |last|
    decreases |run|
  {
    run == [] || (Allowed(counts, last, run[0]) && StealRun(After(counts, run[0]), last, run[1..]))
  }

  /** The counts a run ends with. */
  ghost function AfterAll(counts: seq<nat>, last: seq<int>, run: seq<Steal>): (end: seq<nat>)
    requires |counts| == |last| && StealRun(counts, last, run)
    ensures |end| == |counts|
    decreases |run|
  {
    if run == [] then counts else AfterAll(After(counts, run[0]), last, run[1..])
  }

  lemma {:induction false} StealRunStart(counts: seq<nat>, last: seq<int>)
    requires |counts| == |last|
    ensures StealRun(counts, last, []) && AfterAll(counts, last, []) == counts
  {
  }

  lemma {:induction false} StealRunNext(counts: seq<nat>, last: seq<int>, run: seq<Steal>, s: Steal)
    requires |counts| == |last| && StealRun(counts, last, run) && Allowed(AfterAll(counts, last, run), last, s)
    ensures StealRun(counts, last, run + [s])
    ensures AfterAll(counts, last, run + [s]) == After(AfterAll(counts, last, run), s)
    decreases |run|
  {
    if run == [] {
      assert (run + [s])[1..] == [];
    } else {
      assert (run + [s])[1..] == run[1..] + [s];
      StealRunNext(After(counts, run[0]), last, run[1..], s);
    }
  }

  // ---- the measure

  ghost function Sum(s: seq<int>): int { if s == [] then 0 else s[0] + Sum(s[1..]) }

  lemma {:induction false} SumUpdate(s: seq<int>, i: nat, v: int)
    requires i < |s|
    ensures Sum(s[i := v]) == Sum(s) - s[i] + v
  {
    if i == 0 {
      assert s[0 := v][1..] == s[1..];
    } else {
      assert s[i := v][1..] == s[1..][i - 1 := v];
      SumUpdate(s[1..], i - 1, v);
    }
  }

  lemma {:induction false} SumBounds(s: seq<int>, hi: seq<int>)
    requires |s| == |hi| && forall i | 0 <= i < |s| :: 0 <= s[i] <= hi[i]
    ensures 0 <= Sum(s) <= Sum(hi)
  {
    if s != [] { SumBounds(s[1..], hi[1..]); }
  }

  lemma {:induction false} SumScaled(s: seq<int>, k: int, scaled: seq<int>)
    requires |s| == |scaled| && forall i | 0 <= i < |s| :: scaled[i] == k * s[i]
    ensures Sum(scaled) == k * Sum(s)
  {
    if s != [] { SumScaled(s[1..], k, scaled[1..]); }
  }

  ghost function Squares(counts: seq<nat>): seq<int> { seq(|counts|, i requires 0 <= i < |counts| => counts[i] * counts[i]) }

  /** How many connections got a useful chunk more recently than connection `i`. */
  ghost function Staleness(last: seq<int>, i: nat): nat
    requires i < |last|
  {
    |NewerThan(last, i)|
  }

  ghost function NewerThan(last: seq<int>, i: nat): set<nat>
    requires i < |last|
  {
    set j: nat | j < |last| && last[j] > last[i]
  }

  ghost function Weights(counts: seq<nat>, last: seq<int>): seq<int>
    requires |counts| == |last|
  {
    seq(|counts|, i requires 0 <= i < |counts| => Staleness(last, i) * counts[i])
  }

  /** No weight sum can exceed this, and a steal does not change it. */
  ghost function WeightLimit(counts: seq<nat>): int { |counts| * Sum(counts) }

  /** Lexicographic in the sum of squares and then the weights, as one number. */
  ghost function Potential(counts: seq<nat>, last: seq<int>): int
    requires |counts| == |last|
  {
    Sum(Squares(counts)) * (WeightLimit(counts) + 1) + Sum(Weights(counts, last))
  }

  lemma {:induction false} StalenessOrder(last: seq<int>, i: nat, j: nat)
    requires i < |last| && j < |last| && last[i] > last[j]
    ensures Staleness(last, i) < Staleness(last, j)
  {
    assert NewerThan(last, i) + {i} <= NewerThan(last, j);
    SubsetSize(NewerThan(last, i) + {i}, NewerThan(last, j));
  }

  lemma {:induction false} StalenessBound(last: seq<int>, i: nat)
    requires i < |last|
    ensures Staleness(last, i) <= |last|
  {
    SubsetSize(NewerThan(last, i), Below(|last|));
  }

  lemma {:induction false} WeightsWithinLimit(counts: seq<nat>, last: seq<int>)
    requires |counts| == |last|
    ensures 0 <= Sum(Weights(counts, last)) <= WeightLimit(counts)
  {
    var hi := seq(|counts|, i requires 0 <= i < |counts| => |counts| * counts[i]);
    forall i | 0 <= i < |counts| ensures 0 <= Weights(counts, last)[i] <= hi[i] {
      StalenessBound(last, i);
      Mul(Staleness(last, i), |counts|, counts[i]);
    }
    SumBounds(Weights(counts, last), hi);
    SumScaled(counts, |counts|, hi);
  }

  lemma {:induction false} Mul(a: int, b: int, c: nat)
    requires 0 <= a <= b
    ensures 0 <= a * c <= b * c
  {
  }

  lemma {:induction false} SquaresNonNegative(counts: seq<nat>)
    ensures Sum(Squares(counts)) >= 0
  {
    forall i | 0 <= i < |counts| ensures Squares(counts)[i] >= 0 {
      Mul(counts[i], counts[i], counts[i]);
    }
    SumBounds(Squares(counts), Squares(counts));
  }

  /** Two sequences that differ in two places only. */
  lemma {:induction false} SumTwoChanges(a: seq<int>, b: seq<int>, t: nat, v: nat)
    requires |a| == |b| && t < |a| && v < |a| && t != v
    requires forall i | 0 <= i < |a| && i != t && i != v :: a[i] == b[i]
    ensures Sum(b) == Sum(a) - a[t] - a[v] + b[t] + b[v]
  {
    SumUpdate(a, t, b[t]);
    SumUpdate(a[t := b[t]], v, b[v]);
    assert b == a[t := b[t]][v := b[v]];
  }

  lemma {:induction false} NextSquare(n: int)
    ensures (n + 1) * (n + 1) == n * n + 2 * n + 1
  {
  }

  lemma {:induction false} SquaresEffect(counts: seq<nat>, s: Steal)
    requires s.thief < |counts| && s.victim < |counts| && s.thief != s.victim && counts[s.victim] >= 1
    ensures Sum(Squares(After(counts, s))) == Sum(Squares(counts)) + 2 * counts[s.thief] - 2 * counts[s.victim] + 2
  {
    var next := After(counts, s);
    SumTwoChanges(Squares(counts), Squares(next), s.thief, s.victim);
    NextSquare(counts[s.thief]);
    NextSquare(counts[s.victim] - 1);
    assert Squares(next)[s.thief] == (counts[s.thief] + 1) * (counts[s.thief] + 1);
    assert Squares(next)[s.victim] == (counts[s.victim] - 1) * (counts[s.victim] - 1);
  }

  lemma {:induction false} WeightsEffect(counts: seq<nat>, last: seq<int>, s: Steal)
    requires |counts| == |last|
    requires s.thief < |counts| && s.victim < |counts| && s.thief != s.victim && counts[s.victim] >= 1
    ensures Sum(Weights(After(counts, s), last))
            == Sum(Weights(counts, last)) + Staleness(last, s.thief) - Staleness(last, s.victim)
  {
    var next := After(counts, s);
    var kt, kv := Staleness(last, s.thief), Staleness(last, s.victim);
    SumTwoChanges(Weights(counts, last), Weights(next, last), s.thief, s.victim);
    Distribute(kt, counts[s.thief]);
    Distribute(kv, counts[s.victim] - 1);
    assert Weights(next, last)[s.thief] == kt * (counts[s.thief] + 1);
    assert Weights(next, last)[s.victim] == kv * (counts[s.victim] - 1);
  }

  lemma {:induction false} Distribute(k: int, n: int)
    ensures k * (n + 1) == k * n + k
  {
  }

  lemma {:induction false} TotalKept(counts: seq<nat>, s: Steal)
    requires s.thief < |counts| && s.victim < |counts| && s.thief != s.victim && counts[s.victim] >= 1
    ensures Sum(After(counts, s)) == Sum(counts)
  {
    var mid: seq<nat> := counts[s.thief := counts[s.thief] + 1];
    SumUpdate(counts, s.thief, counts[s.thief] + 1);
    SumUpdate(mid, s.victim, counts[s.victim] - 1);
    assert After(counts, s) == mid[s.victim := counts[s.victim] - 1];
  }

  /** One steal: the total is kept, and either the squares drop, or they stay and
      the weights drop. */
  lemma {:induction false} StealEffect(counts: seq<nat>, last: seq<int>, s: Steal)
    requires |counts| == |last| && Allowed(counts, last, s)
    ensures Sum(After(counts, s)) == Sum(counts)
    ensures
      || Sum(Squares(After(counts, s))) < Sum(Squares(counts))
      || (Sum(Squares(After(counts, s))) == Sum(Squares(counts))
          && Sum(Weights(After(counts, s), last)) < Sum(Weights(counts, last)))
  {
    TotalKept(counts, s);
    SquaresEffect(counts, s);
    if counts[s.victim] == counts[s.thief] + 1 {
      WeightsEffect(counts, last, s);
      StalenessOrder(last, s.thief, s.victim);
    }
  }

  lemma {:induction false} PotentialDrops(counts: seq<nat>, last: seq<int>, s: Steal)
    requires |counts| == |last| && Allowed(counts, last, s)
    ensures 0 <= Potential(After(counts, s), last) < Potential(counts, last)
  {
    var next := After(counts, s);
    StealEffect(counts, last, s);
    WeightsWithinLimit(counts, last);
    WeightsWithinLimit(next, last);
    SquaresNonNegative(next);
    var limit := WeightLimit(counts);
    assert WeightLimit(next) == limit;
    Mul(0, Sum(Squares(next)), limit + 1);
    if Sum(Squares(next)) < Sum(Squares(counts)) {
      Mul(Sum(Squares(next)) + 1, Sum(Squares(counts)), limit + 1);
      assert (Sum(Squares(next)) + 1) * (limit + 1) == Sum(Squares(next)) * (limit + 1) + limit + 1;
    }
  }

  /** Main result: no run of steals, among any connections with fixed times, is
      longer than the potential it starts with. */
  lemma {:induction false} StealRunsEnd(counts: seq<nat>, last: seq<int>, run: seq<Steal>)
    requires |counts| == |last| && StealRun(counts, last, run)
    ensures |run| <= Potential(counts, last)
    decreases |run|
  {
    if run == [] {
      WeightsWithinLimit(counts, last);
      SquaresNonNegative(counts);
      Mul(0, Sum(Squares(counts)), WeightLimit(counts) + 1);
    } else {
      PotentialDrops(counts, last, run[0]);
      StealRunsEnd(After(counts, run[0]), last, run[1..]);
    }
  }

  /** When no steal is allowed any more the load is even: every two connections
      with requests to give differ by at most one. */
  lemma {:induction false} NoStealMeansEven(counts: seq<nat>, last: seq<int>, i: nat, j: nat)
    requires |counts| == |last| && i < |counts| && j < |counts|
    requires forall s: Steal :: !Allowed(counts, last, s)
    ensures counts[i] <= counts[j] + 1
    ensures counts[i] == counts[j] + 1 ==> last[i] >= last[j]
  {
    if i != j && counts[i] >= 1 {
      assert !Allowed(counts, last, Steal(j, i));
    }
  }
}
