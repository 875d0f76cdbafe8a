/** The dispatcher that decides which tracker announce to start next: a table of
    announces, counters of the running ones, and the best announce of each tracker. */
module Announce {
  import opened Arithmetic
  import opened Lexical
  import opened Options

  /** Hashes and addresses stand for their rank in the order the tables use. */
  datatype Key = Key(infohash: nat, url: nat)

  datatype Event = NoEvent | Completed | Started | Stopped

  datatype TorrentInput = TorrentInput(needData: bool, wantPeers: bool, hasActiveWebseedRequests: bool)

  /** What is known of an announce; `time` is when it is due. */
  datatype Input = Input(
    torrent: Option<TorrentInput>, event: Event, time: int, lastAnnounceFailed: bool,
    infohashActive: nat, overdue: bool, active: bool)
  {
    function WantPeers(): bool { torrent.Some? && torrent.value.wantPeers }

    function NeedData(): bool { torrent.Some? && torrent.value.needData }

    function Webseeds(): bool { torrent.Some? && torrent.value.hasActiveWebseedRequests }
  }

  function EventOrdering(e: Event): int
  {
    match e
    case Started => -4
    case Stopped => -3
    case Completed => -2
    case NoEvent => -1
  }

  function Stage0(a: Input, b: Input): seq<int> { [CompareBool(a.active, b.active), -CompareBool(a.overdue, b.overdue)] }

  function Stage2(a: Input, b: Input): seq<int>
  {
    [Compare(a.infohashActive, b.infohashActive),
     -CompareBool(a.torrent.Some?, b.torrent.Some?),
     -CompareBool(a.WantPeers(), b.WantPeers()),
     -CompareBool(a.NeedData(), b.NeedData()),
     CompareBool(a.Webseeds(), b.Webseeds()),
     Compare(EventOrdering(a.event), EventOrdering(b.event)),
     Compare(a.time, b.time)]
  }

  /** Which of two announces to prefer: below zero for the first. */
  function CompareNextAnnounce(a: Input, b: Input): int
  {
    var ret := Or(Stage0(a, b));
    if ret != 0 then ret
    else
      var whenCmp := Compare(a.time, b.time);
      if !a.overdue && whenCmp != 0 then whenCmp else Or(Stage2(a, b))
  }

  function AnnounceIndexCompare(k: Key, a: Input, j: Key, b: Input): int
  {
    Or([Compare(k.url, j.url), CompareNextAnnounce(a, b), Compare(k.infohash, j.infohash)])
  }

  function CompareKeys(k: Key, j: Key): int { Or([Compare(k.infohash, j.infohash), Compare(k.url, j.url)]) }

  /** The best announce of a tracker, and how many announces run there. */
  datatype Head = Head(requests: nat, key: Key, input: Input)

  function CompareHeads(a: Head, b: Head): int
  {
    Or([Compare(a.requests, b.requests), CompareNextAnnounce(a.input, b.input), CompareKeys(a.key, b.key)])
  }

  // ---- the orders are total

  function Weight0(a: Input): seq<int> { [Bit(a.active), Bit(!a.overdue)] }

  function Weight1(a: Input): seq<int> { [if a.overdue then 0 else a.time] }

  function Weight2(a: Input): seq<int>
  {
    [a.infohashActive, Bit(a.torrent.None?), Bit(!a.WantPeers()), Bit(!a.NeedData()), Bit(a.Webseeds()),
     EventOrdering(a.event), a.time]
  }

  /** What an announce weighs, most significant first. */
  function Weight(a: Input): seq<int> { Weight0(a) + (Weight1(a) + Weight2(a)) }

  lemma {:induction false} StagesAreLexical(a: Input, b: Input)
    ensures Or(Stage0(a, b)) == Sign(Weight0(a), Weight0(b))
    ensures Or(Stage2(a, b)) == Sign(Weight2(a), Weight2(b))
    ensures |Weight0(a)| == |Weight0(b)| && |Weight1(a)| == |Weight1(b)| && |Weight2(a)| == |Weight2(b)|
    ensures Weight0(a) == Weight0(b) ==> a.overdue == b.overdue
  {
    assert Weight0(a)[1] == Bit(!a.overdue) && Weight0(b)[1] == Bit(!b.overdue);
    hide Or, Sign;
    OrIsLexical(Stage0(a, b), Weight0(a), Weight0(b));
    OrIsLexical(Stage2(a, b), Weight2(a), Weight2(b));
  }

  lemma {:induction false} TimeIsLexical(a: Input, b: Input)
    requires a.overdue == b.overdue
    ensures (if a.overdue then 0 else Compare(a.time, b.time)) == Sign(Weight1(a), Weight1(b))
  {
    assert Weight1(a)[0] == (if a.overdue then 0 else a.time) && Weight1(b)[0] == if b.overdue then 0 else b.time;
  }

  /** The comparison of two announces is a comparison of weights. */
  lemma {:induction false} CompareIsLexical(a: Input, b: Input)
    ensures |Weight(a)| == |Weight(b)| && CompareNextAnnounce(a, b) == Sign(Weight(a), Weight(b))
  {
    StagesAreLexical(a, b);
    SignConcat(Weight0(a), Weight0(b), Weight1(a) + Weight2(a), Weight1(b) + Weight2(b));
    SignConcat(Weight1(a), Weight1(b), Weight2(a), Weight2(b));
    if a.overdue == b.overdue { TimeIsLexical(a, b); }
    hide Or, Stage0, Stage2, Weight0, Weight1, Weight2, Compare, Lex;
  }

  lemma {:induction false} Or3(x: int, y: int, z: int)
    ensures Or([x, y, z]) == if x != 0 then x else if y != 0 then y else z
  {
    assert [x, y, z][1..] == [y, z] && [y, z][1..] == [z] && Or([z]) == z;
  }

  lemma {:induction false} Or2(x: int, y: int)
    ensures Or([x, y]) == if x != 0 then x else y
  {
    assert [x, y][1..] == [y] && Or([y]) == y;
  }

  function Record(k: Key, a: Input): seq<int> { [k.url as int] + (Weight(a) + [k.infohash as int]) }

  lemma {:induction false} One(x: int, y: int)
    ensures Compare(x, y) == Sign([x], [y])
  {
    assert [x][0] == x && [y][0] == y;
  }

  lemma {:induction false} IndexIsLexical(k: Key, a: Input, j: Key, b: Input)
    ensures |Record(k, a)| == |Record(j, b)| && AnnounceIndexCompare(k, a, j, b) == Sign(Record(k, a), Record(j, b))
  {
    CompareIsLexical(a, b);
    SignConcat([k.url as int], [j.url as int], Weight(a) + [k.infohash as int], Weight(b) + [j.infohash as int]);
    SignConcat(Weight(a), Weight(b), [k.infohash as int], [j.infohash as int]);
    One(k.url, j.url);
    One(k.infohash, j.infohash);
    Or3(Compare(k.url, j.url), CompareNextAnnounce(a, b), Compare(k.infohash, j.infohash));
    hide Or, Weight, CompareNextAnnounce, Lex;
  }

  /** The index puts `k` before `j`. */
  predicate Before(k: Key, a: Input, j: Key, b: Input) { AnnounceIndexCompare(k, a, j, b) < 0 }

  lemma {:induction false} SignIsOrder(a: seq<int>, b: seq<int>, c: seq<int>)
    requires |a| == |b| == |c|
    ensures Sign(a, b) == -Sign(b, a)
    ensures Sign(a, b) == 0 <==> a == b
    ensures Sign(a, b) < 0 && Sign(b, c) < 0 ==> Sign(a, c) < 0
  {
    LexTotal(a, b);
    LexTotal(a, c);
    if Sign(a, b) < 0 && Sign(b, c) < 0 { LexTransitive(a, b, c); }
  }

  /** The index is a total order on announces of different keys. */
  lemma {:induction false} BeforeIsTotalOrder(k: Key, a: Input, j: Key, b: Input, i: Key, c: Input)
    ensures k != j ==> (Before(k, a, j, b) <==> !Before(j, b, k, a))
    ensures !Before(k, a, k, a)
    ensures Before(k, a, j, b) && Before(j, b, i, c) ==> Before(k, a, i, c)
  {
    IndexIsLexical(k, a, j, b);
    IndexIsLexical(j, b, k, a);
    IndexIsLexical(j, b, i, c);
    IndexIsLexical(k, a, i, c);
    IndexIsLexical(k, a, k, a);
    SignIsOrder(Record(k, a), Record(j, b), Record(i, c));
    SignIsOrder(Record(k, a), Record(k, a), Record(k, a));
    assert Record(k, a)[0] == k.url && Record(j, b)[0] == j.url;
    assert Record(k, a)[|Record(k, a)| - 1] == k.infohash && Record(j, b)[|Record(j, b)| - 1] == j.infohash;
    hide AnnounceIndexCompare, Record, Sign;
  }

  /** Running announces come last: behind one of them, all run. */
  lemma {:induction false} ActiveLast(k: Key, a: Input, j: Key, b: Input)
    requires k.url == j.url && Before(k, a, j, b) && a.active
    ensures b.active
  {
    Or3(Compare(k.url, j.url), CompareNextAnnounce(a, b), Compare(k.infohash, j.infohash));
    FlagsFirst(a, b);
    hide CompareNextAnnounce, Or;
  }

  /** Among announces alike in that, those that are due come first. */
  lemma {:induction false} DueFirst(k: Key, a: Input, j: Key, b: Input)
    requires k.url == j.url && Before(k, a, j, b) && a.active == b.active && b.overdue
    ensures a.overdue
  {
    Or3(Compare(k.url, j.url), CompareNextAnnounce(a, b), Compare(k.infohash, j.infohash));
    FlagsFirst(a, b);
    hide CompareNextAnnounce, Or;
  }

  lemma {:induction false} FlagsFirst(a: Input, b: Input)
    requires CompareNextAnnounce(a, b) <= 0
    ensures a.active ==> b.active
    ensures a.active == b.active && b.overdue ==> a.overdue
  {
    Or2(CompareBool(a.active, b.active), -CompareBool(a.overdue, b.overdue));
    assert Stage0(a, b) == [CompareBool(a.active, b.active), -CompareBool(a.overdue, b.overdue)];
    hide Or, Stage2, Stage0;
  }

  function HeadRecord(h: Head): seq<int> { [h.requests as int] + (Weight(h.input) + [h.key.infohash as int, h.key.url as int]) }

  lemma {:induction false} HeadsAreLexical(g: Head, h: Head)
    ensures |HeadRecord(g)| == |HeadRecord(h)| && CompareHeads(g, h) == Sign(HeadRecord(g), HeadRecord(h))
  {
    CompareIsLexical(g.input, h.input);
    var k, j := [g.key.infohash as int, g.key.url as int], [h.key.infohash as int, h.key.url as int];
    OrIsLexical([Compare(g.key.infohash, h.key.infohash), Compare(g.key.url, h.key.url)], k, j);
    SignConcat([g.requests as int], [h.requests as int], Weight(g.input) + k, Weight(h.input) + j);
    SignConcat(Weight(g.input), Weight(h.input), k, j);
    One(g.requests, h.requests);
    Or3(Compare(g.requests, h.requests), CompareNextAnnounce(g.input, h.input), CompareKeys(g.key, h.key));
    hide Or, Weight, CompareNextAnnounce, Lex;
  }

  lemma {:induction false} HeadsAreOrdered(g: Head, h: Head, f: Head)
    ensures CompareHeads(g, h) == -CompareHeads(h, g)
    ensures CompareHeads(g, h) == 0 ==> g.key == h.key
    ensures CompareHeads(g, h) <= 0 && CompareHeads(h, f) <= 0 ==> CompareHeads(g, f) <= 0
  {
    HeadsAreLexical(g, h);
    HeadsAreLexical(h, g);
    HeadsAreLexical(h, f);
    HeadsAreLexical(g, f);
    SignIsOrder(HeadRecord(g), HeadRecord(h), HeadRecord(f));
    SignIsOrder(HeadRecord(h), HeadRecord(f), HeadRecord(f));
    SignIsOrder(HeadRecord(g), HeadRecord(f), HeadRecord(f));
    var n := |HeadRecord(g)|;
    assert HeadRecord(g)[n - 1] == g.key.url && HeadRecord(h)[n - 1] == h.key.url;
    assert HeadRecord(g)[n - 2] == g.key.infohash && HeadRecord(h)[n - 2] == h.key.infohash;
    hide CompareHeads, HeadRecord, Sign;
  }

  /** The least head has the fewest running announces, and runs itself only when all
      heads with as few do. */
  lemma {:induction false} LeastHead(g: Head, h: Head)
    requires CompareHeads(g, h) <= 0
    ensures g.requests <= h.requests
    ensures g.requests == h.requests && g.input.active ==> h.input.active
    ensures g.requests == h.requests && g.input.active == h.input.active && h.input.overdue ==> g.input.overdue
  {
    Or3(Compare(g.requests, h.requests), CompareNextAnnounce(g.input, h.input), CompareKeys(g.key, h.key));
    if g.requests == h.requests && CompareNextAnnounce(g.input, h.input) <= 0 { FlagsFirst(g.input, h.input); }
    hide CompareNextAnnounce, Or;
  }

  /** At one tracker the order of heads is the order of the index. */
  lemma {:induction false} BeforeAsHeads(requests: nat, k: Key, a: Input, j: Key, b: Input)
    requires k.url == j.url && Before(k, a, j, b)
    ensures CompareHeads(Head(requests, k, a), Head(requests, j, b)) < 0
  {
    Or3(Compare(k.url, j.url), CompareNextAnnounce(a, b), Compare(k.infohash, j.infohash));
    Or3(Compare(requests, requests), CompareNextAnnounce(a, b), CompareKeys(k, j));
    Or2(Compare(k.infohash, j.infohash), Compare(k.url, j.url));
    hide CompareNextAnnounce, Or;
  }
}
