/** The state of the announce dispatcher and its steps. Tables keep their derived
    tables up to date through triggers, which here are the calls they make. */
module Dispatcher {
  import opened Announce
  import opened Options

  const MAX_PER_TRACKER: nat := 2

  type Table = map<Key, Input>

  function Get(m: map<nat, nat>, x: nat): nat { if x in m then m[x] else 0 }

  function Active(data: Table): set<Key> { set k | k in data && data[k].active }

  function InfohashSet(s: set<Key>, ih: nat): set<Key> { set k | k in s && k.infohash == ih }

  function UrlSet(s: set<Key>, url: nat): set<Key> { set k | k in s && k.url == url }

  function OfInfohash(s: set<Key>, ih: nat): nat { |InfohashSet(s, ih)| }

  function OfUrl(s: set<Key>, url: nat): nat { |UrlSet(s, url)| }

  /** The count of an infohash is the number of its running announces. */
  ghost predicate InfohashesCounted(data: Table, counts: map<nat, nat>)
  {
    forall ih: nat :: Get(counts, ih) == OfInfohash(Active(data), ih) && (ih in counts ==> counts[ih] > 0)
  }

  /** So is the count of a tracker, and it stays within its limit. */
  ghost predicate TrackersCounted(data: Table, counts: map<nat, nat>)
  {
    forall url: nat :: Get(counts, url) == OfUrl(Active(data), url) <= MAX_PER_TRACKER && (url in counts ==> counts[url] > 0)
  }

  /** Every announce knows the count of its infohash. */
  ghost predicate Agree(data: Table, counts: map<nat, nat>)
  {
    forall k <- data :: data[k].infohashActive == Get(counts, k.infohash)
  }

  /** No announce of the same tracker comes before this one. */
  ghost predicate IsLeast(data: Table, k: Key)
  {
    k in data && forall j <- data | j.url == k.url && j != k :: Before(k, data[k], j, data[j])
  }

  ghost predicate HeadOk(data: Table, counts: map<nat, nat>, heads: map<nat, Head>, url: nat)
  {
    if url in heads then
      var k := heads[url].key;
      k.url == url && IsLeast(data, k) && heads[url] == Head(Get(counts, url), k, data[k])
    else
      forall k <- data :: k.url != url
  }

  ghost predicate HeadsOk(data: Table, counts: map<nat, nat>, heads: map<nat, Head>)
  {
    forall url: nat :: HeadOk(data, counts, heads, url)
  }

  // ---- what the steps do to the table

  function WithInfohash(data: Table, ih: nat, n: nat): Table
  {
    map k | k in data :: if k.infohash == ih then data[k].(infohashActive := n) else data[k]
  }

  function WithOverdue(data: Table, now: int): Table
  {
    map k | k in data :: data[k].(overdue := data[k].time <= now)
  }

  function Mapped(data: Table, keys: set<Key>, f: Input -> Input): Table
  {
    map k | k in data :: if k in keys then f(data[k]) else data[k]
  }

  lemma {:induction false} MappedNext(data: Table, keys: set<Key>, k: Key, f: Input -> Input)
    requires k in data && k !in keys
    ensures k in Mapped(data, keys, f) && Mapped(data, keys, f)[k] == data[k]
    ensures Mapped(data, keys + {k}, f) == Mapped(data, keys, f)[k := f(data[k])]
  {
  }

  lemma {:induction false} ToldIsMapped(data: Table, keys: set<Key>, ih: nat, n: nat)
    requires keys == set k | k in data && k.infohash == ih && data[k].infohashActive != n
    ensures Mapped(data, keys, (i: Input) => i.(infohashActive := n)) == WithInfohash(data, ih, n)
  {
  }

  lemma {:induction false} DueIsMapped(data: Table, keys: set<Key>, now: int)
    requires keys == set k | k in data && data[k].overdue != (data[k].time <= now)
    ensures Mapped(data, keys, (i: Input) => i.(overdue := i.time <= now)) == WithOverdue(data, now)
  {
  }

  lemma {:induction false} DueKeeps(data: Table, ihs: map<nat, nat>, trs: map<nat, nat>, now: int)
    requires InfohashesCounted(data, ihs) && TrackersCounted(data, trs) && Agree(data, ihs)
    ensures var after := WithOverdue(data, now);
      InfohashesCounted(after, ihs) && TrackersCounted(after, trs) && Agree(after, ihs)
  {
    ActiveUnchanged(data, 0, 0, now);
    hide Active, OfInfohash, OfUrl;
  }

  /** Announces that neither start nor end leave the counts alone. */
  lemma {:induction false} QuietKeeps(data: Table, ihs: map<nat, nat>, trs: map<nat, nat>, k: Key, i: Input)
    requires InfohashesCounted(data, ihs) && TrackersCounted(data, trs) && Agree(data, ihs)
    requires i.infohashActive == Get(ihs, k.infohash) && i.active == (k in data && data[k].active)
    ensures InfohashesCounted(data[k := i], ihs) && TrackersCounted(data[k := i], trs) && Agree(data[k := i], ihs)
  {
    assert Active(data[k := i]) == Active(data);
    hide Active, OfInfohash, OfUrl;
  }

  function AfterStart(data: Table, k: Key, n: nat): Table
    requires k in data
  {
    WithInfohash(data[k := data[k].(active := true)], k.infohash, n)
  }

  function AfterFinish(data: Table, k: Key, torrent: Option<TorrentInput>, n: nat): Table
    requires k in data
  {
    WithInfohash(data, k.infohash, n)[k := data[k].(torrent := torrent, active := false, infohashActive := n)]
  }

  lemma {:induction false} ActiveUnchanged(data: Table, ih: nat, n: nat, now: int)
    ensures Active(WithInfohash(data, ih, n)) == Active(data)
    ensures Active(WithOverdue(data, now)) == Active(data)
  {
  }

  lemma {:induction false} ActiveSet(data: Table, k: Key, i: Input)
    ensures Active(data[k := i]) == if i.active then Active(data) + {k} else Active(data) - {k}
  {
  }

  lemma {:induction false} CountAdd(s: set<Key>, k: Key, x: nat)
    requires k !in s
    ensures OfInfohash(s + {k}, x) == OfInfohash(s, x) + if k.infohash == x then 1 else 0
    ensures OfUrl(s + {k}, x) == OfUrl(s, x) + if k.url == x then 1 else 0
  {
    SetsAdd(s, k, x);
    hide InfohashSet, UrlSet;
  }

  lemma {:induction false} SetsAdd(s: set<Key>, k: Key, x: nat)
    requires k !in s
    ensures InfohashSet(s + {k}, x) == if k.infohash == x then InfohashSet(s, x) + {k} else InfohashSet(s, x)
    ensures UrlSet(s + {k}, x) == if k.url == x then UrlSet(s, x) + {k} else UrlSet(s, x)
    ensures k !in InfohashSet(s, x) && k !in UrlSet(s, x)
  {
  }

  lemma {:induction false} CountRemove(s: set<Key>, k: Key, x: nat)
    requires k in s
    ensures OfInfohash(s - {k}, x) == OfInfohash(s, x) - if k.infohash == x then 1 else 0
    ensures OfUrl(s - {k}, x) == OfUrl(s, x) - if k.url == x then 1 else 0
  {
    assert s - {k} + {k} == s;
    CountAdd(s - {k}, k, x);
  }

  /** Changing one announce leaves the heads of other trackers right. */
  lemma {:induction false} OtherHeads(data: Table, counts: map<nat, nat>, heads: map<nat, Head>, k: Key, i: Input, url: nat)
    requires HeadOk(data, counts, heads, url) && url != k.url
    ensures HeadOk(data[k := i], counts, heads, url)
  {
  }

  lemma {:induction false} SameHead(data: Table, counts: map<nat, nat>, heads: map<nat, Head>, counts': map<nat, nat>, heads': map<nat, Head>, url: nat)
    requires HeadOk(data, counts, heads, url) && Get(counts, url) == Get(counts', url)
    requires (url in heads <==> url in heads') && (url in heads ==> heads[url] == heads'[url])
    ensures HeadOk(data, counts', heads', url)
  {
  }

  lemma {:induction false} NothingCounted()
    ensures InfohashesCounted(map[], map[]) && TrackersCounted(map[], map[])
  {
    forall x: nat ensures OfInfohash(Active(map[]), x) == 0 && OfUrl(Active(map[]), x) == 0 {
      assert InfohashSet(Active(map[]), x) == {} == UrlSet(Active(map[]), x);
    }
  }

  lemma {:induction false} AgreeAfter(data: Table, counts: map<nat, nat>, counts': map<nat, nat>, ih: nat, n: nat)
    requires Agree(data, counts) && Get(counts', ih) == n && forall x: nat | x != ih :: Get(counts', x) == Get(counts, x)
    ensures Agree(WithInfohash(data, ih, n), counts')
  {
  }

  lemma {:induction false} AgreeSet(data: Table, counts: map<nat, nat>, k: Key, i: Input)
    requires Agree(data, counts) && k in data && i.infohashActive == data[k].infohashActive
    ensures Agree(data[k := i], counts)
  {
  }

  /** An announce that starts is counted once for its infohash and once for its tracker. */
  lemma {:induction false} StartCounted(data: Table, ihs: map<nat, nat>, trs: map<nat, nat>, k: Key, n: nat, m: nat)
    requires InfohashesCounted(data, ihs) && TrackersCounted(data, trs) && k in data && !data[k].active
    requires n == Get(ihs, k.infohash) + 1 && m == Get(trs, k.url) + 1 <= MAX_PER_TRACKER
    ensures var after := AfterStart(data, k, n);
      InfohashesCounted(after, ihs[k.infohash := n]) && TrackersCounted(after, trs[k.url := m])
  {
    var started := data[k := data[k].(active := true)];
    ActiveSet(data, k, started[k]);
    ActiveUnchanged(started, k.infohash, n, 0);
    hide Active, OfInfohash, OfUrl, WithInfohash;
    assert k !in Active(data) by { NotActive(data, k); }
    forall x: nat { CountAdd(Active(data), k, x); }
  }

  lemma {:induction false} NotActive(data: Table, k: Key)
    ensures k in Active(data) <==> k in data && data[k].active
  {
  }

  /** And when it ends, uncounted. */
  lemma {:induction false} FinishCounted(data: Table, ihs: map<nat, nat>, trs: map<nat, nat>, k: Key, torrent: Option<TorrentInput>)
    requires InfohashesCounted(data, ihs) && TrackersCounted(data, trs) && k in data && data[k].active
    requires Get(ihs, k.infohash) > 0 && Get(trs, k.url) > 0
    ensures var n, m := Get(ihs, k.infohash) - 1, Get(trs, k.url) - 1;
      var after := AfterFinish(data, k, torrent, n);
      && InfohashesCounted(after, if n > 0 then ihs[k.infohash := n] else ihs - {k.infohash})
      && TrackersCounted(after, if m == 0 then trs - {k.url} else trs[k.url := m])
  {
    var n: nat := Get(ihs, k.infohash) - 1;
    var done := AfterFinish(data, k, torrent, n);
    assert Active(done) == Active(data) - {k} && k in Active(data) by {
      NotActive(data, k);
      ActiveUnchanged(data, k.infohash, n, 0);
      ActiveSet(WithInfohash(data, k.infohash, n), k, done[k]);
    }
    hide OfInfohash, OfUrl, Active, WithInfohash, AfterFinish;
    forall x: nat { CountRemove(Active(data), k, x); }
  }

  lemma {:induction false} SomethingCounted(data: Table, ihs: map<nat, nat>, trs: map<nat, nat>, k: Key)
    requires InfohashesCounted(data, ihs) && TrackersCounted(data, trs) && k in data && data[k].active
    ensures Get(ihs, k.infohash) > 0 && Get(trs, k.url) > 0
  {
    NotActive(data, k);
    hide Active, OfInfohash, OfUrl;
    CountRemove(Active(data), k, k.infohash);
    CountRemove(Active(data), k, k.url);
  }

  class AnnounceDispatcher {
    var announceData: Table
    var infohashAnnouncing: map<nat, nat>
    var trackerAnnouncing: map<nat, nat>
    var heads: map<nat, Head>

    ghost predicate Valid()
      reads this
    {
      && InfohashesCounted(announceData, infohashAnnouncing)
      && TrackersCounted(announceData, trackerAnnouncing)
      && Agree(announceData, infohashAnnouncing)
      && HeadsOk(announceData, trackerAnnouncing, heads)
    }

    constructor ()
      ensures Valid() && announceData == map[]
    {
      announceData, infohashAnnouncing, trackerAnnouncing, heads := map[], map[], map[], map[];
      new;
      NothingCounted();
    }

    /** The first announce of a tracker in the index. */
    method FirstOf(url: nat) returns (first: Option<Key>)
      ensures first.Some? ==> first.value.url == url && IsLeast(announceData, first.value)
      ensures first.None? ==> forall k <- announceData :: k.url != url
    {
      var rest := announceData.Keys;
      first := None;
      while rest != {}
        invariant rest <= announceData.Keys
        invariant first.None? ==> forall k <- announceData.Keys - rest :: k.url != url
        invariant first.Some? ==> first.value in announceData.Keys - rest && first.value.url == url
        invariant first.Some? ==> forall j <- announceData.Keys - rest | j.url == url && j != first.value ::
          Before(first.value, announceData[first.value], j, announceData[j])
        decreases rest
      {
        var k :| k in rest;
        rest := rest - {k};
        if k.url == url {
          if first.None? {
            first := Some(k);
          } else {
            forall j <- announceData {
              BeforeIsTotalOrder(k, announceData[k], first.value, announceData[first.value], j, announceData[j]);
            }
            hide Before;
            if Before(k, announceData[k], first.value, announceData[first.value]) { first := Some(k); }
          }
        }
      }
    }

    /** Brings the head of one tracker up to date. */
    method UpdateHead(url: nat)
      modifies this`heads
      ensures HeadOk(announceData, trackerAnnouncing, heads, url)
      ensures forall u: nat | u != url :: (u in heads <==> u in old(heads)) && (u in heads ==> heads[u] == old(heads)[u])
    {
      var first := FirstOf(url);
      if first.Some? {
        heads := heads[url := Head(if url in trackerAnnouncing then trackerAnnouncing[url] else 0, first.value, announceData[first.value])];
      } else {
        heads := heads - {url};
      }
    }

    /** Writes one announce of the table. */
    method UpdateData(key: Key, input: Input)
      requires HeadsOk(announceData, trackerAnnouncing, heads)
      modifies this`announceData, this`heads
      ensures announceData == old(announceData)[key := input] && HeadsOk(announceData, trackerAnnouncing, heads)
    {
      if key in announceData && announceData[key] == input {
        assert announceData == announceData[key := input];
        return;
      }
      ghost var was := heads;
      announceData := announceData[key := input];
      hide HeadOk;
      UpdateHead(key.url);
      forall url: nat | url != key.url
        ensures HeadOk(announceData, trackerAnnouncing, heads, url)
      {
        OtherHeads(old(announceData), trackerAnnouncing, was, key, input, url);
        SameHead(announceData, trackerAnnouncing, was, trackerAnnouncing, heads, url);
      }
    }

    /** Counts a tracker's announces anew. */
    method SetTrackerAnnouncing(url: nat, n: nat)
      requires HeadsOk(announceData, trackerAnnouncing, heads) && n <= MAX_PER_TRACKER
      modifies this`trackerAnnouncing, this`heads
      ensures HeadsOk(announceData, trackerAnnouncing, heads)
      ensures trackerAnnouncing == if n == 0 then old(trackerAnnouncing) - {url} else old(trackerAnnouncing)[url := n]
    {
      ghost var was, before := heads, trackerAnnouncing;
      trackerAnnouncing := trackerAnnouncing[url := n];
      UpdateHead(url);
      ghost var during := trackerAnnouncing;
      if n == 0 { trackerAnnouncing := trackerAnnouncing - {url}; }
      hide HeadOk;
      SameHead(announceData, during, heads, trackerAnnouncing, heads, url);
      forall u: nat | u != url { SameHead(announceData, before, was, trackerAnnouncing, heads, u); }
    }

    /** Rewrites some announces of the table, one by one. */
    method UpdateEach(keys: set<Key>, f: Input -> Input)
      requires HeadsOk(announceData, trackerAnnouncing, heads) && keys <= announceData.Keys
      modifies this`announceData, this`heads
      ensures HeadsOk(announceData, trackerAnnouncing, heads) && announceData == Mapped(old(announceData), keys, f)
    {
      hide HeadsOk;
      ghost var was := announceData;
      var rest := keys;
      while rest != {}
        invariant HeadsOk(announceData, trackerAnnouncing, heads) && rest <= keys
        invariant announceData == Mapped(was, keys - rest, f)
        modifies this`announceData, this`heads
        decreases rest
      {
        var k :| k in rest;
        MappedNext(was, keys - rest, k, f);
        assert keys - (rest - {k}) == (keys - rest) + {k};
        rest := rest - {k};
        UpdateData(k, f(announceData[k]));
      }
      assert keys - rest == keys;
    }

    /** Counts an infohash's announces anew, and tells all of them. */
    method SetInfohashAnnouncing(ih: nat, n: nat)
      requires HeadsOk(announceData, trackerAnnouncing, heads) && Agree(announceData, infohashAnnouncing)
      modifies this`infohashAnnouncing, this`announceData, this`heads
      ensures HeadsOk(announceData, trackerAnnouncing, heads)
      ensures infohashAnnouncing == if n > 0 then old(infohashAnnouncing)[ih := n] else old(infohashAnnouncing) - {ih}
      ensures announceData == WithInfohash(old(announceData), ih, n) && Agree(announceData, infohashAnnouncing)
    {
      infohashAnnouncing := if n > 0 then infohashAnnouncing[ih := n] else infohashAnnouncing - {ih};
      AgreeAfter(announceData, old(infohashAnnouncing), infohashAnnouncing, ih, n);
      var keys := set k | k in announceData && k.infohash == ih && announceData[k].infohashActive != n;
      ToldIsMapped(announceData, keys, ih, n);
      hide HeadsOk, Agree, WithInfohash, Mapped;
      UpdateEach(keys, (i: Input) => i.(infohashActive := n));
    }

    /** Marks every announce that has become due, and unmarks those that have not. */
    method UpdateOverdue(now: int)
      requires Valid()
      modifies this`announceData, this`heads
      ensures Valid() && announceData == WithOverdue(old(announceData), now)
    {
      var keys := set k | k in announceData && announceData[k].overdue != (announceData[k].time <= now);
      DueIsMapped(announceData, keys, now);
      DueKeeps(announceData, infohashAnnouncing, trackerAnnouncing, now);
      hide HeadsOk, Agree, WithOverdue, Mapped, InfohashesCounted, TrackersCounted;
      UpdateEach(keys, (i: Input) => i.(overdue := i.time <= now));
    }

    /** Starts an announce that does not run yet, at a tracker with room for it. */
    method StartAnnounce(key: Key)
      requires Valid() && key in announceData && !announceData[key].active
      requires Get(trackerAnnouncing, key.url) < MAX_PER_TRACKER
      modifies this
      ensures Valid()
      ensures announceData == AfterStart(old(announceData), key, old(Get(infohashAnnouncing, key.infohash)) + 1)
    {
      hide InfohashesCounted, TrackersCounted, HeadsOk, WithInfohash, Agree, AfterStart, AfterFinish, Get;
      StartPlan(key);
      var n, m := Get(infohashAnnouncing, key.infohash), Get(trackerAnnouncing, key.url);
      UpdateData(key, announceData[key].(active := true));
      SetInfohashAnnouncing(key.infohash, n + 1);
      SetTrackerAnnouncing(key.url, m + 1);
    }

    /** What the steps of starting an announce add up to. */
    lemma {:induction false} StartPlan(key: Key)
      requires Valid() && key in announceData && !announceData[key].active && Get(trackerAnnouncing, key.url) < MAX_PER_TRACKER
      ensures HeadsOk(announceData, trackerAnnouncing, heads)
      ensures var n, m := Get(infohashAnnouncing, key.infohash) + 1, Get(trackerAnnouncing, key.url) + 1;
        var marked := announceData[key := announceData[key].(active := true)];
        && m > 0 && m <= MAX_PER_TRACKER && Agree(marked, infohashAnnouncing)
        && WithInfohash(marked, key.infohash, n) == AfterStart(announceData, key, n)
        && InfohashesCounted(AfterStart(announceData, key, n), infohashAnnouncing[key.infohash := n])
        && TrackersCounted(AfterStart(announceData, key, n), trackerAnnouncing[key.url := m])
    {
      hide HeadsOk, InfohashesCounted, TrackersCounted;
      StartCounted(announceData, infohashAnnouncing, trackerAnnouncing, key,
        Get(infohashAnnouncing, key.infohash) + 1, Get(trackerAnnouncing, key.url) + 1);
      AgreeSet(announceData, infohashAnnouncing, key, announceData[key].(active := true));
    }

    /** Ends an announce that runs; the torrent's own state is read anew. */
    method FinishedAnnounce(key: Key, torrent: Option<TorrentInput>)
      requires Valid() && key in announceData && announceData[key].active
      modifies this
      ensures Valid() && old(Get(infohashAnnouncing, key.infohash)) > 0
      ensures announceData == AfterFinish(old(announceData), key, torrent, old(Get(infohashAnnouncing, key.infohash)) - 1)
    {
      hide InfohashesCounted, TrackersCounted, HeadsOk, WithInfohash, Agree, AfterStart, AfterFinish, Get;
      FinishPlan(key, torrent);
      var n, m := Get(infohashAnnouncing, key.infohash), Get(trackerAnnouncing, key.url);
      SetInfohashAnnouncing(key.infohash, n - 1);
      AgreeSet(announceData, infohashAnnouncing, key, announceData[key].(torrent := torrent, active := false));
      UpdateData(key, announceData[key].(torrent := torrent, active := false));
      SetTrackerAnnouncing(key.url, m - 1);
    }

    /** What the steps of ending an announce add up to. */
    lemma {:induction false} FinishPlan(key: Key, torrent: Option<TorrentInput>)
      requires Valid() && key in announceData && announceData[key].active
      ensures HeadsOk(announceData, trackerAnnouncing, heads) && Agree(announceData, infohashAnnouncing)
      ensures Get(infohashAnnouncing, key.infohash) > 0 && 0 < Get(trackerAnnouncing, key.url) <= MAX_PER_TRACKER
      ensures var n, m := Get(infohashAnnouncing, key.infohash) - 1, Get(trackerAnnouncing, key.url) - 1;
        var told, done := WithInfohash(announceData, key.infohash, n), AfterFinish(announceData, key, torrent, n);
        && key in told && done == told[key := told[key].(torrent := torrent, active := false)]
        && InfohashesCounted(done, if n > 0 then infohashAnnouncing[key.infohash := n] else infohashAnnouncing - {key.infohash})
        && TrackersCounted(done, if m == 0 then trackerAnnouncing - {key.url} else trackerAnnouncing[key.url := m])
    {
      hide *;
      Parts();
      WithinLimit(announceData, trackerAnnouncing, key.url);
      SomethingCounted(announceData, infohashAnnouncing, trackerAnnouncing, key);
      FinishCounted(announceData, infohashAnnouncing, trackerAnnouncing, key, torrent);
      FinishIs(announceData, key, torrent, Get(infohashAnnouncing, key.infohash) - 1);
    }

    lemma {:induction false} Parts()
      requires Valid()
      ensures InfohashesCounted(announceData, infohashAnnouncing) && TrackersCounted(announceData, trackerAnnouncing)
      ensures Agree(announceData, infohashAnnouncing) && HeadsOk(announceData, trackerAnnouncing, heads)
    {
      hide InfohashesCounted, TrackersCounted, Agree, HeadsOk;
    }

    /** Adds an announce of a torrent that is still there, unless it is known. */
    method AddKey(key: Key, torrent: Option<TorrentInput>, event: Event, time: int, failed: bool, now: int)
      requires Valid()
      modifies this`announceData, this`heads
      ensures Valid()
      ensures announceData == if key in old(announceData) then old(announceData) else
        WithOverdue(old(announceData)[key := Input(torrent, event, time, failed, Get(infohashAnnouncing, key.infohash), false, false)], now)
    {
      if key in announceData { return; }
      var input := Input(torrent, event, time, failed, Get(infohashAnnouncing, key.infohash), false, false);
      QuietKeeps(announceData, infohashAnnouncing, trackerAnnouncing, key, input);
      hide HeadsOk, Agree, InfohashesCounted, TrackersCounted, Get;
      UpdateData(key, input);
      UpdateOverdue(now);
    }

    /** Takes over what changed about an announce or its torrent. */
    method SyncInput(key: Key, torrent: Option<TorrentInput>, event: Event, time: int, failed: bool, now: int)
      requires Valid() && key in announceData
      modifies this`announceData, this`heads
      ensures Valid()
      ensures announceData == WithOverdue(old(announceData)[key :=
        old(announceData)[key].(torrent := torrent, event := event, time := time, lastAnnounceFailed := failed)], now)
    {
      var input := announceData[key].(torrent := torrent, event := event, time := time, lastAnnounceFailed := failed);
      QuietKeeps(announceData, infohashAnnouncing, trackerAnnouncing, key, input);
      hide HeadsOk, Agree, InfohashesCounted, TrackersCounted;
      UpdateData(key, input);
      UpdateOverdue(now);
    }

    /** The first of the heads, by how much runs at their trackers and then by what the
        announces weigh. */
    method FirstHead() returns (first: Option<Head>)
      ensures first.None? ==> heads == map[]
      ensures first.Some? ==> (exists url <- heads :: heads[url] == first.value) && forall url <- heads :: CompareHeads(first.value, heads[url]) <= 0
    {
      var rest := heads.Keys;
      first := None;
      hide CompareHeads;
      while rest != {}
        invariant rest <= heads.Keys && (first.None? ==> rest == heads.Keys)
        invariant first.Some? ==> exists url <- heads :: heads[url] == first.value
        invariant first.Some? ==> forall url <- heads.Keys - rest :: CompareHeads(first.value, heads[url]) <= 0
        decreases rest
      {
        var url :| url in rest;
        rest := rest - {url};
        HeadsAreOrdered(heads[url], heads[url], heads[url]);
        if first.Some? {
          forall u <- heads { HeadsAreOrdered(heads[url], first.value, heads[u]); }
        }
        if first.None? || CompareHeads(heads[url], first.value) < 0 { first := Some(heads[url]); }
      }
      if first.None? { assert heads.Keys == {}; }
    }

    /** The announce to start next, if the limits leave one. */
    method GetNextAnnounce(now: int) returns (next: Option<Key>)
      requires Valid()
      modifies this`announceData, this`heads
      ensures Valid() && announceData == WithOverdue(old(announceData), now)
      ensures next.Some? ==> Startable(next.value) && IsFirst(next.value)
      ensures next.None? ==> forall k <- announceData :: !Startable(k)
      ensures next.Some? ==> (DueWaitBehind() <==> !announceData[next.value].overdue)
    {
      UpdateOverdue(now);
      var first := FirstHead();
      hide *;
      if first.None? {
        NoHeadNoAnnounce();
        return None;
      }
      FirstDecides(first.value);
      if !first.value.input.active && first.value.requests < MAX_PER_TRACKER { return Some(first.value.key); }
      return None;
    }

    /** An announce as a head of its tracker would show it. */
    ghost function AsHead(k: Key): Head
      requires k in announceData
      reads this`announceData, this`trackerAnnouncing
    {
      Head(Get(trackerAnnouncing, k.url), k, announceData[k])
    }

    /** No announce comes before this one, by how much runs at its tracker and then by
        what it weighs. */
    ghost predicate IsFirst(k: Key)
      reads this`announceData, this`trackerAnnouncing
    {
      k in announceData && forall j <- announceData :: CompareHeads(AsHead(k), AsHead(j)) <= 0
    }

    /** An announce that does not run, at a tracker with room for it. */
    ghost predicate Startable(k: Key)
      reads this`announceData, this`trackerAnnouncing
    {
      k in announceData && !announceData[k].active && Get(trackerAnnouncing, k.url) < MAX_PER_TRACKER
    }

    /** What could start and is due waits only behind a tracker where less runs and
        what could start is not due. */
    ghost predicate DueWaitBehind()
      reads this`announceData, this`trackerAnnouncing
    {
      forall k <- announceData | Startable(k) && announceData[k].overdue ::
        exists j <- announceData :: Startable(j) && !announceData[j].overdue && Get(trackerAnnouncing, j.url) < Get(trackerAnnouncing, k.url)
    }

    /** Every announce has a head, which runs only when the announce does, and is due
        when the announce is. */
    lemma {:induction false} HeadOf(k: Key)
      requires Valid() && k in announceData
      ensures k.url in heads && heads[k.url].requests == Get(trackerAnnouncing, k.url)
      ensures heads[k.url].input.active ==> announceData[k].active
      ensures heads[k.url].input.active == announceData[k].active && announceData[k].overdue ==> heads[k.url].input.overdue
      ensures CompareHeads(heads[k.url], AsHead(k)) <= 0
    {
      assert HeadOk(announceData, trackerAnnouncing, heads, k.url);
      var h := heads[k.url];
      hide Before, CompareHeads;
      if h.key == k {
        HeadsAreOrdered(h, h, h);
      } else {
        BeforeAsHeads(h.requests, h.key, announceData[h.key], k, announceData[k]);
        var a, b := announceData[h.key], announceData[k];
        assert Before(h.key, a, k, b);
        if a.active { ActiveLast(h.key, a, k, b); }
        if a.active == b.active && b.overdue { DueFirst(h.key, a, k, b); }
      }
    }

    lemma {:induction false} NoHeadNoAnnounce()
      requires Valid() && heads == map[]
      ensures forall k <- announceData :: !Startable(k)
    {
      if announceData != map[] {
        var k :| k in announceData;
        HeadOf(k);
        assert false;
      }
    }

    /** The first head decides for all announces. */
    lemma {:induction false} FirstDecides(first: Head)
      requires Valid() && (exists url <- heads :: heads[url] == first) && forall url <- heads :: CompareHeads(first, heads[url]) <= 0
      ensures first.key in announceData && first.input == announceData[first.key] && first.requests == Get(trackerAnnouncing, first.key.url)
      ensures IsFirst(first.key)
      ensures first.input.active || first.requests >= MAX_PER_TRACKER ==> forall k <- announceData :: !Startable(k)
      ensures !first.input.active && first.requests < MAX_PER_TRACKER ==> (DueWaitBehind() <==> !first.input.overdue)
    {
      hide CompareHeads;
      FirstIsStored(first);
      if first.input.active { HasRunning(first.key); }
      hide Valid;
      assert AsHead(first.key) == first;
      assert Startable(first.key) <==> !first.input.active && first.requests < MAX_PER_TRACKER;
      forall k <- announceData
        ensures CompareHeads(first, AsHead(k)) <= 0 && first.requests <= Get(trackerAnnouncing, k.url)
        ensures first.input.active || first.requests >= MAX_PER_TRACKER ==> !Startable(k)
        ensures !first.input.active && !first.input.overdue && announceData[k].overdue && !announceData[k].active ==> first.requests < Get(trackerAnnouncing, k.url)
      {
        HeadOf(k);
        LeastHead(first, heads[k.url]);
        HeadsAreOrdered(first, heads[k.url], AsHead(k));
        LeastHead(first, AsHead(k));
      }
    }

    lemma {:induction false} FirstIsStored(first: Head)
      requires Valid() && exists url <- heads :: heads[url] == first
      ensures first.key in announceData && first.input == announceData[first.key] && first.requests == Get(trackerAnnouncing, first.key.url)
    {
      var url :| url in heads && heads[url] == first;
      assert HeadOk(announceData, trackerAnnouncing, heads, url);
      hide Before, Agree, InfohashesCounted, TrackersCounted;
    }

    lemma {:induction false} HasRunning(k: Key)
      requires Valid() && k in announceData && announceData[k].active
      ensures Get(trackerAnnouncing, k.url) > 0
    {
      SomethingCounted(announceData, infohashAnnouncing, trackerAnnouncing, k);
    }

    /** Starts announces as long as the next one is due. */
    method DispatchAnnounces(now: int) returns (started: seq<Key>)
      requires Valid()
      modifies this
      ensures Valid()
      ensures forall k <- started :: k in old(announceData) && k !in Active(old(announceData)) && old(announceData)[k].time <= now
      ensures forall i, j | 0 <= i < j < |started| :: started[i] != started[j]
      ensures forall k :: k in Active(announceData) <==> k in Active(old(announceData)) || k in started
      ensures DueWaitBehind()
    {
      started := [];
      ghost var done: set<Key> := {};
      hide *;
      SameAsItself(announceData);
      while true
        invariant Valid() && SameTimes(old(announceData), announceData) && Active(announceData) == Active(old(announceData)) + done
        invariant (forall k :: k in started <==> k in done) && done !! Active(old(announceData))
        invariant forall k <- started :: k in old(announceData) && old(announceData)[k].time <= now
        invariant forall i, j | 0 <= i < j < |started| :: started[i] != started[j]
        decreases announceData.Keys - Active(announceData)
      {
        OverdueQuiet(announceData, now);
        var next := GetNextAnnounce(now);
        if next.None? {
          NothingWaits();
          break;
        }
        var k := next.value;
        StartableIs(k);
        if !announceData[k].overdue { break; }
        StartQuiet(old(announceData), announceData, k, Get(infohashAnnouncing, k.infohash) + 1, now);
        StartAnnounce(k);
        started := started + [k];
        done := done + {k};
      }
    }

    lemma {:induction false} StartableIs(k: Key)
      requires Startable(k)
      ensures k in announceData && !announceData[k].active && Get(trackerAnnouncing, k.url) < MAX_PER_TRACKER
    {
    }

    lemma {:induction false} NothingWaits()
      requires forall k <- announceData :: !Startable(k)
      ensures DueWaitBehind()
    {
    }
  }

  ghost predicate SameTimes(a: Table, b: Table)
  {
    a.Keys == b.Keys && forall k <- a :: a[k].time == b[k].time
  }

  lemma {:induction false} SameAsItself(a: Table)
    ensures SameTimes(a, a)
  {
  }

  lemma {:induction false} OverdueQuiet(data: Table, now: int)
    ensures SameTimes(data, WithOverdue(data, now)) && Active(WithOverdue(data, now)) == Active(data)
    ensures forall k <- WithOverdue(data, now) :: k in data && WithOverdue(data, now)[k].overdue == (data[k].time <= now)
    ensures forall d | SameTimes(d, data) :: SameTimes(d, WithOverdue(data, now))
  {
  }

  lemma {:induction false} StartQuiet(first: Table, data: Table, k: Key, n: nat, now: int)
    requires SameTimes(first, data) && k in data && !data[k].active
    ensures SameTimes(first, AfterStart(data, k, n)) && AfterStart(data, k, n).Keys == data.Keys
    ensures k !in Active(data) && Active(AfterStart(data, k, n)) == Active(data) + {k}
    ensures k in first && first[k].time == data[k].time
  {
  }

  lemma {:induction false} WithinLimit(data: Table, trs: map<nat, nat>, url: nat)
    requires TrackersCounted(data, trs)
    ensures Get(trs, url) <= MAX_PER_TRACKER
  {
    hide Get, OfUrl;
    assert Get(trs, url) == OfUrl(Active(data), url);
  }

  lemma {:induction false} FinishIs(data: Table, key: Key, torrent: Option<TorrentInput>, n: nat)
    requires key in data
    ensures var told := WithInfohash(data, key.infohash, n);
      key in told && AfterFinish(data, key, torrent, n) == told[key := told[key].(torrent := torrent, active := false)]
  {
    WithInfohashAt(data, key, n);
    hide WithInfohash;
  }

  lemma {:induction false} WithInfohashAt(data: Table, k: Key, n: nat)
    requires k in data
    ensures k in WithInfohash(data, k.infohash, n) && WithInfohash(data, k.infohash, n)[k] == data[k].(infohashActive := n)
  {
  }

  // ---- an announce that is due and waits all the same

  const RUNNING: Key := Key(0, 0)
  const WAITING: Key := Key(1, 0)
  const ELSEWHERE: Key := Key(2, 1)

  lemma {:induction false} CountsOf(data: Table, trs: map<nat, nat>)
    requires TrackersCounted(data, trs)
    ensures Active(data) == {} ==> Get(trs, 0) == 0
    ensures Active(data) == {RUNNING} ==> Get(trs, 0) == 1 && Get(trs, 1) == 0
  {
    hide Get;
    assert UrlSet({}, 0) == {} == UrlSet({RUNNING}, 1);
    assert UrlSet({RUNNING}, 0) == {RUNNING};
    assert Get(trs, 0) == OfUrl(Active(data), 0) && Get(trs, 1) == OfUrl(Active(data), 1);
  }

  /** One runs, one is due at the same tracker, and one of another tracker is not. */
  ghost predicate Waits(data: Table, running: set<Key>)
  {
    data.Keys == {RUNNING, WAITING, ELSEWHERE} && data[WAITING].time == 0 && data[ELSEWHERE].time == 1 && Active(data) == running
  }

  lemma {:induction false} WaitsSteps(data: Table, n: nat)
    ensures Waits(data, {}) ==> Waits(AfterStart(data, RUNNING, n), {RUNNING})
    ensures Waits(data, {RUNNING}) ==> Waits(WithOverdue(data, 0), {RUNNING})
    ensures Waits(data, {RUNNING}) ==> WithOverdue(data, 0)[WAITING].overdue && !WithOverdue(data, 0)[ELSEWHERE].overdue
    ensures Waits(data, {RUNNING}) ==> data[RUNNING].active && !data[WAITING].active && !data[ELSEWHERE].active
    ensures Waits(data, {}) ==> !data[RUNNING].active
  {
    if data.Keys == {RUNNING, WAITING, ELSEWHERE} {
      NotActive(data, RUNNING);
      NotActive(data, WAITING);
      NotActive(data, ELSEWHERE);
      if Active(data) == {} { StartQuiet(data, data, RUNNING, n, 0); }
    }
    OverdueQuiet(data, 0);
    hide Active;
  }

  method ThreeAnnounces() returns (d: AnnounceDispatcher)
    ensures fresh(d) && d.Valid() && Waits(d.announceData, {RUNNING})
  {
    hide InfohashesCounted, TrackersCounted, HeadsOk, Agree, Get, AfterStart;
    d := new AnnounceDispatcher();
    d.AddKey(RUNNING, None, NoEvent, 0, false, 0);
    d.AddKey(WAITING, None, NoEvent, 0, false, 0);
    d.AddKey(ELSEWHERE, None, NoEvent, 1, false, 0);
    assert Waits(d.announceData, {});
    CountsOf(d.announceData, d.trackerAnnouncing);
    ghost var n := Get(d.infohashAnnouncing, RUNNING.infohash) + 1;
    WaitsSteps(d.announceData, n);
    d.StartAnnounce(RUNNING);
  }

  lemma {:induction false} FirstIs(d: AnnounceDispatcher, k: Key, j: Key)
    requires d.IsFirst(k) && j in d.announceData
    ensures k in d.announceData && CompareHeads(d.AsHead(k), d.AsHead(j)) <= 0
    ensures d.AsHead(k).requests == Get(d.trackerAnnouncing, k.url) && d.AsHead(j).requests == Get(d.trackerAnnouncing, j.url)
  {
    hide CompareHeads, Get;
  }

  lemma {:induction false} WaitsKeys(data: Table, running: set<Key>)
    requires Waits(data, running)
    ensures data.Keys == {RUNNING, WAITING, ELSEWHERE} && Active(data) == running
  {
    hide Active;
  }

  lemma {:induction false} TrackersAre(d: AnnounceDispatcher)
    requires d.Valid()
    ensures TrackersCounted(d.announceData, d.trackerAnnouncing)
  {
    hide TrackersCounted;
  }

  lemma {:induction false} RunningIsBusier(d: AnnounceDispatcher)
    requires d.Valid() && Waits(d.announceData, {RUNNING})
    ensures Get(d.trackerAnnouncing, WAITING.url) == 1 && Get(d.trackerAnnouncing, ELSEWHERE.url) == 0
    ensures d.announceData.Keys == {RUNNING, WAITING, ELSEWHERE} && d.announceData[RUNNING].active
  {
    WaitsKeys(d.announceData, {RUNNING});
    WaitsSteps(d.announceData, 0);
    TrackersAre(d);
    CountsOf(d.announceData, d.trackerAnnouncing);
    hide Active, Get, TrackersCounted, AnnounceDispatcher.Valid, Waits, WithOverdue, AfterStart;
  }

  lemma {:induction false} OnlyElsewhere(d: AnnounceDispatcher, k: Key)
    requires d.Valid() && Waits(d.announceData, {RUNNING}) && d.IsFirst(k) && d.Startable(k)
    ensures k == ELSEWHERE
  {
    hide *;
    RunningIsBusier(d);
    d.StartableIs(k);
    FirstIs(d, k, ELSEWHERE);
    LeastHead(d.AsHead(k), d.AsHead(ELSEWHERE));
  }

  /** Three announces: one runs, one is due at the same tracker, which has room for it,
      and one of another tracker is not due. The one that is not due comes next. */
  method DueAnnounceWaits() returns (d: AnnounceDispatcher, next: Option<Key>)
    ensures fresh(d) && d.Valid() && next == Some(ELSEWHERE)
    ensures d.Startable(WAITING) && d.announceData[WAITING].overdue
    ensures ELSEWHERE in d.announceData && !d.announceData[ELSEWHERE].overdue
  {
    hide InfohashesCounted, HeadsOk, Agree, Get, Active, WithOverdue;
    d := ThreeAnnounces();
    WaitsSteps(d.announceData, 0);
    next := d.GetNextAnnounce(0);
    WaitsSteps(d.announceData, 0);
    CountsOf(d.announceData, d.trackerAnnouncing);
    if next.Some? { OnlyElsewhere(d, next.value); }
  }
}
