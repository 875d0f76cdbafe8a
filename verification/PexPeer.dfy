/** The peer exchange as it runs: lists and lookup sets updated in place, the
    torrent's feed, and a remote's record of live connections. */
module PexPeer {
  import opened Options
  import opened Pex

  class MsgFactory {
    var msg: Msg
    var added: set<Addr>
    var dropped: set<Addr>

    function Contents(): Factory
      reads this
    {
      Factory(msg, added, dropped)
    }

    constructor ()
      ensures Contents() == EMPTY_FACTORY
    {
      msg, added, dropped := EMPTY_FACTORY.msg, {}, {};
    }

    method SetHalf(a: Addr, h: Half)
      modifies this`msg
      ensures Contents() == old(Contents()).WithHalf(a, h)
    {
      match a
      case V4(_, _) => msg := msg.(v4 := h);
      case V6(_, _) => msg := msg.(v6 := h);
    }

    method FindIn(s: seq<Addr>, a: Addr) returns (r: Option<nat>)
      ensures r == Index(s, a)
    {
      for i := 0 to |s|
        invariant match Index(s[i..], a)
          case None => Index(s, a) == None
          case Some(k) => Index(s, a) == Some(k + i)
      {
        if s[i] == a { return Some(i); }
        assert s[i..][1..] == s[i+1..];
      }
      r := None;
    }

    method AddEvent(a: Addr, flags: nat)
      requires Aligned(Contents())
      modifies this
      ensures Contents() == WithAdd(old(Contents()), a, flags)
    {
      if a in added { return; }
      var h := Contents().Half(a);
      if a in dropped {
        var i := FindIn(h.dropped, a);
        if i.Some? {
          SetHalf(a, h.(dropped := Without(h.dropped, i.value)));
        } else {
          SetHalf(a, h);
        }
        dropped := dropped - {a};
        return;
      }
      SetHalf(a, h.(added := h.added + [a], flags := h.flags + [flags]));
      added := added + {a};
    }

    method DropEvent(a: Addr)
      requires Aligned(Contents())
      modifies this
      ensures Contents() == WithDrop(old(Contents()), a)
    {
      if a in dropped { return; }
      var h := Contents().Half(a);
      if a in added {
        var i := FindIn(h.added, a);
        if i.Some? {
          SetHalf(a, h.(added := Without(h.added, i.value), flags := Without(h.flags, i.value)));
        } else {
          SetHalf(a, h);
        }
        added := added - {a};
        return;
      }
      SetHalf(a, h.(dropped := h.dropped + [a]));
      dropped := dropped + {a};
    }

    method AppendEvent(e: Event)
      requires Aligned(Contents())
      modifies this
      ensures Contents() == Append(old(Contents()), e)
    {
      match e
      case Add(a, flags) => AddEvent(a, flags);
      case Drop(a, _) => DropEvent(a);
    }
  }

  /** Per-torrent PEX state. The linked event feed is the sequence of its events, and
      a pointer into it is the number of events up to and including its target. */
  class PexState {
    var feed: seq<Event>
    var hold: seq<Event>
    var nc: int
    const msg0: MsgFactory

    ghost predicate Valid()
      reads this, msg0
    {
      msg0.Contents() == Build(feed)
    }

    ghost function Holding(): Pex.Holding
      reads this
    {
      Pex.Holding(feed, hold, nc)
    }

    constructor ()
      ensures Valid() && feed == [] && hold == [] && nc == 0 && fresh(msg0)
    {
      feed, hold, nc := [], [], 0;
      msg0 := new MsgFactory();
    }

    method AppendEvent(e: Event)
      requires Valid()
      modifies this`feed, msg0
      ensures Valid() && feed == old(feed) + [e]
    {
      hide Append;
      feed := feed + [e];
      msg0.AppendEvent(e);
      assert feed[..|feed|-1] == old(feed);
    }

    method Add(e: Event)
      requires Valid() && e.Add?
      modifies this, msg0
      ensures Valid() && Holding() == AddCall(old(Holding()), e)
    {
      hide Append;
      nc := nc + 1;
      if nc >= TARGET_ADDED {
        for i := 0 to |hold|
          modifies this`feed, msg0
          invariant Valid() && feed == old(feed) + hold[..i]
        {
          AppendEvent(hold[i]);
        }
        hold := [];
      }
      AppendEvent(e);
    }

    /** Connections that were never listed are not dropped. */
    method Drop(e: Event, listed: bool)
      requires Valid() && e.Drop?
      modifies this, msg0
      ensures Valid() && Holding() == if listed then DropCall(old(Holding()), e) else old(Holding())
    {
      hide Append;
      if !listed { return; }
      nc := nc - 1;
      if nc < TARGET_ADDED && |hold| < MAX_HOLD {
        hold := hold + [e];
      } else {
        AppendEvent(e);
      }
    }

    /** Takes events into `f` until it is full or the feed ends. */
    method Fill(f: MsgFactory, start: nat) returns (last: nat)
      requires start <= |feed| && Aligned(f.Contents()) && f != msg0
      modifies f
      ensures (f.Contents(), last) == TakeFrom(feed, start, old(f.Contents()))
    {
      hide Append;
      last := start;
      while last < |feed|
        invariant start <= last <= |feed| && Aligned(f.Contents())
        invariant TakeFrom(feed, last, f.Contents()) == TakeFrom(feed, start, old(f.Contents()))
      {
        if f.Contents().DeltaLen() >= MAX_DELTA { break; }
        f.AppendEvent(feed[last]);
        last := last + 1;
      }
    }

    method Genmsg(start: nat) returns (m: Msg, last: nat)
      requires Valid() && start <= |feed|
      ensures m == Pex.Genmsg(feed, start).0.msg && last == Pex.Genmsg(feed, start).1
    {
      if start == 0 {
        return msg0.msg, |feed|;
      }
      var f := new MsgFactory();
      last := Fill(f, start);
      m := f.msg;
    }
  }

  /** The flags sent with an added address, if any were. */
  function FlagsAt(h: Half, i: nat): Option<nat> { if i < |h.flags| then Some(h.flags[i]) else None }

  class PexConn {
    var last: nat
    var remoteLiveConns: map<Addr, Option<nat>>

    constructor ()
      ensures last == 0 && remoteLiveConns == map[]
    {
      last, remoteLiveConns := 0, map[];
    }

    /** The next message for the remote; an empty one is not sent. */
    method Genmsg(t: PexState) returns (m: Option<Msg>)
      requires t.Valid() && last <= |t.feed|
      modifies this`last
      ensures var r := Pex.Genmsg(t.feed, old(last));
        if r.0.msg.Empty() then m == None && last == old(last) else m == Some(r.0.msg) && last == r.1
    {
      var tx, next := t.Genmsg(last);
      if tx.Empty() { return None; }
      last := next;
      m := Some(tx);
    }

    method Forget(dropped: seq<Addr>)
      modifies this`remoteLiveConns
      ensures remoteLiveConns == old(remoteLiveConns) - Elems(dropped)
    {
      for i := 0 to |dropped|
        invariant remoteLiveConns == old(remoteLiveConns) - Elems(dropped[..i])
      {
        ElemsNext(dropped, i);
        remoteLiveConns := remoteLiveConns - {dropped[i]};
      }
      assert dropped[..|dropped|] == dropped;
    }

    /** Flags are missing where the remote sent fewer than addresses. */
    method Remember(added: seq<Addr>, flags: seq<nat>)
      modifies this`remoteLiveConns
      ensures remoteLiveConns.Keys == old(remoteLiveConns).Keys + Elems(added)
      ensures forall a :: a in old(remoteLiveConns) && a !in added ==> remoteLiveConns[a] == old(remoteLiveConns)[a]
      ensures Distinct(added) ==> forall i | 0 <= i < |added| ::
        remoteLiveConns[added[i]] == if i < |flags| then Some(flags[i]) else None
    {
      for i := 0 to |added|
        invariant remoteLiveConns.Keys == old(remoteLiveConns).Keys + Elems(added[..i])
        invariant forall a :: a in old(remoteLiveConns) && a !in added ==> remoteLiveConns[a] == old(remoteLiveConns)[a]
        invariant Distinct(added) ==> forall k | 0 <= k < i ::
          added[k] in remoteLiveConns && remoteLiveConns[added[k]] == if k < |flags| then Some(flags[k]) else None
      {
        ElemsNext(added, i);
        remoteLiveConns := remoteLiveConns[added[i] := if i < |flags| then Some(flags[i]) else None];
      }
      assert added[..|added|] == added;
    }

    method UpdateRemoteLiveConns(rx: Msg)
      modifies this`remoteLiveConns
      ensures remoteLiveConns.Keys == Received(old(remoteLiveConns).Keys, rx)
      ensures Distinct(rx.v6.added) ==> forall i | 0 <= i < |rx.v6.added| ::
        remoteLiveConns[rx.v6.added[i]] == FlagsAt(rx.v6, i)
      ensures Distinct(rx.v4.added) ==> forall i | 0 <= i < |rx.v4.added| && rx.v4.added[i] !in rx.v6.added ::
        remoteLiveConns[rx.v4.added[i]] == FlagsAt(rx.v4, i)
      ensures forall a :: a in remoteLiveConns && a !in rx.v4.added && a !in rx.v6.added ==>
        a in old(remoteLiveConns) && remoteLiveConns[a] == old(remoteLiveConns)[a]
    {
      Forget(rx.v4.dropped);
      Forget(rx.v6.dropped);
      Remember(rx.v4.added, rx.v4.flags);
      Remember(rx.v6.added, rx.v6.flags);
    }
  }

  /** Both ends together: after a message is generated and received, the receiver's
      record is the live set at the sender's new position. */
  method Exchange(t: PexState, sender: PexConn, receiver: PexConn) returns (sent: bool)
    requires t.Valid() && sender.last <= |t.feed| && sender != receiver
    requires Toggles({}, t.feed) && receiver.remoteLiveConns.Keys == Live({}, t.feed[..sender.last])
    modifies sender`last, receiver`remoteLiveConns
    ensures sender.last <= |t.feed| && receiver.remoteLiveConns.Keys == Live({}, t.feed[..sender.last])
    ensures sent ==> sender.last > old(sender.last) || old(sender.last) == 0
    ensures !sent ==> receiver.remoteLiveConns.Keys == Live({}, t.feed)
  {
    GenmsgDelivers(t.feed, sender.last);
    hide Received, Live, Toggles, Pex.Genmsg;
    var m := sender.Genmsg(t);
    sent := m.Some?;
    if m.Some? {
      receiver.UpdateRemoteLiveConns(m.value);
    }
  }
}
