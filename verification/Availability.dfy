/** Piece availability: a cached count per piece, relative to the connections
    known to have everything, against what the open connections have claimed. */
module Availability {
  import opened Arithmetic
  import opened Sets

  class PeerConn {
    var peerPieces: set<nat>
    var peerSentHaveAll: bool
    var closed: bool

    constructor ()
      ensures peerPieces == {} && !peerSentHaveAll && !closed
    {
      peerPieces, peerSentHaveAll, closed := {}, false, false;
    }

    /** The connection is counted piece by piece, and piece `i` is one of them. */
    predicate Counts(i: nat)
      reads this
    {
      !closed && !peerSentHaveAll && i in peerPieces
    }

    /** The connection is open and has piece `i`, as far as it told us. */
    predicate HasOpen(i: nat)
      reads this
    {
      !closed && (peerSentHaveAll || i in peerPieces)
    }
  }

  class Torrent {
    var haveInfo: bool
    var numPieces: nat
    var relativeAvailability: map<nat, int>
    var connsWithAllPieces: set<PeerConn>
    var conns: set<PeerConn>

    constructor ()
      ensures Valid() && conns == {} && !haveInfo
    {
      haveInfo, numPieces, relativeAvailability := false, 0, map[];
      connsWithAllPieces, conns := {}, {};
    }

    /** How many connections other than `except` are counted for piece `i`. */
    ghost function Others(i: nat, except: PeerConn): nat
      reads this`conns, conns - {except}
    {
      |set c <- conns | c != except && c.Counts(i)|
    }

    ghost function Counted(i: nat): nat
      reads this`conns, conns
    {
      |set c <- conns | c.Counts(i)|
    }

    /** The set behind connsWithAllPieces: open connections that sent have-all. */
    ghost predicate AllSetRight()
      reads this`conns, this`connsWithAllPieces, conns
    {
      && (forall c <- connsWithAllPieces :: c in conns && !c.closed && c.peerSentHaveAll)
      && (forall c <- conns :: !c.closed && c.peerSentHaveAll ==> c in connsWithAllPieces)
      && (forall c <- conns :: c.peerSentHaveAll ==> c.peerPieces == {})
    }

    ghost predicate InfoRight()
      reads this, conns
    {
      && (haveInfo ==> forall i: nat :: i in relativeAvailability <==> i < numPieces)
      && (haveInfo ==> forall c <- conns, i <- c.peerPieces :: i < numPieces)
    }

    /** The accounting is right: with the info known, the relative count of every
        piece is the number of connections counted for it. */
    ghost predicate Valid()
      reads this, conns
    {
      AllSetRight() && InfoRight() && CountsRight()
    }

    ghost predicate CountsRight()
      reads this, conns
    {
      haveInfo ==> forall i <- relativeAvailability :: relativeAvailability[i] == Counted(i)
    }

    /** What the rest of the client sees as the availability of a piece. */
    function Availability(i: nat): int
      reads this
      requires i in relativeAvailability
    {
      |connsWithAllPieces| + relativeAvailability[i]
    }

    lemma {:induction false} CountedSplit(i: nat, c: PeerConn)
      requires c in conns
      ensures Counted(i) == Others(i, c) + if c.Counts(i) then 1 else 0
    {
      var all := set d <- conns | d.Counts(i);
      var rest := set d <- conns | d != c && d.Counts(i);
      assert all == if c.Counts(i) then rest + {c} else rest;
    }

    /** Main result: the availability of a piece is the number of open connections
        that have it, and the cached part is never negative. */
    lemma {:induction false} AvailabilityIsOpenHolders(i: nat)
      requires Valid() && haveInfo && i < numPieces
      ensures i in relativeAvailability && relativeAvailability[i] >= 0
      ensures Availability(i) == |set c <- conns | c.HasOpen(i)|
    {
      var counted := set c <- conns | c.Counts(i);
      assert (set c <- conns | c.HasOpen(i)) == counted + connsWithAllPieces;
      assert counted !! connsWithAllPieces;
    }

    /** With every connection closed all counters are back at zero. */
    lemma {:induction false} AllClosedMeansZero()
      requires Valid() && haveInfo && forall c <- conns :: c.closed
      ensures connsWithAllPieces == {}
      ensures forall i <- relativeAvailability :: relativeAvailability[i] == 0
    {
      forall i <- relativeAvailability ensures relativeAvailability[i] == 0 {
        assert (set c <- conns | c.Counts(i)) == {};
      }
    }

    method AddConn(c: PeerConn)
      requires Valid() && c !in conns && c.peerPieces == {} && !c.peerSentHaveAll && !c.closed
      modifies this`conns
      ensures Valid() && conns == old(conns) + {c}
    {
      conns := conns + {c};
      forall i: nat ensures Counted(i) == old(Counted(i)) {
        assert (set d <- conns | d.Counts(i)) == old(set d <- conns | d.Counts(i));
      }
    }

    method IncPieceAvailability(i: nat)
      requires haveInfo ==> i in relativeAvailability
      modifies this`relativeAvailability
      ensures relativeAvailability ==
        if haveInfo then old(relativeAvailability)[i := old(relativeAvailability)[i] + 1] else old(relativeAvailability)
    {
      if haveInfo {
        relativeAvailability := relativeAvailability[i := relativeAvailability[i] + 1];
      }
    }

    method DecPieceAvailability(i: nat)
      requires haveInfo ==> i in relativeAvailability && relativeAvailability[i] > 0  // panic otherwise
      modifies this`relativeAvailability
      ensures relativeAvailability ==
        if haveInfo then old(relativeAvailability)[i := old(relativeAvailability)[i] - 1] else old(relativeAvailability)
    {
      if !haveInfo { return; }
      relativeAvailability := relativeAvailability[i := relativeAvailability[i] - 1];
    }

    /** Every piece in `lost` counts one less. */
    method DecAll(lost: set<nat>)
      requires haveInfo ==> forall i <- lost :: i in relativeAvailability && relativeAvailability[i] > 0
      modifies this`relativeAvailability
      ensures relativeAvailability.Keys == old(relativeAvailability.Keys)
      ensures forall i <- relativeAvailability ::
        relativeAvailability[i] == old(relativeAvailability)[i] - if haveInfo && i in lost then 1 else 0
    {
      var todo := lost;
      while todo != {}
        invariant todo <= lost && relativeAvailability.Keys == old(relativeAvailability.Keys)
        invariant forall i <- relativeAvailability ::
          relativeAvailability[i] == old(relativeAvailability)[i] - if haveInfo && i in lost - todo then 1 else 0
        decreases todo
      {
        var i :| i in todo;
        DecPieceAvailability(i);
        todo := todo - {i};
      }
    }

    /** A have message. It is invalid exactly when the piece is known not to exist. */
    method PeerSentHave(c: PeerConn, piece: int) returns (valid: bool)
      requires Valid() && c in conns && !c.closed
      modifies this`relativeAvailability, c`peerPieces
      ensures Valid()
      ensures valid <==> 0 <= piece && (haveInfo ==> piece < numPieces)
      ensures c.peerPieces == if !valid || c.peerSentHaveAll then old(c.peerPieces) else old(c.peerPieces) + {piece as nat}
    {
      if (haveInfo && piece >= numPieces) || piece < 0 { return false; }
      valid := true;
      if c.peerSentHaveAll || piece in c.peerPieces { return; }
      SplitIffRight(c);
      hide CountsRight, Others, Counted;
      IncPieceAvailability(piece);
      SetPieces(c, c.peerPieces + {piece as nat});
      assert SplitRight(c);
      hide SplitRight;
      SplitIffRight(c);
    }

    /** The accounting with connection `c` looked at apart from the others. */
    ghost predicate SplitRight(c: PeerConn)
      reads this, conns, c
    {
      haveInfo ==> forall i <- relativeAvailability ::
        relativeAvailability[i] == Others(i, c) + Bit(c.Counts(i))
    }

    lemma {:induction false} SplitIffRight(c: PeerConn)
      requires c in conns
      ensures SplitRight(c) <==> CountsRight()
    {
      if haveInfo {
        forall i <- relativeAvailability ensures Counted(i) == Others(i, c) + if c.Counts(i) then 1 else 0 { CountedSplit(i, c); }
      }
    }

    method OnPeerHasAllPieces(c: PeerConn)
      requires Valid() && c in conns && !c.closed
      modifies this`relativeAvailability, this`connsWithAllPieces, c`peerPieces, c`peerSentHaveAll
      ensures Valid()
      ensures c.peerSentHaveAll && c.peerPieces == {} && c in connsWithAllPieces
    {
      SplitIffRight(c);
      Losable(c);
      hide CountsRight, Others, Counted;
      if haveInfo {
        DecAll(c.peerPieces);
      }
      MarkHaveAll(c);
      assert SplitRight(c);
      hide *;
      SplitIffRight(c);
    }

    method MarkHaveAll(c: PeerConn)
      requires AllSetRight() && InfoRight() && c in conns && !c.closed
      modifies this`connsWithAllPieces, c`peerPieces, c`peerSentHaveAll
      ensures AllSetRight() && InfoRight()
      ensures connsWithAllPieces == old(connsWithAllPieces) + {c} && c.peerSentHaveAll && c.peerPieces == {}
    {
      connsWithAllPieces := connsWithAllPieces + {c};
      c.peerSentHaveAll := true;
      c.peerPieces := {};
    }

    method SetPieces(c: PeerConn, pieces: set<nat>)
      requires AllSetRight() && InfoRight() && c in conns && !c.peerSentHaveAll
      requires haveInfo ==> forall i <- pieces :: i < numPieces
      modifies c`peerPieces
      ensures AllSetRight() && InfoRight() && c.peerPieces == pieces
    {
      c.peerPieces := pieces;
    }

    /** What a counted connection claims can be taken back without going negative. */
    lemma {:induction false} Losable(c: PeerConn)
      requires Valid() && c in conns && !c.closed
      ensures haveInfo && !c.peerSentHaveAll ==> forall i <- c.peerPieces :: i in relativeAvailability && relativeAvailability[i] > 0
      ensures c.peerSentHaveAll ==> c.peerPieces == {}
    {
      if haveInfo && !c.peerSentHaveAll {
        forall i <- c.peerPieces ensures i in relativeAvailability && relativeAvailability[i] > 0 {
          CountedSplit(i, c);
        }
      }
    }

    /** A bitfield replaces what the connection claimed before, have-all included.
        Known excess pieces are ignored. */
    method PeerSentBitfield(c: PeerConn, bf: seq<bool>)
      requires Valid() && c in conns && !c.closed
      requires |bf| % 8 == 0
      modifies this`relativeAvailability, this`connsWithAllPieces, c`peerPieces, c`peerSentHaveAll
      ensures Valid()
      ensures c.peerSentHaveAll <==> haveInfo && |Kept(bf)| == numPieces
      ensures c.peerPieces == if c.peerSentHaveAll then {} else Kept(bf)
    {
      hide *;
      var bm := Kept(bf);
      if haveInfo && |bm| == numPieces {
        OnPeerHasAllPieces(c);
        return;
      }
      FlippedTwice(Kept(bf), c.peerPieces);
      if c.peerSentHaveAll {
        ForgetHaveAll(c);
      } else {
        bm := Flipped(bm, c.peerPieces);
      }
      if haveInfo { Existing(bf, bm, c); }
      Flip(c, bm);
    }

    lemma {:induction false} FlippedTwice(a: set<nat>, b: set<nat>)
      ensures Flipped(b, Flipped(a, b)) == a && Flipped({}, a) == a
    {
    }

    method ForgetHaveAll(c: PeerConn)
      requires Valid() && c in conns && !c.closed && c.peerSentHaveAll
      modifies this`connsWithAllPieces, c`peerSentHaveAll
      ensures Valid() && !c.peerSentHaveAll && c.peerPieces == {}
    {
      SplitIffRight(c);
      hide CountsRight, Others, Counted;
      assert c in connsWithAllPieces;  // panic otherwise
      connsWithAllPieces := connsWithAllPieces - {c};
      c.peerSentHaveAll := false;
      assert c.peerPieces == {};  // panic: no individual pieces expected
      SplitIffRight(c);
    }

    /** Turns the claim of every piece in `bm` around. */
    method Flip(c: PeerConn, bm: set<nat>)
      requires Valid() && c in conns && !c.closed && !c.peerSentHaveAll
      requires haveInfo ==> bm <= relativeAvailability.Keys
      modifies this`relativeAvailability, c`peerPieces
      ensures Valid() && c.peerPieces == Flipped(old(c.peerPieces), bm)
    {
      hide Valid, CountsRight, Others, Counted, AllSetRight, Flipped, SplitRight;
      CountedApart(c);
      Losable(c);
      FlipAvailability(c, bm);
      FlippedInfo(c.peerPieces, bm);
      SetPieces(c, Flipped(c.peerPieces, bm));
      CountedTogether(c);
    }

    /** The accounting, with an open connection without have-all looked at apart. */
    lemma {:induction false} CountedApart(c: PeerConn)
      requires Valid() && c in conns && !c.closed && !c.peerSentHaveAll
      ensures AllSetRight() && InfoRight()
      ensures haveInfo ==> forall i <- relativeAvailability :: relativeAvailability[i] == Others(i, c) + Bit(i in c.peerPieces)
      ensures haveInfo ==> forall i <- c.peerPieces :: i < numPieces
    {
      SplitIffRight(c);
      hide CountsRight, Others, Counted, AllSetRight;
    }

    lemma {:induction false} CountedTogether(c: PeerConn)
      requires AllSetRight() && InfoRight() && c in conns && !c.closed && !c.peerSentHaveAll
      requires haveInfo ==> forall i <- relativeAvailability :: relativeAvailability[i] == Others(i, c) + Bit(i in c.peerPieces)
      ensures Valid()
    {
      SplitIffRight(c);
      hide CountsRight, Others, Counted, AllSetRight, InfoRight;
    }

    /** The symmetric difference, as the bitmap's xor computes it. */
    function Flipped(a: set<nat>, b: set<nat>): set<nat> { (a - b) + (b - a) }

    lemma {:induction false} Existing(bf: seq<bool>, bm: set<nat>, c: PeerConn)
      requires Valid() && haveInfo && c in conns && (bm == Kept(bf) || bm == Flipped(Kept(bf), c.peerPieces))
      ensures bm <= relativeAvailability.Keys
    {
      forall i <- Kept(bf) ensures i in relativeAvailability {}
      forall i <- c.peerPieces ensures i in relativeAvailability {}
    }

    lemma {:induction false} FlippedInfo(a: set<nat>, bm: set<nat>)
      requires InfoRight()
      requires haveInfo ==> bm <= relativeAvailability.Keys && forall i <- a :: i < numPieces
      ensures haveInfo ==> forall i <- Flipped(a, bm) :: i < numPieces
    {
    }

    /** Counts every changing piece: down when the connection had it, else up. */
    method FlipAvailability(c: PeerConn, bm: set<nat>)
      requires haveInfo ==> forall i <- bm :: i in relativeAvailability && (i in c.peerPieces ==> relativeAvailability[i] > 0)
      modifies this`relativeAvailability
      ensures relativeAvailability.Keys == old(relativeAvailability.Keys)
      ensures haveInfo ==> forall i <- relativeAvailability ::
        relativeAvailability[i] == old(relativeAvailability)[i] + Bit(i in Flipped(c.peerPieces, bm)) - Bit(i in c.peerPieces)
      ensures !haveInfo ==> relativeAvailability == old(relativeAvailability)
    {
      var todo := bm;
      while todo != {}
        invariant todo <= bm && relativeAvailability.Keys == old(relativeAvailability.Keys)
        invariant !haveInfo ==> relativeAvailability == old(relativeAvailability)
        invariant forall i <- relativeAvailability ::
          relativeAvailability[i] == old(relativeAvailability)[i] + if !haveInfo || i !in bm - todo then 0 else if i in c.peerPieces then -1 else 1
        decreases todo
      {
        var i :| i in todo;
        if i in c.peerPieces {
          DecPieceAvailability(i);
        } else {
          IncPieceAvailability(i);
        }
        todo := todo - {i};
      }
    }

    /** The set bits of a bitfield, cut to the pieces known to exist. */
    function Kept(bf: seq<bool>): set<nat>
      reads this`haveInfo, this`numPieces
    {
      set i | 0 <= i < |bf| && bf[i] && (haveInfo ==> i < numPieces)
    }

    /** A have-none message, as the code treats it. The accounting survives exactly
        when the connection had not sent have-all before. */
    method PeerSentHaveNone(c: PeerConn)
      requires Valid() && c in conns && !c.closed
      modifies this`relativeAvailability, this`connsWithAllPieces, c`peerPieces, c`peerSentHaveAll
      ensures c.peerPieces == {} && !c.peerSentHaveAll
      ensures Valid() <==> !old(c.peerSentHaveAll)
      ensures old(c.peerSentHaveAll) ==> connsWithAllPieces == old(connsWithAllPieces)
    {
      if !c.peerSentHaveAll {
        DecPeerPieceAvailability(c);
      } else {
        SplitIffRight(c);
        assert c in connsWithAllPieces;
      }
      c.peerPieces := {};
      c.peerSentHaveAll := false;
      SplitIffRight(c);
    }

    /** Takes back everything connection `c` is counted for. */
    method DecPeerPieceAvailability(c: PeerConn)
      requires Valid() && c in conns && !c.closed
      modifies this`relativeAvailability, this`connsWithAllPieces
      ensures connsWithAllPieces == old(connsWithAllPieces) - {c}
      ensures relativeAvailability.Keys == old(relativeAvailability.Keys)
      ensures haveInfo ==> forall i <- relativeAvailability :: relativeAvailability[i] == Others(i, c)
      ensures !haveInfo ==> relativeAvailability == old(relativeAvailability)
    {
      SplitIffRight(c);
      Losable(c);
      if c in connsWithAllPieces {
        connsWithAllPieces := connsWithAllPieces - {c};
        return;
      }
      if !haveInfo { return; }
      DecAll(c.peerPieces);
    }

    method Close(c: PeerConn)
      requires Valid() && c in conns
      modifies this`relativeAvailability, this`connsWithAllPieces, c`closed
      ensures Valid() && c.closed
      ensures old(c.closed) ==> relativeAvailability == old(relativeAvailability)
    {
      hide CountsRight, Others, Counted;
      if c.closed { return; }
      DecPeerPieceAvailability(c);
      c.closed := true;
      SplitIffRight(c);
    }

    // ---- when the info arrives

    /** Does the count made when the info arrives take connection `c` to have piece
        `i` of `n`? As many pieces as there are count as all of them. */
    predicate Claims(c: PeerConn, i: nat, n: nat)
      reads this`connsWithAllPieces, c
    {
      c !in connsWithAllPieces && (c.peerSentHaveAll || |c.peerPieces| == n || i in c.peerPieces)
    }

    /** The connection's claims survive the count: a closed one makes none, and an
        open one with `n` pieces has exactly the `n` pieces there are. */
    predicate ClaimsFit(c: PeerConn, n: nat)
      reads this`connsWithAllPieces, c
    {
      || n == 0 || c in connsWithAllPieces
      || (c.closed && !c.peerSentHaveAll && |c.peerPieces| != n && forall i <- c.peerPieces :: i >= n)
      || (!c.closed && (|c.peerPieces| == n ==> forall i <- c.peerPieces :: i < n))
    }

    ghost function ClaimCount(i: nat, n: nat): nat
      reads this`conns, this`connsWithAllPieces, conns
    {
      |set c <- conns | Claims(c, i, n)|
    }

    method SelectiveAvailability(i: nat, n: nat) returns (count: nat)
      ensures count == ClaimCount(i, n)
    {
      count := 0;
      var todo := conns;
      while todo != {}
        invariant todo <= conns
        invariant count == |set c <- conns - todo | Claims(c, i, n)|
        decreases todo
      {
        var c :| c in todo;
        ghost var before := set d <- conns - todo | Claims(d, i, n);
        todo := todo - {c};
        assert (set d <- conns - todo | Claims(d, i, n)) == if Claims(c, i, n) then before + {c} else before;
        if Claims(c, i, n) { count := count + 1; }
      }
      assert conns - todo == conns;
    }

    /** The info arrives: every piece is counted, then claims about pieces that do
        not exist are dropped. The accounting is right afterwards exactly when the
        claims of every connection fit. */
    method OnSetInfo(n: nat)
      requires Valid() && !haveInfo
      modifies this`haveInfo, this`numPieces, this`relativeAvailability, conns`peerPieces
      ensures haveInfo && numPieces == n
      ensures Valid() <==> old(forall c <- conns :: ClaimsFit(c, n))
    {
      hide CountsRight, InfoRight, AllSetRight, ClaimCount, ClaimsFit;
      CountClaims(n);
      RightWhenFit(n);
      TrimClaims(n);
    }

    /** Counts the claims about every piece. */
    method CountClaims(n: nat)
      modifies this`haveInfo, this`numPieces, this`relativeAvailability
      ensures haveInfo && numPieces == n
      ensures forall j: nat :: j in relativeAvailability <==> j < n
      ensures forall j <- relativeAvailability :: relativeAvailability[j] == ClaimCount(j, n)
    {
      hide ClaimCount;
      haveInfo, numPieces := true, n;
      relativeAvailability := map[];
      for i := 0 to n
        modifies this`relativeAvailability
        invariant forall j: nat :: j in relativeAvailability <==> j < i
        invariant forall j <- relativeAvailability :: relativeAvailability[j] == ClaimCount(j, n)
      {
        var count := SelectiveAvailability(i, n);
        relativeAvailability := relativeAvailability[i := count];
      }
    }

    lemma {:induction false} RightWhenFit(n: nat)
      requires AllSetRight() && haveInfo && forall j: nat :: j in relativeAvailability <==> j < n
      requires forall j <- relativeAvailability :: relativeAvailability[j] == ClaimCount(j, n)
      ensures CountsRight() <==> forall c <- conns :: ClaimsFit(c, n)
    {
      hide AllSetRight, ClaimCount, ClaimsFit, Counted;
      if forall c <- conns :: ClaimsFit(c, n) {
        forall i: nat | i < n ensures relativeAvailability[i] == Counted(i) { FitClaimsCount(i, n); }
      } else {
        var bad := UnfitClaimMiscounts(n);
        assert relativeAvailability[bad] > Counted(bad);
      }
    }

    /** Drops the claims about pieces that do not exist. */
    method TrimClaims(n: nat)
      requires haveInfo && numPieces == n && AllSetRight() && forall j: nat :: j in relativeAvailability <==> j < n
      modifies conns`peerPieces
      ensures AllSetRight() && InfoRight() && (CountsRight() <==> old(CountsRight()))
    {
      forall c <- conns {
        c.peerPieces := set i <- c.peerPieces | i < n;
      }
      forall i: nat | i < n ensures Counted(i) == old(Counted(i)) {
        assert (set c <- conns | c.Counts(i)) == old(set c <- conns | c.Counts(i));
      }
    }

    lemma {:induction false} FitClaimsCount(i: nat, n: nat)
      requires AllSetRight() && i < n && forall c <- conns :: ClaimsFit(c, n)
      ensures ClaimCount(i, n) == Counted(i)
    {
      forall c <- conns | Claims(c, i, n) ensures c.Counts(i) {
        assert ClaimsFit(c, n);
        if |c.peerPieces| == n && i !in c.peerPieces { FullSetHasAll(c.peerPieces, i, n); }
      }
      assert (set c <- conns | Claims(c, i, n)) == (set c <- conns | c.Counts(i));
    }

    /** A set of `n` numbers below `n` contains each of them. */
    lemma {:induction false} FullSetHasAll(s: set<nat>, i: nat, n: nat)
      requires |s| == n && i < n && forall x <- s :: x < n
      ensures i in s
    {
      SubsetSameSize(s, Below(n));
    }

    /** A set of `n` numbers, not all below `n`, lacks one that is. */
    lemma {:induction false} OutsiderMeansGap(s: set<nat>, x: nat, n: nat)
      requires |s| == n && x in s && x >= n
      ensures exists i: nat :: i < n && i !in s
    {
      if Below(n) <= s { SubsetSameSize(Below(n), s); }
      var i :| i in Below(n) && i !in s;
    }

    lemma {:induction false} UnfitClaimMiscounts(n: nat) returns (i: nat)
      requires AllSetRight() && exists c <- conns :: !ClaimsFit(c, n)
      ensures i < n && ClaimCount(i, n) > Counted(i)
    {
      var c :| c in conns && !ClaimsFit(c, n);
      if !c.closed {
        var x :| x in c.peerPieces && x >= n;
        OutsiderMeansGap(c.peerPieces, x, n);
        i :| i < n && i !in c.peerPieces;
      } else if c.peerSentHaveAll || |c.peerPieces| == n {
        i := 0;
      } else {
        i :| i in c.peerPieces && i < n;
      }
      var claims, counts := set d <- conns | Claims(d, i, n), set d <- conns | d.Counts(i);
      assert c in claims && c !in counts;
      assert claims == counts + {c} + (claims - counts - {c});
    }
  }

  /** The failing have-none: a connection that said have-all and then have-none
      leaves the torrent one holder too many. */
  method HaveNoneAfterHaveAll(t: Torrent, c: PeerConn)
    requires t.Valid() && c in t.conns && !c.closed
    modifies t`relativeAvailability, t`connsWithAllPieces, c`peerPieces, c`peerSentHaveAll
    ensures !t.Valid() && c in t.connsWithAllPieces && !c.peerSentHaveAll
  {
    t.OnPeerHasAllPieces(c);
    t.PeerSentHaveNone(c);
  }

  /** The failing arrival of the info: a connection has claimed one piece, the torrent has
      one, and it is not that one. The connection is counted for it all the same. */
  method InfoAfterFarClaim() returns (t: Torrent, c: PeerConn)
    ensures fresh(t) && t.haveInfo && t.numPieces == 1 && t.conns == {c} && !t.Valid()
  {
    t := new Torrent();
    c := new PeerConn();
    t.AddConn(c);
    var valid := t.PeerSentHave(c, 5);
    assert |c.peerPieces| == 1 && 5 in c.peerPieces;
    assert !t.ClaimsFit(c, 1);
    t.OnSetInfo(1);
  }
}
