/** All peers over one allocator: what every message of every peer keeps, and where every block then is. */
module Peers {
  import opened Basics
  import opened Pools
  import opened Allocator
  import opened AdjRibIn

  ghost function Tables(peers: seq<Peer>): set<array<nat>> {
    set q | q in peers :: q.adjRibIn
  }

  /** Every peer is in order, no two share anything, and every block in use belongs to one of them. */
  ghost predicate System(heap: Allocator, peers: seq<Peer>)
    reads heap, peers, Tables(peers)
  {
    && heap.Valid()
    && (forall i: nat | i < |peers| :: peers[i].heap == heap && peers[i].Valid())
    && (forall i: nat, j: nat | i < j < |peers| :: Separate(peers[i], peers[j]))
    && (forall p <- heap.InUse() :: exists i: nat :: i < |peers| && p in peers[i].mine)
  }

  ghost predicate Separate(a: Peer, b: Peer)
    reads a, b
  {
    a != b && a.adjRibIn != b.adjRibIn && a.mine !! b.mine
  }

  /** The books and the blocks of every peer. */
  ghost function Sides(peers: seq<Peer>): (sides: seq<Side>)
    reads peers, Tables(peers)
    ensures |sides| == |peers|
  {
    seq(|peers|, i requires 0 <= i < |peers| reads peers, Tables(peers) => Side(peers[i].Book(), peers[i].mine))
  }

  /** The blocks in use, divided among the peers, whose books are in order. */
  ghost predicate Divided(used: set<nat>, sides: seq<Side>) {
    && (forall i: nat | i < |sides| :: sides[i].mine <= used && Counted(sides[i].rib, sides[i].mine))
    && (forall i: nat, j: nat | i < j < |sides| :: sides[i].mine !! sides[j].mine)
    && (forall p <- used :: exists i: nat :: i < |sides| && p in sides[i].mine)
  }

  ghost predicate Apart(heap: Allocator, peers: seq<Peer>)
    reads heap
  {
    && heap.Caches() == |heap.largeLines|
    && (forall i: nat | i < |peers| :: peers[i].heap == heap && peers[i].cache < heap.Caches())
    && (forall i: nat, j: nat | i < j < |peers| :: peers[i] != peers[j] && peers[i].adjRibIn != peers[j].adjRibIn)
  }

  lemma SystemDivides(heap: Allocator, peers: seq<Peer>)
    requires System(heap, peers)
    ensures Divided(heap.InUse(), Sides(peers)) && Apart(heap, peers)
  {
    var sides := Sides(peers);
    forall i: nat | i < |peers| ensures sides[i].mine <= heap.InUse() && Counted(sides[i].rib, sides[i].mine) {
      assert peers[i].Valid();
    }
    forall i: nat, j: nat | i < j < |peers| ensures Separate(peers[i], peers[j]) {}
    forall p <- heap.InUse() ensures exists i: nat :: i < |sides| && p in sides[i].mine {
      var i: nat :| i < |peers| && p in peers[i].mine;
      assert sides[i].mine == peers[i].mine;
    }
  }

  /** Dividing stays possible when one side changes and everything outside its share stays. */
  lemma StaysDivided(used: set<nat>, sides: seq<Side>, i: nat, used': set<nat>, side: Side)
    requires Divided(used, sides) && i < |sides|
    requires side.mine <= used' && used' - side.mine == used - sides[i].mine && Counted(side.rib, side.mine)
    ensures Divided(used', sides[i := side])
  {
    var sides' := sides[i := side];
    forall j: nat | j < |sides| && j != i ensures sides[j].mine <= used - sides[i].mine && sides[j].mine !! side.mine {}
    forall p <- used' ensures exists j: nat :: j < |sides'| && p in sides'[j].mine {
      if p in side.mine {
        assert p in sides'[i].mine;
      } else {
        assert p in used - sides[i].mine;
        var j: nat :| j < |sides| && p in sides[j].mine;
        assert p in sides'[j].mine;
      }
    }
  }

  lemma DividedIsSystem(heap: Allocator, peers: seq<Peer>)
    requires heap.Valid() && Apart(heap, peers) && Divided(heap.InUse(), Sides(peers))
    ensures System(heap, peers)
  {
    var sides := Sides(peers);
    forall j: nat | j < |peers| ensures peers[j].Valid() {
      assert sides[j] == Side(peers[j].Book(), peers[j].mine);
    }
    forall j: nat, k: nat | j < k < |peers| ensures Separate(peers[j], peers[k]) {
      assert sides[j].mine !! sides[k].mine;
    }
    forall p <- heap.InUse() ensures exists j: nat :: j < |peers| && p in peers[j].mine {
      var j: nat :| j < |peers| && p in sides[j].mine;
      assert p in peers[j].mine;
    }
  }

  /**
   A step of one peer that keeps that peer in order and leaves the blocks of the others
   alone keeps the whole system.
   */
  lemma StepKeepsSystem(heap: Allocator, peers: seq<Peer>, i: nat, used: set<nat>, sides: seq<Side>)
    requires Divided(used, sides) && |sides| == |peers| && i < |peers| && Apart(heap, peers)
    requires forall j: nat | j < |peers| && j != i :: Side(peers[j].Book(), peers[j].mine) == sides[j]
    requires peers[i].Valid() && heap.InUse() - peers[i].mine == used - sides[i].mine
    ensures System(heap, peers) && Sides(peers) == sides[i := Side(peers[i].Book(), peers[i].mine)]
  {
    StaysDivided(used, sides, i, heap.InUse(), Side(peers[i].Book(), peers[i].mine));
    assert Sides(peers) == sides[i := Side(peers[i].Book(), peers[i].mine)];
    DividedIsSystem(heap, peers);
  }

  /** One more peer over the same allocator. */
  method AddPeer(heap: Allocator, peers: seq<Peer>, size: nat) returns (peer: Peer)
    requires heap.Valid() && |peers| < heap.Caches() && Apart(heap, peers)
    ensures Apart(heap, peers + [peer]) && fresh(peer) && fresh(peer.adjRibIn) && peer.cache == |peers|
    ensures Sides(peers + [peer]) == old(Sides(peers)) + [NewSide(size)]
    ensures Tables(peers + [peer]) == Tables(peers) + {peer.adjRibIn}
  {
    peer := new Peer(heap, |peers|, size);
  }

  lemma NewIsSystem(heap: Allocator, peers: seq<Peer>, size: nat)
    requires heap.Valid() && heap.InUse() == {} && Apart(heap, peers)
    requires forall i: nat | i < |peers| :: Sides(peers)[i] == NewSide(size)
    ensures System(heap, peers)
  {
    DividedIsSystem(heap, peers);
  }

  /** The allocator and its peers before the first message. */
  method InitPeers(slab: nat, smallMax: nat, largeMax: nat, n: nat, size: nat)
    returns (heap: Allocator, peers: seq<Peer>)
    requires slab > 0 && smallMax < 0x8000_0000 && largeMax < 0x8000_0000 && Product32(SMALL, smallMax) > 0
    ensures fresh(heap) && fresh(set q | q in peers) && fresh(Tables(peers))
    ensures System(heap, peers) && |peers| == n && forall i: nat | i < n :: Sides(peers)[i] == NewSide(size)
    ensures forall i: nat | i < n :: peers[i].cache == i
  {
    heap := new Allocator(slab, smallMax, largeMax, n);
    peers := [];
    while |peers| < n
      invariant |peers| <= n && heap.Valid() && heap.Caches() == n && heap.InUse() == {} && Apart(heap, peers)
      invariant fresh(set q | q in peers) && fresh(Tables(peers))
      invariant forall i: nat | i < |peers| :: Sides(peers)[i] == NewSide(size) && peers[i].cache == i
    {
      var peer := AddPeer(heap, peers, size);
      peers := peers + [peer];
    }
    NewIsSystem(heap, peers, size);
  }

  /** An UPDATE from a peer, with its prefixes already looked up. */
  datatype Incoming = Incoming(from: nat, length: nat, attributesLength: nat, nlri: Looked, withdrawn: Looked)

  predicate Announces(u: Incoming) {
    u.attributesLength > 0 && |u.nlri| > 0
  }

  /** A message that fits its length and the slots of its peer, and does not free its own route at once. */
  ghost predicate Acceptable(u: Incoming, peers: seq<Peer>) {
    && u.from < |peers| && |u.nlri| + |u.withdrawn| <= u.length <= 4096
    && Fits(u.nlri, peers[u.from].adjRibIn.Length) && Fits(u.withdrawn, peers[u.from].adjRibIn.Length)
    && (Announces(u) ==> !EarlyRepeat(Accepted(u.nlri, |u.nlri|)))
  }

  /** What a put, an allocation and a message make of a peer. */
  ghost function Placed(side: Side, index: nat, eob: bool, route: nat): Side
    requires index < |side.rib.slots|
  {
    Side(Update(side.rib, index, eob, route), Left(side.rib, side.mine, index, route))
  }

  ghost function Begun(side: Side, route: nat): Side {
    Side(Start(side.rib, route), MineWith(side.mine, route))
  }

  ghost function Received(side: Side, u: Incoming, route: nat): Side
    requires Fits(u.nlri, |side.rib.slots|) && Fits(u.withdrawn, |side.rib.slots|)
  {
    if |u.nlri| + |u.withdrawn| == 0 then side
    else Side(Message(side.rib, route, u.nlri, u.withdrawn),
              MessageMine(side.rib, side.mine, route, u.nlri, u.withdrawn))
  }

  /**
   A route put into a slot, or taken out of it, in the middle of a message, while other
   peers are in the middle of theirs.
   */
  method PutOne(heap: Allocator, peers: seq<Peer>, i: nat, index: nat, eob: bool, route: nat)
    requires System(heap, peers) && i < |peers| && index < peers[i].adjRibIn.Length
    requires MayPut(peers[i].Book(), peers[i].mine, index, route)
    modifies heap, peers[i], peers[i].adjRibIn
    ensures System(heap, peers)
    ensures Sides(peers) == old(Sides(peers))[i := Placed(old(Sides(peers)[i]), index, eob, route)]
    ensures OnlyCache(peers[i].cache, old(heap.smallBooks), heap.smallBooks)
    ensures OnlyCache(peers[i].cache, old(heap.largeBooks), heap.largeBooks)
  {
    ghost var used, sides := heap.InUse(), Sides(peers);
    SystemDivides(heap, peers);
    var peer := peers[i];
    assert peer.Valid();
    peer.UpdateAdjRibIn(index, eob, route);
    forall j: nat | j < |peers| && j != i ensures Side(peers[j].Book(), peers[j].mine) == sides[j] {
      var q := peers[j];
      assert q != peer && q.adjRibIn != peer.adjRibIn;
      assert unchanged(q) && unchanged(q.adjRibIn);
    }
    StepKeepsSystem(heap, peers, i, used, sides);
  }

  /** A route allocated for a message, while other peers are in the middle of theirs. */
  method BeginOne(heap: Allocator, peers: seq<Peer>, i: nat, size: nat) returns (ok: bool, route: nat)
    requires System(heap, peers) && i < |peers| && heap.SafeFor(peers[i].cache, size)
    modifies heap, peers[i]
    ensures ok ==> System(heap, peers) && route != NULL && route !in old(heap.InUse())
    ensures ok <==> old(heap.HasBlock(peers[i].cache, size))
    ensures !ok ==> peers[i].cache < heap.Caches() == |heap.largeLines| && !heap.HasBlock(peers[i].cache, size)
    ensures ok ==> route == old(heap.NextBlock(peers[i].cache, size))
    ensures ok ==> OnlyCache(peers[i].cache, old(heap.smallBooks), heap.smallBooks)
    ensures ok ==> OnlyCache(peers[i].cache, old(heap.largeBooks), heap.largeBooks)
    ensures ok ==> Sides(peers) == old(Sides(peers))[i := Begun(old(Sides(peers)[i]), route)]
  {
    ghost var used, sides := heap.InUse(), Sides(peers);
    SystemDivides(heap, peers);
    var peer := peers[i];
    assert peer.Valid();
    ok, route := peer.NewRoute(size);
    if ok {
      StepKeepsSystem(heap, peers, i, used, sides);
    }
  }

  /** One message of any peer. */
  method Receive(heap: Allocator, peers: seq<Peer>, u: Incoming) returns (ok: bool, route: nat)
    requires System(heap, peers) && Acceptable(u, peers)
    requires Announces(u) ==> heap.SafeFor(peers[u.from].cache, u.length + ROUTE_SIZE)
    modifies heap, peers[u.from], peers[u.from].adjRibIn
    ensures ok <==> Announces(u) ==> old(heap.HasBlock(peers[u.from].cache, u.length + ROUTE_SIZE))
    ensures !ok ==>
              peers[u.from].cache < heap.Caches() == |heap.largeLines|
              && !heap.HasBlock(peers[u.from].cache, u.length + ROUTE_SIZE)
    ensures ok ==> System(heap, peers) && (route != NULL <==> Announces(u))
    ensures ok && route != NULL ==> route == old(heap.NextBlock(peers[u.from].cache, u.length + ROUTE_SIZE))
    ensures ok ==> OnlyCache(peers[u.from].cache, old(heap.smallBooks), heap.smallBooks)
    ensures ok ==> OnlyCache(peers[u.from].cache, old(heap.largeBooks), heap.largeBooks)
    ensures ok ==> Sides(peers) == old(Sides(peers))[u.from := Received(old(Sides(peers)[u.from]), u, route)]
  {
    ghost var used, sides := heap.InUse(), Sides(peers);
    SystemDivides(heap, peers);
    var peer := peers[u.from];
    ok, route := peer.ParseUpdate(u.length, u.attributesLength, u.nlri, u.withdrawn);
    if ok {
      StepKeepsSystem(heap, peers, u.from, used, sides);
    }
  }

  /** Has each of these messages, in turn, made of the sides what a message does, with these routes? */
  ghost predicate AllReceived(sides: seq<Side>, us: seq<Incoming>, routes: seq<nat>, sides': seq<Side>)
    decreases |us|
  {
    |routes| == |us| &&
    if us == [] then sides' == sides
    else
      var n, u := |us| - 1, us[|us| - 1];
      exists mid: seq<Side> :: AllReceived(sides, us[..n], routes[..n], mid) && ReceivedOne(mid, u, routes[n], sides')
  }

  ghost predicate ReceivedOne(sides: seq<Side>, u: Incoming, route: nat, sides': seq<Side>) {
    && u.from < |sides|
    && Fits(u.nlri, |sides[u.from].rib.slots|) && Fits(u.withdrawn, |sides[u.from].rib.slots|)
    && (route != NULL <==> Announces(u))
    && sides' == sides[u.from := Received(sides[u.from], u, route)]
  }

  lemma OneMoreReceived(sides: seq<Side>, us: seq<Incoming>, n: nat, routes: seq<nat>, mid: seq<Side>, route: nat,
      sides': seq<Side>)
    requires n < |us| && AllReceived(sides, us[..n], routes, mid) && ReceivedOne(mid, us[n], route, sides')
    ensures AllReceived(sides, us[..n + 1], routes + [route], sides')
  {
    assert us[..n + 1][..n] == us[..n] && (routes + [route])[..n] == routes;
  }

  /** Could this message not be taken because the pools would meet, or because there is no block for its route? */
  predicate Stuck(heap: Allocator, peers: seq<Peer>, u: Incoming, ok: bool)
    reads heap
  {
    && Announces(u) && u.from < |peers| && peers[u.from].cache < heap.Caches() == |heap.largeLines|
    && if ok then !heap.SafeFor(peers[u.from].cache, u.length + ROUTE_SIZE)
       else !heap.HasBlock(peers[u.from].cache, u.length + ROUTE_SIZE)
  }

  /**
   Any run of messages of any peers, up to the first one for which the pools would meet,
   or for which there is no block: then the allocator's assertion fails, and there is no result.
   */
  method ReceiveAll(heap: Allocator, peers: seq<Peer>, us: seq<Incoming>)
    returns (ok: bool, n: nat, ghost routes: seq<nat>)
    requires System(heap, peers) && forall u <- us :: Acceptable(u, peers)
    modifies heap, peers, Tables(peers)
    ensures n <= |us| && (ok ==> System(heap, peers))
    ensures ok ==> AllReceived(old(Sides(peers)), us[..n], routes, Sides(peers))
    ensures !ok ==> n < |us|
    ensures n < |us| ==> Stuck(heap, peers, us[n], ok)
  {
    ghost var sides := Sides(peers);
    ok, n, routes := true, 0, [];
    while n < |us|
      invariant n <= |us| && ok && System(heap, peers) && AllReceived(sides, us[..n], routes, Sides(peers))
    {
      var u := us[n];
      assert u in us && Acceptable(u, peers) && peers[u.from].Valid();
      if Announces(u) && !heap.SafeFor(peers[u.from].cache, u.length + ROUTE_SIZE) {
        return;
      }
      ghost var mid := Sides(peers);
      var route;
      ok, route := Receive(heap, peers, u);
      if !ok {
        return;
      }
      OneMoreReceived(sides, us, n, routes, mid, route, Sides(peers));
      n, routes := n + 1, routes + [route];
    }
  }

  // ---------------------------------------------------------------- where every block is

  predicate HeldBy(q: Peer, p: nat)
    reads q, q.adjRibIn
  {
    p in q.adjRibIn[..]
  }

  ghost predicate LeakedBy(q: Peer, p: nat)
    reads q, q.adjRibIn
  {
    p in Leaked(q.Book(), q.mine)
  }

  ghost predicate OnSomeList(pool: Pool, books: Books, p: nat) {
    exists c: nat :: c < |books.lists| && p in FreeBlocks(pool, books.lists[c])
  }

  /** A block in use is held or leaked by exactly one peer, and not both; any other block by none. */
  lemma UsedByOnePeer(heap: Allocator, peers: seq<Peer>, p: nat)
    requires System(heap, peers) && p != NULL
    ensures p in heap.InUse() <==> exists i: nat :: i < |peers| && (HeldBy(peers[i], p) || LeakedBy(peers[i], p))
    ensures forall i: nat, j: nat | i < j < |peers| && (HeldBy(peers[i], p) || LeakedBy(peers[i], p)) ::
              !HeldBy(peers[j], p) && !LeakedBy(peers[j], p)
    ensures forall i: nat | i < |peers| :: !(HeldBy(peers[i], p) && LeakedBy(peers[i], p))
  {
    forall i: nat | i < |peers|
      ensures p in peers[i].mine <==> HeldBy(peers[i], p) || LeakedBy(peers[i], p)
      ensures !(HeldBy(peers[i], p) && LeakedBy(peers[i], p))
      ensures p in peers[i].mine ==> p in heap.InUse()
    {
      assert peers[i].Valid();
      UsedAreHeldOrLeaked(peers[i].Book(), peers[i].mine);
    }
    if p in heap.InUse() {
      var i: nat :| i < |peers| && p in peers[i].mine;
      assert HeldBy(peers[i], p) || LeakedBy(peers[i], p);
    }
    forall i: nat, j: nat | i < j < |peers| && p in peers[i].mine ensures p !in peers[j].mine {
      assert Separate(peers[i], peers[j]);
    }
  }

  /**
   Every block ever issued is, in every state of every run, in exactly one of three
   places: in the slots of one peer, at one place of one free list, or leaked by one peer.
   */
  lemma EveryBlockAccounted(heap: Allocator, peers: seq<Peer>, big: bool, i: nat)
    requires System(heap, peers) && i < (if big then heap.large else heap.small).index
    ensures var pool, books := if big then heap.large else heap.small, if big then heap.largeBooks else heap.smallBooks;
            var p := BlockAt(pool, i);
            && (p in heap.InUse() <==> !OnSomeList(pool, books, p))
            && (p in heap.InUse() <==> exists i: nat :: i < |peers| && (HeldBy(peers[i], p) || LeakedBy(peers[i], p)))
  {
    var pool, books := if big then heap.large else heap.small, if big then heap.largeBooks else heap.smallBooks;
    var lines, p := if big then heap.largeLines else heap.smallLines, BlockAt(pool, i);
    OnePlace(pool, lines, heap.memory, books, i);
    BlockNotNull(pool, i);
    UsedByOnePeer(heap, peers, p);
    assert p in heap.InUse() <==> p in LiveBlocks(pool, books.places) by {
      SizesKnown(heap.small, heap.smallBooks.places, heap.large, heap.largeBooks.places, p);
      if big {
        Scale(0, i, pool.allocMax);
      } else {
        SmallBelow(pool, heap.large.buf, i);
      }
    }
  }
}
