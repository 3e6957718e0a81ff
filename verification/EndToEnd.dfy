/**
 From the UPDATE messages of any peers to the listener: what it has heard of the slots in
 use, and when a Loc-RIB head refers to a freed block.
 */
module EndToEnd {
  import opened Basics
  import opened Pools
  import opened Grouping
  import opened LocRib
  import opened Requests
  import opened AdjRibIn
  import opened World
  import opened BlockRuns
  import opened RunLength
  import opened WorldRuns
  import P = Pipeline
  import S = PipelineSafety

  // ---------------------------------------------------------------- the listener

  /** Is this the slot of the peer that announced the address last, and is it in use? */
  predicate Winning(w: World, i: nat, a: nat) {
    i < |w.sides| && a < |w.sides[i].rib.slots| && w.sides[i].rib.slots[a] != NULL && LastPeer(w.log, a) == Some(i)
  }

  /** In every run such a slot holds what the requests announced last. */
  lemma WinningSlot(care: Care, size: nat, peers: nat, steps: seq<Step>, w: World, i: nat, a: nat)
    requires Reached(care, size, peers, steps, w) && Winning(w, i, a)
    ensures NewWins(ReqsOf(w.log), a) == Held(w.contents, w.sides[i].rib.slots[a])
  {
    RunOk(care, size, peers, steps, w);
    LastOfAll(w.log, a);
  }

  /**
   From any messages of any peers, served one after the other, to the listener: the output
   phase ends exactly if no block is crowded, which the guard on waiting heads makes sure
   of; and once it has ended the listener has heard the record announced last for every
   address, which lies in the slot of the peer that announced it, if that slot is in use.
   */
  lemma SlotsAreHeard(care: Care, size: nat, peers: nat, steps: seq<Step>, w: World)
    requires Reached(care, size, peers, steps, w) && KeepsRecords(care) && !w.failed
    ensures Enabled(w, Flush) && (Next(w, Flush).failed <==> exists i: nat :: Crowded(w, i))
    ensures KeepsRuns(care) ==> !Next(w, Flush).failed
    ensures !Next(w, Flush).failed ==>
              forall a: nat | a < size :: SameTiebreak(HeardLast(Next(w, Flush), a), NewWins(ReqsOf(w.log), a))
    ensures !Next(w, Flush).failed ==>
              forall a: nat, i: nat | a < size && Winning(w, i, a) ::
                SameTiebreak(HeardLast(Next(w, Flush), a), Held(w.contents, w.sides[i].rib.slots[a]))
  {
    RunOk(care, size, peers, steps, w);
    FlushEndsExactly(w, size, peers);
    if KeepsRuns(care) { FewWaitingFit(w, size, peers); }
    if !Next(w, Flush).failed {
      forall a: nat | a < size ensures SameTiebreak(HeardLast(Next(w, Flush), a), NewWins(ReqsOf(w.log), a)) {
        HeardIsLast(w, size, peers, a);
      }
      forall a: nat, i: nat | a < size && Winning(w, i, a)
        ensures SameTiebreak(HeardLast(Next(w, Flush), a), Held(w.contents, w.sides[i].rib.slots[a]))
      {
        WinningSlot(care, size, peers, steps, w, i, a);
      }
    }
  }

  lemma HeardIsLast(w: World, size: nat, peers: nat, a: nat)
    requires Inv(w, size, peers) && RecordsAgree(w) && HeardOk(w) && a < size && Enabled(w, Flush) && RunsFit(w)
    ensures SameTiebreak(HeardLast(Next(w, Flush), a), NewWins(ReqsOf(w.log), a))
  {
    assert SameTiebreak(Held(w.contents, w.heads[a]), HeadAfter(ReqsOf(w.log), a));
    LogProper(w);
    SuppressionRefinesNewWins(ReqsOf(w.log), a);
    FlushTells(w, a);
    assert a in w.journal <==> w.flags[a];
  }

  lemma LogProper(w: World)
    requires LogOk(w)
    ensures Proper(ReqsOf(w.log))
  {
    forall r <- ReqsOf(w.log) ensures r.update == r.newRoute.Some? {
      var k: nat :| k < |w.log| && w.log[k].req == r;
      assert w.log[k] in w.log;
    }
  }

  lemma AskedInRun(w: World, size: nat, peers: nat, limit: nat)
    requires Inv(w, size, peers) && PREFIX_LIMIT <= limit
    ensures AskedWithin(ReqsOf(w.log), limit)
  {
    forall r <- ReqsOf(w.log) | r.newRoute.Some? ensures AskedFor(ReqsOf(w.log), r.newRoute) <= limit {
      assert AskedFor(ReqsOf(w.log), Some(r.newRoute.value)) <= PREFIX_LIMIT;
    }
  }

  /**
   The same through the protocol, for the messages of any peers on threads of their own,
   merged in lock order, while no head's block is handed out again. The heads are then the
   very routes in the heads' blocks, and two heads are one route exactly if they are one
   block. With fewer addresses than ring slots, and an address table that holds the
   prefixes of a message, nothing fails in any interleaving, and after the forced flush the
   listener has heard the record in every slot that announced its address last.
   */
  lemma PeersAreHeard(c: P.Config, pre: seq<P.Action>, s: P.State, t: nat, peers: nat, steps: seq<Step>, w: World)
    returns (all: seq<P.Action>, s': P.State)
    requires 4096 <= c.runLimit && c.addresses < c.capacity
    requires P.Leads(c, P.Init(c), pre, s) && S.AllIdle(s) && t < |s.threads|
    requires Reached(NoHead, c.addresses, peers, steps, w) && Served(pre) == ReqsOf(w.log)
    ensures s.fault == P.NoFault && s'.fault == P.NoFault && P.Leads(c, P.Init(c), all, s') && pre <= all
    ensures P.Shape(c, s) && |w.heads| == c.addresses
    ensures forall a: nat | a < c.addresses :: s.entries[a].head == Held(w.contents, w.heads[a])
    ensures forall a: nat, b: nat | a < c.addresses && b < c.addresses ::
              s.entries[a].head == s.entries[b].head <==> w.heads[a] == w.heads[b]
    ensures forall a: nat, i: nat | a < c.addresses && Winning(w, i, a) ::
              SameTiebreak(LastAnnounced(Flatten(s'.earlier), a), Held(w.contents, w.sides[i].rib.slots[a]))
  {
    assert Inv(w, c.addresses, peers) && RoutesAgree(w) by { RunOk(NoHead, c.addresses, peers, steps, w); }
    AskedInRun(w, c.addresses, peers, c.runLimit);
    HeadsFollowRequests(c, pre, s);
    forall a: nat | a < c.addresses ensures s.entries[a].head == Held(w.contents, w.heads[a]) {
      assert Held(w.contents, w.heads[a]) == HeadAfter(ReqsOf(w.log), a);
      assert w.heads[a] in w.heads;
    }
    all, s' := FlushNeverFails(c, pre, s, t);
    forall a: nat, i: nat | a < c.addresses && Winning(w, i, a)
      ensures SameTiebreak(LastAnnounced(Flatten(s'.earlier), a), Held(w.contents, w.sides[i].rib.slots[a]))
    {
      WinningSlot(NoHead, c.addresses, peers, steps, w, i, a);
    }
  }

  // ---------------------------------------------------------------- heads of freed blocks

  ghost predicate InSomeSlot(w: World, p: nat) {
    exists i: nat :: i < |w.sides| && p in w.sides[i].rib.slots
  }

  /** No head is a block that is in use and in no slot. */
  ghost predicate HeadsHeld(w: World) {
    forall i: nat | i < |w.sides| :: forall p <- w.heads :: p !in Leaked(w.sides[i].rib, w.sides[i].mine)
  }

  lemma HeadsHeldFill(w: World, size: nat, peers: nat, s: Step)
    requires Inv(w, size, peers) && Enabled(w, s) && Guard(NoHead, w, s) && HeadsHeld(w) && s.Fill?
    ensures HeadsHeld(Next(w, s))
  {
    var side, p := w.sides[s.peer], s.block;
    assert p !in side.mine by { assert p != NULL ==> !InUse(w, p); }
    StartCounted(side.rib, side.mine, p);
  }

  lemma HeadsHeldPut(w: World, size: nat, peers: nat, s: Step)
    requires Inv(w, size, peers) && Enabled(w, s) && HeadsHeld(w) && s.Put?
    ensures HeadsHeld(Next(w, s))
  {
    LeakedAfter(w.sides[s.peer].rib, w.sides[s.peer].mine, s.index, s.eob, s.block);
  }

  lemma HeadsHeldStep(w: World, size: nat, peers: nat, s: Step)
    requires Inv(w, size, peers) && Enabled(w, s) && Guard(NoHead, w, s) && HeadsHeld(w)
    ensures HeadsHeld(Next(w, s))
  {
    match s
    case Fill(_, _, _) => HeadsHeldFill(w, size, peers, s);
    case Put(_, _, _, _) => HeadsHeldPut(w, size, peers, s);
    case Flush =>
  }

  lemma {:induction false} HeadsHeldInRun(size: nat, peers: nat, steps: seq<Step>, w: World)
    requires Reached(NoHead, size, peers, steps, w)
    ensures HeadsHeld(w)
    decreases |steps|
  {
    if steps != [] {
      var n := |steps| - 1;
      var mid :| Leads(NoHead, Init(size, peers), steps[..n], mid) && Enabled(mid, steps[n])
        && Guard(NoHead, mid, steps[n]) && w == Next(mid, steps[n]);
      RunOk(NoHead, size, peers, steps[..n], mid);
      HeadsHeldInRun(size, peers, steps[..n], mid);
      HeadsHeldStep(mid, size, peers, steps[n]);
    }
  }

  /**
   While no head's block is handed out again, a head refers to a freed block exactly when
   no slot of any peer holds the block; the slot that announced the address last is then
   empty, or holds another block with an equal record.
   */
  lemma HeadFreedExactly(size: nat, peers: nat, steps: seq<Step>, w: World, a: nat)
    requires Reached(NoHead, size, peers, steps, w) && a < size
    ensures |w.heads| == size
    ensures w.heads[a] != NULL ==> (!InUse(w, w.heads[a]) <==> !InSomeSlot(w, w.heads[a]))
    ensures forall i: nat | Winning(w, i, a) ::
              var p := w.sides[i].rib.slots[a];
              SameTiebreak(Held(w.contents, w.heads[a]), Held(w.contents, p))
              && (!InUse(w, w.heads[a]) ==> p != w.heads[a])
  {
    RunOk(NoHead, size, peers, steps, w);
    HeadsHeldInRun(size, peers, steps, w);
    var p := w.heads[a];
    forall i: nat | i < |w.sides| && p != NULL ensures p in w.sides[i].mine <==> p in w.sides[i].rib.slots {
      UsedAreHeldOrLeaked(w.sides[i].rib, w.sides[i].mine);
    }
    assert SameTiebreak(Held(w.contents, p), HeadAfter(ReqsOf(w.log), a));
    LogProper(w);
    SuppressionRefinesNewWins(ReqsOf(w.log), a);
    forall i: nat | Winning(w, i, a)
      ensures NewWins(ReqsOf(w.log), a) == Held(w.contents, w.sides[i].rib.slots[a])
    {
      WinningSlot(NoHead, size, peers, steps, w, i, a);
    }
  }
}
