/**
 What the threads remember of a run, and that their next operation is a step of it. What
 they remember agrees with what the steps say of the messages, the slots and the addresses.
 */
module Progress {
  import opened Basics
  import opened Pools
  import opened Grouping
  import opened LocRib
  import opened AdjRibIn
  import opened Requests
  import opened World
  import opened WorldRuns
  import opened TableWorld
  import opened Operations
  import P = Peers

  /** The route of the message a peer is in, and how many of its prefixes have been put; NULL once it withdraws. */
  datatype Current = Current(route: nat, count: nat)

  /** What the threads know: the message each peer is in, what lies in the blocks, and the next number of a route. */
  datatype Memo = Memo(now: seq<Current>, contents: map<nat, Route>, unique: nat)

  /** The current routes are in use, put as often as is remembered, and counted no more often than that. */
  ghost predicate CurrentOk(w: World, now: seq<Current>) {
    && |now| == |w.sides|
    && forall i: nat | i < |now| && now[i].route != NULL ::
         && now[i].route in w.sides[i].mine
         && CountOf(w.sides[i].rib, now[i].route) <= now[i].count == Puts(w, now[i].route)
  }

  /** No route has this number or a greater one. */
  ghost predicate Numbered(w: World, unique: nat) {
    forall n: nat | unique <= n :: Unseen(w, n)
  }

  ghost predicate Ready(w: World, size: nat, peers: nat, now: seq<Current>, unique: nat) {
    Inv(w, size, peers) && CurrentOk(w, now) && Numbered(w, unique) && !w.failed
  }

  lemma BeginReady(w: World, size: nat, peers: nat, now: seq<Current>, unique: nat, i: nat, p: nat, r: Route)
    requires Ready(w, size, peers, now, unique) && i < peers && p != NULL && !InUse(w, p) && r.unique == unique
    ensures Enabled(w, Fill(i, p, r))
    ensures var next := Next(w, Fill(i, p, r));
            && Ready(next, size, peers, now[i := Current(p, 0)], unique + 1)
            && next.sides == w.sides[i := P.Begun(w.sides[i], p)]
  {
    var next := Next(w, Fill(i, p, r));
    StepInv(w, size, peers, Fill(i, p, r));
    forall n: nat | unique + 1 <= n ensures Unseen(next, n) { assert Unseen(w, n); }
    forall j: nat | j < peers && p in w.sides[j].mine ensures false { assert InUse(w, p); }
  }

  lemma PutNumbered(w: World, size: nat, peers: nat, unique: nat, s: Step)
    requires Inv(w, size, peers) && Numbered(w, unique) && Enabled(w, s) && s.Put?
    ensures Numbered(Next(w, s), unique)
  {
    forall n: nat | unique <= n ensures Unseen(Next(w, s), n) { assert Unseen(w, n); }
  }

  lemma PlaceCurrent(w: World, size: nat, peers: nat, now: seq<Current>, i: nat, s: Step)
    requires Inv(w, size, peers) && CurrentOk(w, now) && Enabled(w, s) && s.Put?
    requires s.peer == i < peers && s.block == now[i].route != NULL
    ensures CurrentOk(Next(w, s), now[i := Current(now[i].route, now[i].count + 1)])
  {
    var next, p := Next(w, s), s.block;
    assert p in next.sides[i].mine && CountOf(next.sides[i].rib, p) <= now[i].count + 1 by {
      UpdateKeeps(w.sides[i].rib, w.sides[i].mine, s.index, s.eob, p);
    }
    forall j: nat | j < peers && j != i ensures next.sides[j] == w.sides[j] && p !in w.sides[j].mine {}
  }

  lemma PlaceReady(w: World, size: nat, peers: nat, now: seq<Current>, unique: nat, i: nat, a: nat, eob: bool)
    requires Ready(w, size, peers, now, unique) && i < peers && a < size
    requires now[i].route != NULL && now[i].count < PREFIX_LIMIT
    requires w.sides[i].rib.slots[a] == now[i].route ==> CountOf(w.sides[i].rib, now[i].route) != 1
    ensures Enabled(w, Put(i, a, eob, now[i].route))
    ensures var next := Next(w, Put(i, a, eob, now[i].route));
            && Ready(next, size, peers, now[i := Current(now[i].route, now[i].count + 1)], unique)
            && next.sides == w.sides[i := P.Placed(w.sides[i], a, eob, now[i].route)]
  {
    var s := Put(i, a, eob, now[i].route);
    StepInv(w, size, peers, s);
    PutNumbered(w, size, peers, unique, s);
    PlaceCurrent(w, size, peers, now, i, s);
  }

  lemma WithdrawReady(w: World, size: nat, peers: nat, now: seq<Current>, unique: nat, i: nat, a: nat, eob: bool)
    requires Ready(w, size, peers, now, unique) && i < peers && a < size
    ensures Enabled(w, Put(i, a, eob, NULL))
    ensures var next := Next(w, Put(i, a, eob, NULL));
            && Ready(next, size, peers, now[i := Current(NULL, 0)], unique)
            && next.sides == w.sides[i := P.Placed(w.sides[i], a, eob, NULL)]
  {
    StepInv(w, size, peers, Put(i, a, eob, NULL));
    PutNumbered(w, size, peers, unique, Put(i, a, eob, NULL));
  }

  lemma FlushReady(w: World, size: nat, peers: nat, now: seq<Current>, unique: nat)
    requires Ready(w, size, peers, now, unique) && Enabled(w, Flush) && !Next(w, Flush).failed
    ensures Ready(Next(w, Flush), size, peers, now, unique) && Next(w, Flush).sides == w.sides
  {
    StepInv(w, size, peers, Flush);
    forall n: nat | unique <= n ensures Unseen(Next(w, Flush), n) { assert Unseen(w, n); }
  }

  // ---------------------------------------------------------------- what the steps say

  /** What is remembered of the messages and of the routes read is what the steps say. */
  ghost predicate Recalls(w: World, now: seq<Current>, unique: nat, steps: seq<Step>) {
    && unique == Fills(steps)
    && forall i: nat | i < |now| ::
         now[i].route == MessageBlock(steps, i) && Held(w.contents, now[i].route) == MessageRoute(steps, i)
  }

  lemma BeginRecalls(w: World, now: seq<Current>, unique: nat, steps: seq<Step>, i: nat, p: nat, r: Route)
    requires CurrentOk(w, now) && Recalls(w, now, unique, steps) && Enabled(w, Fill(i, p, r)) && p != NULL
    ensures Recalls(Next(w, Fill(i, p, r)), now[i := Current(p, 0)], unique + 1, steps + [Fill(i, p, r)])
  {
    StepsSnoc(steps, Fill(i, p, r));
    forall j: nat | j < |now| && j != i ensures now[j].route != p {
      assert p in w.sides[j].mine ==> InUse(w, p);
    }
  }

  lemma PutRecalls(w: World, memo: Memo, steps: seq<Step>, op: Op)
    requires (op.Place? || op.Withdraw?) && op.peer < |memo.now|
    requires Recalls(w, memo.now, memo.unique, steps) && Enabled(w, PutStep(memo, op))
    requires op.Place? ==> memo.now[op.peer].route != NULL
    ensures var s, after := PutStep(memo, op), AfterPut(memo, op);
            Recalls(Next(w, s), after.now, after.unique, steps + [s])
  {
    StepsSnoc(steps, PutStep(memo, op));
  }

  // ---------------------------------------------------------------- the next operation

  /** The steps have led to this world, and the program can go on from it. */
  ghost predicate Follows(care: Care, size: nat, peers: nat, memo: Memo, steps: seq<Step>, w: World) {
    && Ready(w, size, peers, memo.now, memo.unique) && memo.contents == w.contents
    && Reached(care, size, peers, steps, w)
    && Recalls(w, memo.now, memo.unique, steps) && Told(steps, w)
  }

  lemma InitFollows(care: Care, size: nat, peers: nat)
    ensures Follows(care, size, peers, Memo(seq(peers, _ => Current(NULL, 0)), map[], 0), [], Init(size, peers))
  {
    InitOk(size, peers);
  }

  lemma BeginFollows(care: Care, size: nat, peers: nat, memo: Memo, steps: seq<Step>, w: World,
      i: nat, p: nat, route: Route)
    requires Follows(care, size, peers, memo, steps, w) && i < peers && p != NULL && !InUse(w, p)
    requires route.unique == memo.unique && Allows(care, Entries(w), Held(memo.contents, p), route)
    ensures var fill := Fill(i, p, route);
            && Enabled(w, fill) && Entries(Next(w, fill)) == Refilled(Entries(w), Held(memo.contents, p), route)
            && Next(w, fill).sides == w.sides[i := P.Begun(w.sides[i], p)]
            && Follows(care, size, peers, AfterBegin(memo, i, p, route), steps + [fill], Next(w, fill))
  {
    var fill := Fill(i, p, route);
    BeginReady(w, size, peers, memo.now, memo.unique, i, p, route);
    AllowsExactly(care, w, size, peers, i, p, route);
    FillShows(w, size, peers, i, p, route);
    LeadsSnoc(care, Init(size, peers), steps, w, fill);
    BeginRecalls(w, memo.now, memo.unique, steps, i, p, route);
    FillTold(w, size, peers, steps, fill);
  }

  function AfterBegin(memo: Memo, i: nat, p: nat, route: Route): Memo
    requires i < |memo.now|
  {
    Memo(memo.now[i := Current(p, 0)], memo.contents[p := route], memo.unique + 1)
  }

  /** The block that goes into a slot, and what the threads know afterwards. */
  function PutBlock(memo: Memo, op: Op): nat
    requires (op.Place? || op.Withdraw?) && op.peer < |memo.now|
  {
    if op.Place? then memo.now[op.peer].route else NULL
  }

  function AfterPut(memo: Memo, op: Op): Memo
    requires (op.Place? || op.Withdraw?) && op.peer < |memo.now|
  {
    var i := op.peer;
    var next := if op.Place? then Current(memo.now[i].route, memo.now[i].count + 1) else Current(NULL, 0);
    memo.(now := memo.now[i := next])
  }

  function PutStep(memo: Memo, op: Op): Step
    requires (op.Place? || op.Withdraw?) && op.peer < |memo.now|
  {
    Put(op.peer, op.index, op.eob, PutBlock(memo, op))
  }

  /** May the operation's route go into its slot? */
  ghost predicate MayDo(memo: Memo, w: World, size: nat, op: Op) {
    && (op.Place? || op.Withdraw?) && op.peer < |memo.now| == |w.sides| && op.index < size
    && op.index < |w.sides[op.peer].rib.slots|
    && (op.Place? ==>
          var i, p := op.peer, memo.now[op.peer].route;
          && p != NULL && memo.now[i].count < PREFIX_LIMIT
          && (w.sides[i].rib.slots[op.index] == p ==> CountOf(w.sides[i].rib, p) != 1))
  }

  /** The step, and the output phase if the step schedules it. */
  ghost function PutSteps(w: World, s: Step): seq<Step>
    requires s.Put? && s.index < |w.heads| == |w.flags|
  {
    if Schedules(w, s) then [s, Flush] else [s]
  }

  lemma PutReady(size: nat, peers: nat, memo: Memo, w: World, op: Op)
    requires Ready(w, size, peers, memo.now, memo.unique) && MayDo(memo, w, size, op)
    ensures var s, after := PutStep(memo, op), AfterPut(memo, op);
            && Enabled(w, s) && Ready(Next(w, s), size, peers, after.now, after.unique)
            && Next(w, s).sides == w.sides[op.peer := P.Placed(w.sides[op.peer], op.index, op.eob, s.block)]
  {
    if op.Place? {
      PlaceReady(w, size, peers, memo.now, memo.unique, op.peer, op.index, op.eob);
    } else {
      WithdrawReady(w, size, peers, memo.now, memo.unique, op.peer, op.index, op.eob);
    }
  }

  lemma PutLeads(care: Care, size: nat, peers: nat, memo: Memo, steps: seq<Step>, w: World, op: Op)
    requires Follows(care, size, peers, memo, steps, w) && MayDo(memo, w, size, op) && Enabled(w, PutStep(memo, op))
    requires Ready(Next(w, PutStep(memo, op)), size, peers, AfterPut(memo, op).now, AfterPut(memo, op).unique)
    ensures Follows(care, size, peers, AfterPut(memo, op), steps + [PutStep(memo, op)], Next(w, PutStep(memo, op)))
  {
    LeadsSnoc(care, Init(size, peers), steps, w, PutStep(memo, op));
    PutRecalls(w, memo, steps, op);
    PutTold(w, size, peers, steps, PutStep(memo, op));
  }

  lemma FlushFollows(care: Care, size: nat, peers: nat, memo: Memo, steps: seq<Step>, w: World)
    requires Follows(care, size, peers, memo, steps, w)
    ensures Enabled(w, Flush) && Reached(care, size, peers, steps + [Flush], Next(w, Flush))
    ensures Next(w, Flush).sides == w.sides
    ensures !Next(w, Flush).failed ==> Follows(care, size, peers, memo, steps + [Flush], Next(w, Flush))
  {
    LeadsSnoc(care, Init(size, peers), steps, w, Flush);
    if !Next(w, Flush).failed {
      FlushReady(w, size, peers, memo.now, memo.unique);
      StepsSnoc(steps, Flush);
      FlushTold(w, steps);
    }
  }

  lemma DonePut(memo: Memo, steps: seq<Step>, w: World, size: nat, op: Op)
    requires Recalls(w, memo.now, memo.unique, steps)
    requires MayDo(memo, w, size, op) && op.index < |w.heads| == |w.flags|
    ensures DoneBy(op, steps, PutSteps(w, PutStep(memo, op)))
  {
  }

  /** A put is left out only where `World` does not have it. */
  lemma MayDoExactly(care: Care, size: nat, peers: nat, memo: Memo, steps: seq<Step>, w: World, op: Op)
    requires Follows(care, size, peers, memo, steps, w) && (op.Place? || op.Withdraw?) && op.peer < peers
    ensures MayDo(memo, w, size, op) <==>
            Enabled(w, PutStep(memo, op)) && (op.Place? ==> MessageFill(steps, op.peer).Some?)
    ensures op.Place? && MessageFill(steps, op.peer).Some? ==>
              PutStep(memo, op).block == MessageFill(steps, op.peer).value.block
  {
    if MayDo(memo, w, size, op) { PutReady(size, peers, memo, w, op); }
  }

  lemma PutFollows(care: Care, size: nat, peers: nat, memo: Memo, steps: seq<Step>, w: World, op: Op)
    requires Follows(care, size, peers, memo, steps, w) && MayDo(memo, w, size, op)
    ensures Enabled(w, PutStep(memo, op)) && Readable(Next(w, PutStep(memo, op)))
    ensures var s := PutStep(memo, op);
            var next := PutAndFlush(w, s);
            && next.sides == w.sides[op.peer := P.Placed(w.sides[op.peer], op.index, op.eob, s.block)]
            && DoneBy(op, steps, PutSteps(w, s)) && Reached(care, size, peers, steps + PutSteps(w, s), next)
            && (!next.failed ==> Follows(care, size, peers, AfterPut(memo, op), steps + PutSteps(w, s), next))
  {
    var s := PutStep(memo, op);
    PutReady(size, peers, memo, w, op);
    PutLeads(care, size, peers, memo, steps, w, op);
    DonePut(memo, steps, w, size, op);
    if Schedules(w, s) {
      FlushFollows(care, size, peers, AfterPut(memo, op), steps + [s], Next(w, s));
      assert steps + [s] + [Flush] == steps + PutSteps(w, s);
    }
  }
}
