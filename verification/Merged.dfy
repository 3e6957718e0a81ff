/**
 The program: peers over one allocator, and the Loc-RIB with its output phase, the messages
 of the peers merged step by step. Whatever the order, it follows a run of `World`.
 */
module Merged {
  import opened Basics
  import opened Pools
  import opened Allocator
  import opened Grouping
  import opened LocRib
  import opened AdjRibIn
  import opened Requests
  import opened World
  import opened BlockRuns
  import opened WorldRuns
  import opened EndToEnd
  import opened TableWorld
  import opened OutputPhase
  import opened Operations
  import opened Progress
  import P = Peers

  /** How an operation or a run ends: well, at an operation that is not allowed, or in a failed assertion. */
  datatype End = Done | Refused | OutOfMemory | Overlong

  /** The peers are in order and have the sides of this world. */
  ghost predicate Mirrors(heap: Allocator, peers: seq<Peer>, w: World)
    reads heap, peers, P.Tables(peers)
  {
    P.System(heap, peers) && P.Sides(peers) == w.sides
  }

  /** The arrays of the Loc-RIB are none of the peers'. */
  ghost predicate Disjoint(peers: seq<Peer>, table: LocRibTable) {
    var slots: set<object> := P.Tables(peers);
    table.entries !in slots && table.journal.ring !in slots
  }

  ghost predicate Running(heap: Allocator, peers: seq<Peer>, table: LocRibTable, care: Care, memo: Memo,
      steps: seq<Step>, w: World)
    reads heap, peers, P.Tables(peers), table, table.entries, table.journal, table.journal.ring
  {
    && Follows(care, table.entries.Length, |peers|, memo, steps, w)
    && Mirrors(heap, peers, w) && Shows(table, w) && Disjoint(peers, table)
  }

  /**
   A route must not carry the small pool into the large one, and the guard must allow its
   block; a prefix must have a slot, belong to a message, and not free the route of its
   own message.
   */
  predicate Allowed(heap: Allocator, peers: seq<Peer>, table: LocRibTable, care: Care, memo: Memo, op: Op)
    requires |memo.now| == |peers|
    reads heap, peers, P.Tables(peers), table.entries
  {
    (op.Force? || op.peer < |peers|) &&
    match op
    case Begin(i, size, t, octets) =>
      && peers[i].cache < |heap.smallLines| && peers[i].cache < |heap.largeLines|
      && heap.SafeFor(peers[i].cache, size)
      && Allows(care, table.entries[..], Held(memo.contents, heap.NextBlock(peers[i].cache, size)),
                Route(memo.unique, t, octets))
    case Place(i, a, _) =>
      && a < peers[i].adjRibIn.Length && memo.now[i].route != NULL && memo.now[i].count < PREFIX_LIMIT
      && !(peers[i].adjRibIn[a] == memo.now[i].route
           && memo.now[i].route in peers[i].useCount && peers[i].useCount[memo.now[i].route] == 1)
    case Withdraw(i, a, _) => a < peers[i].adjRibIn.Length
    case Force => true
  }

  /** Has `World` a step for the operation, and would it not carry the small pool into the large one? */
  ghost predicate MayGoOn(heap: Allocator, peers: seq<Peer>, care: Care, steps: seq<Step>, w: World, op: Op)
    reads heap, peers
  {
    match op
    case Begin(i, size, t, octets) =>
      && i < |peers| && peers[i].cache < |heap.smallLines| == |heap.largeLines|
      && heap.SafeFor(peers[i].cache, size)
      && Guard(care, w, Fill(i, heap.NextBlock(peers[i].cache, size), Route(Fills(steps), t, octets)))
    case Place(i, a, eob) =>
      MessageFill(steps, i).Some? && Enabled(w, Put(i, a, eob, MessageFill(steps, i).value.block))
    case Withdraw(i, a, eob) => Enabled(w, Put(i, a, eob, NULL))
    case Force => true
  }

  /** The program goes on exactly where `World` does. */
  lemma AllowedExactly(heap: Allocator, peers: seq<Peer>, table: LocRibTable, care: Care, memo: Memo, op: Op,
      steps: seq<Step>, w: World)
    requires Running(heap, peers, table, care, memo, steps, w)
    ensures Allowed(heap, peers, table, care, memo, op) <==> MayGoOn(heap, peers, care, steps, w, op)
  {
    if !op.Force? && op.peer < |peers| {
      if op.Begin? {
        BeginAllowedExactly(heap, peers, table, care, memo, op, steps, w);
      } else {
        PutAllowed(heap, peers, table, care, memo, op, steps, w);
        MayDoExactly(care, table.entries.Length, |peers|, memo, steps, w, op);
      }
    }
  }

  lemma PutAllowed(heap: Allocator, peers: seq<Peer>, table: LocRibTable, care: Care, memo: Memo, op: Op,
      steps: seq<Step>, w: World)
    requires Running(heap, peers, table, care, memo, steps, w) && (op.Place? || op.Withdraw?) && op.peer < |peers|
    ensures Allowed(heap, peers, table, care, memo, op) <==> MayDo(memo, w, table.entries.Length, op)
  {
    assert Side(peers[op.peer].Book(), peers[op.peer].mine) == w.sides[op.peer];
  }

  lemma BeginAllowedExactly(heap: Allocator, peers: seq<Peer>, table: LocRibTable, care: Care, memo: Memo, op: Op,
      steps: seq<Step>, w: World)
    requires Running(heap, peers, table, care, memo, steps, w) && op.Begin? && op.peer < |peers|
    ensures Allowed(heap, peers, table, care, memo, op) <==> MayGoOn(heap, peers, care, steps, w, op)
  {
    var cache := peers[op.peer].cache;
    assert heap.Valid() && peers[op.peer].Valid();
    var p := heap.NextBlock(cache, op.size);
    NextNotNull(heap, cache, op.size);
    AllowsExactly(care, w, table.entries.Length, |peers|, op.peer, p, Route(memo.unique, op.tiebreak, op.attributes));
  }

  /** What is done to the entries leaves the peers alone. */
  method RefillBeside(heap: Allocator, peers: seq<Peer>, table: LocRibTable, before: Head, route: Route,
      ghost w: World, ghost next: World)
    requires Mirrors(heap, peers, next) && Shows(table, w) && Disjoint(peers, table)
    requires |next.heads| == |next.flags| == |w.heads| && next.announced == w.announced && !next.failed
    requires Entries(next) == Refilled(Entries(w), before, route) && next.journal == w.journal
    modifies table.entries
    ensures Mirrors(heap, peers, next) && Shows(table, next)
  {
    RefillTable(table, before, route);
  }

  /** What is allocated leaves the entries alone. */
  method BeginBeside(heap: Allocator, peers: seq<Peer>, table: LocRibTable, i: nat, size: nat, ghost w: World)
    returns (ok: bool, p: nat)
    requires Mirrors(heap, peers, w) && Shows(table, w) && Disjoint(peers, table)
    requires i < |peers| && peers[i].cache < heap.Caches() && heap.SafeFor(peers[i].cache, size)
    requires peers[i].cache < |heap.largeLines|
    modifies heap, peers[i]
    ensures Shows(table, w)
    ensures ok <==> old(heap.HasBlock(peers[i].cache, size))
    ensures !ok ==> peers[i].cache < heap.Caches() == |heap.largeLines| && !heap.HasBlock(peers[i].cache, size)
    ensures ok ==> P.System(heap, peers) && P.Sides(peers) == w.sides[i := P.Begun(w.sides[i], p)]
    ensures ok ==> p != NULL && !InUse(w, p) && p == old(heap.NextBlock(peers[i].cache, size))
  {
    P.SystemDivides(heap, peers);
    ok, p := P.BeginOne(heap, peers, i, size);
  }

  /** Is there no block for the route that the operation would read? */
  predicate NoBlock(heap: Allocator, peers: seq<Peer>, op: Op)
    reads heap
  {
    && op.Begin? && op.peer < |peers| && peers[op.peer].cache < heap.Caches() == |heap.largeLines|
    && !heap.HasBlock(peers[op.peer].cache, op.size)
  }

  /** A route is allocated, the block compared with the heads, and the route read into it. */
  method DoBegin(heap: Allocator, peers: seq<Peer>, table: LocRibTable, ghost care: Care, memo: Memo, op: Op,
      ghost steps: seq<Step>, ghost w: World)
    returns (ok: bool, memo': Memo, ghost s: Step)
    requires Running(heap, peers, table, care, memo, steps, w)
    requires op.Begin? && Allowed(heap, peers, table, care, memo, op)
    modifies heap, peers[op.peer], table.entries
    ensures ok <==> !old(NoBlock(heap, peers, op))
    ensures !ok ==> NoBlock(heap, peers, op)
    ensures ok ==> Enabled(w, s) && DoneBy(op, steps, [s])
    ensures ok ==> s.block == old(heap.NextBlock(peers[op.peer].cache, op.size))
    ensures ok ==> Running(heap, peers, table, care, memo', steps + [s], Next(w, s))
  {
    var i, route := op.peer, Route(memo.unique, op.tiebreak, op.attributes);
    var before := Held(memo.contents, heap.NextBlock(peers[i].cache, op.size));
    ghost var allowed := Allows(care, Entries(w), before, route);
    var p;
    ok, p := BeginBeside(heap, peers, table, i, op.size, w);
    memo', s := AfterBegin(memo, i, p, route), Fill(i, p, route);
    if ok {
      BeginFollows(care, table.entries.Length, |peers|, memo, steps, w, i, p, route);
      RefillBeside(heap, peers, table, before, route, w, Next(w, s));
    }
  }

  /** What is done to a peer's slot leaves the Loc-RIB alone. */
  method PutBeside(heap: Allocator, peers: seq<Peer>, table: LocRibTable, i: nat, a: nat, eob: bool, p: nat,
      ghost w: World)
    requires Mirrors(heap, peers, w) && Shows(table, w) && Disjoint(peers, table)
    requires i < |peers| && a < peers[i].adjRibIn.Length && MayPut(peers[i].Book(), peers[i].mine, a, p)
    modifies heap, peers[i], peers[i].adjRibIn
    ensures Shows(table, w) && P.System(heap, peers)
    ensures i < |w.sides| && a < |w.sides[i].rib.slots|
    ensures P.Sides(peers) == w.sides[i := P.Placed(w.sides[i], a, eob, p)]
  {
    P.PutOne(heap, peers, i, a, eob, p);
  }

  /** What is done to the Loc-RIB leaves the peers alone. */
  method ServeBeside(heap: Allocator, peers: seq<Peer>, table: LocRibTable, contents: map<nat, Route>, a: nat,
      eob: bool, p: nat, had: bool, ghost w: World, ghost s: Step)
    returns (ok: bool)
    requires P.System(heap, peers) && Shows(table, w) && Disjoint(peers, table) && contents == w.contents
    requires Inv(w, table.entries.Length, |peers|) && Enabled(w, s) && s.Put? && s.index == a && s.eob == eob
    requires s.block == p && P.Sides(peers) == Next(w, s).sides
    modifies table, table.journal, table.journal.ring, table.entries
    ensures Readable(Next(w, s)) && P.System(heap, peers) && P.Sides(peers) == Next(w, s).sides
    ensures ok <==> !PutAndFlush(w, s).failed
    ensures ok ==> Shows(table, PutAndFlush(w, s))
  {
    ok := ServeTable(table, contents, a, eob, p, had, w, |peers|, s);
  }

  /** A route is put into a slot, or the slot emptied; the Loc-RIB is called, and the output phase run if it is due. */
  method DoPut(heap: Allocator, peers: seq<Peer>, table: LocRibTable, ghost care: Care, memo: Memo, op: Op,
      ghost steps: seq<Step>, ghost w: World)
    returns (ok: bool, memo': Memo, ghost more: seq<Step>, ghost next: World)
    requires Running(heap, peers, table, care, memo, steps, w)
    requires MayDo(memo, w, table.entries.Length, op)
    modifies heap, peers[op.peer], peers[op.peer].adjRibIn
    modifies table, table.journal, table.journal.ring, table.entries
    ensures DoneBy(op, steps, more) && Reached(care, table.entries.Length, |peers|, steps + more, next)
    ensures Enabled(w, PutStep(memo, op)) && Readable(Next(w, PutStep(memo, op)))
    ensures next == PutAndFlush(w, PutStep(memo, op))
    ensures ok <==> !next.failed
    ensures ok ==> Running(heap, peers, table, care, memo', steps + more, next)
  {
    var i, p := op.peer, PutBlock(memo, op);
    ghost var s := PutStep(memo, op);
    assert peers[i].adjRibIn.Length == |w.sides[i].rib.slots| by {
      assert Side(peers[i].Book(), peers[i].mine) == w.sides[i];
    }
    PutFollows(care, table.entries.Length, |peers|, memo, steps, w, op);
    var had := peers[i].adjRibIn[op.index] != NULL;
    PutBeside(heap, peers, table, i, op.index, op.eob, p, w);
    ok := ServeBeside(heap, peers, table, memo.contents, op.index, op.eob, p, had, w, s);
    memo', more, next := AfterPut(memo, op), PutSteps(w, s), PutAndFlush(w, s);
  }

  /** The output phase leaves the peers alone. */
  method ForceBeside(heap: Allocator, peers: seq<Peer>, table: LocRibTable, ghost w: World) returns (ok: bool)
    requires Mirrors(heap, peers, w) && Shows(table, w) && Disjoint(peers, table) && Enabled(w, Flush)
    requires Next(w, Flush).sides == w.sides
    modifies table, table.journal`jread, table.entries
    ensures Mirrors(heap, peers, Next(w, Flush))
    ensures ok <==> !Next(w, Flush).failed
    ensures ok ==> Shows(table, Next(w, Flush))
  {
    ok := FlushTable(table, w);
  }

  method DoForce(heap: Allocator, peers: seq<Peer>, table: LocRibTable, ghost care: Care, memo: Memo,
      ghost steps: seq<Step>, ghost w: World)
    returns (ok: bool)
    requires Running(heap, peers, table, care, memo, steps, w)
    modifies table, table.journal`jread, table.entries
    ensures Enabled(w, Flush) && Reached(care, table.entries.Length, |peers|, steps + [Flush], Next(w, Flush))
    ensures ok <==> !Next(w, Flush).failed
    ensures ok ==> Running(heap, peers, table, care, memo, steps + [Flush], Next(w, Flush))
  {
    FlushFollows(care, table.entries.Length, |peers|, memo, steps, w);
    ok := ForceBeside(heap, peers, table, w);
  }

  /** One operation. It fails only where an assertion of the allocator or of the output phase does. */
  method Do(heap: Allocator, peers: seq<Peer>, table: LocRibTable, ghost care: Care, memo: Memo, op: Op,
      ghost steps: seq<Step>, ghost w: World)
    returns (end: End, memo': Memo, ghost more: seq<Step>, ghost next: World)
    requires Running(heap, peers, table, care, memo, steps, w)
    requires if op.Begin? then Allowed(heap, peers, table, care, memo, op)
             else op.Force? || MayDo(memo, w, table.entries.Length, op)
    modifies heap, peers, P.Tables(peers), table, table.journal, table.journal.ring, table.entries
    ensures end == Done || end == OutOfMemory || end == Overlong
    ensures end == Done ==> DoneBy(op, steps, more) && Running(heap, peers, table, care, memo', steps + more, next)
    ensures end == OutOfMemory ==> NoBlock(heap, peers, op) && memo' == memo && more == [] && next == w
    ensures end == Overlong ==>
              next.failed && DoneBy(op, steps, more)
              && Reached(care, table.entries.Length, |peers|, steps + more, next)
  {
    var ok;
    match op
    case Begin(_, _, _, _) =>
      ghost var s;
      ok, memo', s := DoBegin(heap, peers, table, care, memo, op, steps, w);
      end := if ok then Done else OutOfMemory;
      memo' := if ok then memo' else memo;
      more, next := if ok then [s] else [], if ok then Next(w, s) else w;
    case Force =>
      ok := DoForce(heap, peers, table, care, memo, steps, w);
      end := if ok then Done else Overlong;
      memo', more, next := memo, [Flush], Next(w, Flush);
    case _ =>
      ok, memo', more, next := DoPut(heap, peers, table, care, memo, op, steps, w);
      end := if ok then Done else Overlong;
  }

  /** Where a run of operations has ended, in the terms of `World`. */
  ghost predicate Ended(heap: Allocator, peers: seq<Peer>, table: LocRibTable, care: Care, ops: seq<Op>,
      end: End, done: nat, memo: Memo, steps: seq<Step>, w: World)
    reads heap, peers, P.Tables(peers), table, table.entries, table.journal, table.journal.ring
  {
    && done <= |ops|
    && match end
       case Done => done == |ops| && Running(heap, peers, table, care, memo, steps, w) && AllDoneBy(ops, steps)
       case Refused =>
         && done < |ops| && Running(heap, peers, table, care, memo, steps, w) && AllDoneBy(ops[..done], steps)
         && !MayGoOn(heap, peers, care, steps, w, ops[done])
       case OutOfMemory =>
         && done < |ops| && NoBlock(heap, peers, ops[done]) && AllDoneBy(ops[..done], steps)
         && Follows(care, table.entries.Length, |peers|, memo, steps, w)
       case Overlong =>
         && done < |ops| && w.failed && AllDoneBy(ops[..done + 1], steps)
         && Reached(care, table.entries.Length, |peers|, steps, w)
  }

  /** The guard on waiting heads keeps the output phase from failing. */
  lemma NeverOverlong(care: Care, size: nat, peers: nat, steps: seq<Step>, w: World)
    requires Reached(care, size, peers, steps, w) && KeepsRuns(care)
    ensures !w.failed
  {
    RunOk(care, size, peers, steps, w);
  }

  /** The next operation, if it is allowed. */
  method DoNext(heap: Allocator, peers: seq<Peer>, table: LocRibTable, care: Care, ops: seq<Op>, done: nat, memo: Memo,
      ghost steps: seq<Step>, ghost w: World)
    returns (end: End, memo': Memo, ghost steps': seq<Step>, ghost next: World)
    requires Running(heap, peers, table, care, memo, steps, w) && done < |ops| && AllDoneBy(ops[..done], steps)
    modifies heap, peers, P.Tables(peers), table, table.journal, table.journal.ring, table.entries
    ensures end == Done ==>
              Running(heap, peers, table, care, memo', steps', next) && AllDoneBy(ops[..done + 1], steps')
    ensures end != Done ==> Ended(heap, peers, table, care, ops, end, done, memo', steps', next)
    ensures KeepsRuns(care) ==> end != Overlong
  {
    AllowedExactly(heap, peers, table, care, memo, ops[done], steps, w);
    if !Allowed(heap, peers, table, care, memo, ops[done]) {
      return Refused, memo, steps, w;
    }
    if ops[done].Place? || ops[done].Withdraw? {
      PutAllowed(heap, peers, table, care, memo, ops[done], steps, w);
    }
    ghost var more;
    end, memo', more, next := Do(heap, peers, table, care, memo, ops[done], steps, w);
    steps' := steps + more;
    if end == OutOfMemory {
      assert steps' == steps;
    } else {
      AllDoneNext(ops, done, steps, more);
    }
    if end == Overlong && KeepsRuns(care) {
      NeverOverlong(care, table.entries.Length, |peers|, steps', next);
    }
  }

  /** Operation after operation, in any order of the peers, up to the first that is not allowed or fails. */
  method DoAll(heap: Allocator, peers: seq<Peer>, table: LocRibTable, care: Care, ops: seq<Op>)
    returns (end: End, done: nat, memo: Memo, ghost steps: seq<Step>, ghost w: World)
    requires Mirrors(heap, peers, Init(table.entries.Length, |peers|)) && Disjoint(peers, table)
    requires Shows(table, Init(table.entries.Length, |peers|))
    modifies heap, peers, P.Tables(peers), table, table.journal, table.journal.ring, table.entries
    ensures Ended(heap, peers, table, care, ops, end, done, memo, steps, w)
    ensures KeepsRuns(care) ==> end != Overlong
  {
    memo, steps, w := Memo(seq(|peers|, _ => Current(NULL, 0)), map[], 0), [], Init(table.entries.Length, |peers|);
    end, done := Done, 0;
    InitFollows(care, table.entries.Length, |peers|);
    while done < |ops|
      invariant done <= |ops|
      invariant Running(heap, peers, table, care, memo, steps, w) && AllDoneBy(ops[..done], steps)
    {
      end, memo, steps, w := DoNext(heap, peers, table, care, ops, done, memo, steps, w);
      if end != Done {
        return;
      }
      done := done + 1;
    }
    end := Done;
    assert ops[..done] == ops;
  }

  /** What the program starts from. */
  method Start(slab: nat, smallMax: nat, largeMax: nat, n: nat, size: nat, capacity: nat)
    returns (heap: Allocator, peers: seq<Peer>, table: LocRibTable)
    requires slab > 0 && smallMax < 0x8000_0000 && largeMax < 0x8000_0000 && Product32(SMALL, smallMax) > 0
    requires size < capacity && size < INDEX_LIMIT
    ensures fresh(heap) && fresh(set q | q in peers) && fresh(P.Tables(peers))
    ensures fresh(table) && fresh(table.entries) && fresh(table.journal) && fresh(table.journal.ring)
    ensures |peers| == n && table.entries.Length == size && Disjoint(peers, table)
    ensures Mirrors(heap, peers, Init(size, n)) && Shows(table, Init(size, n))
  {
    heap, peers := P.InitPeers(slab, smallMax, largeMax, n, size);
    assert P.Sides(peers) == Init(size, n).sides;
    table := new LocRibTable(size, capacity);
    assert table.entries[..] == Entries(Init(size, n));
  }

  // ---------------------------------------------------------------- what comes of it

  /** Every slot holds a block with what its peer announced last, or none if the peer has withdrawn since. */
  ghost predicate SlotsSay(ops: seq<Op>, w: World) {
    forall i: nat, a: nat | i < |w.sides| && a < |w.sides[i].rib.slots| ::
      && Carries(Held(w.contents, w.sides[i].rib.slots[a]), SentFor(ops, i, a))
      && (w.sides[i].rib.slots[a] == NULL <==> SentFor(ops, i, a) == None)
  }

  /** For every address the listener has heard last the record that was announced last, by whatever peer. */
  ghost predicate LastHeard(announced: Blocks, ops: seq<Op>, size: nat) {
    forall a: nat | a < size ::
      var last, sent := LastAnnounced(Flatten(announced), a), LastSent(ops, a);
      && (last.Some? <==> sent.Some?)
      && (sent.Some? ==> last.value.tiebreak == sent.value.tiebreak)
  }

  lemma FlushedIsHeard(care: Care, size: nat, peers: nat, ops: seq<Op>, steps: seq<Step>, w: World)
    requires Reached(care, size, peers, steps, w) && KeepsRecords(care) && !w.failed
    requires Agree(ops, steps) && Told(steps, w)
    ensures Enabled(w, Flush) && (!Next(w, Flush).failed ==> LastHeard(Next(w, Flush).announced, ops, size))
  {
    SlotsAreHeard(care, size, peers, steps, w);
    forall a: nat | a < size && !Next(w, Flush).failed
      ensures SameTiebreak(LastAnnounced(Flatten(Next(w, Flush).announced), a), LastRoute(steps, a))
    {
      assert SameTiebreak(HeardLast(Next(w, Flush), a), NewWins(ReqsOf(w.log), a));
    }
  }

  lemma SlotsAreSaid(size: nat, peers: nat, ops: seq<Op>, steps: seq<Step>, w: World)
    requires Inv(w, size, peers) && Agree(ops, steps) && Told(steps, w)
    ensures SlotsSay(ops, w)
  {
    forall i: nat, a: nat | i < |w.sides| && a < |w.sides[i].rib.slots|
      ensures var p := w.sides[i].rib.slots[a];
              Carries(Held(w.contents, p), SentFor(ops, i, a)) && (p == NULL <==> SentFor(ops, i, a) == None)
    {
      assert Carries(SlotRoute(steps, i, a), SentFor(ops, i, a));
      assert w.sides[i].rib.slots[a] != NULL ==> w.sides[i].rib.slots[a] in w.sides[i].mine;
    }
  }

  /** Behind these operations, from this world, the output phase was forced and led to the next. */
  ghost predicate Forced(care: Care, size: nat, peers: nat, ops: seq<Op>, steps: seq<Step>, w: World, next: World) {
    && AllDoneBy(ops, steps) && Reached(care, size, peers, steps, w)
    && Enabled(w, Flush) && next == Next(w, Flush) && Reached(care, size, peers, steps + [Flush], next)
  }

  lemma LastForce(care: Care, size: nat, peers: nat, memo: Memo, ops: seq<Op>, steps: seq<Step>, w: World)
    requires Follows(care, size, peers, memo, steps, w) && AllDoneBy(ops, steps)
    ensures Enabled(w, Flush) && Forced(care, size, peers, ops, steps, w, Next(w, Flush))
    ensures KeepsRuns(care) ==> !Next(w, Flush).failed
    ensures !Next(w, Flush).failed ==> Next(w, Flush).journal == [] && SlotsSay(ops, Next(w, Flush))
    ensures !Next(w, Flush).failed && KeepsRecords(care) ==> LastHeard(Next(w, Flush).announced, ops, size)
  {
    FlushFollows(care, size, peers, memo, steps, w);
    OpsTell(ops, steps);
    SlotsAreSaid(size, peers, ops, steps, w);
    if KeepsRecords(care) { FlushedIsHeard(care, size, peers, ops, steps, w); }
    if KeepsRuns(care) { NeverOverlong(care, size, peers, steps + [Flush], Next(w, Flush)); }
  }

  /** The forced output phase at the end. */
  method Finish(heap: Allocator, peers: seq<Peer>, table: LocRibTable, ghost care: Care, ghost ops: seq<Op>, memo: Memo,
      ghost steps: seq<Step>, ghost w: World)
    returns (ok: bool, ghost next: World)
    requires Running(heap, peers, table, care, memo, steps, w) && AllDoneBy(ops, steps)
    modifies table, table.journal`jread, table.entries
    ensures Forced(care, table.entries.Length, |peers|, ops, steps, w, next) && (ok <==> !next.failed)
    ensures ok ==> Mirrors(heap, peers, next) && Shows(table, next) && next.journal == [] && SlotsSay(ops, next)
    ensures ok && KeepsRecords(care) ==> LastHeard(table.announced, ops, table.entries.Length)
    ensures KeepsRuns(care) ==> ok
  {
    LastForce(care, table.entries.Length, |peers|, memo, ops, steps, w);
    ok := DoForce(heap, peers, table, care, memo, steps, w);
    next := Next(w, Flush);
  }

  lemma AllDoneForce(ops: seq<Op>, steps: seq<Step>)
    requires AllDoneBy(ops, steps)
    ensures AllDoneBy(ops + [Force], steps + [Flush])
  {
    var all := ops + [Force];
    assert all[..|ops|] == ops && all[..|ops| + 1] == all;
    AllDoneNext(all, |ops|, steps, [Flush]);
  }

  /** Where the program ends, the forced output phase included. */
  ghost predicate Ending(heap: Allocator, peers: seq<Peer>, table: LocRibTable, care: Care, ops: seq<Op>,
      end: End, done: nat, steps: seq<Step>, last: World, w: World)
    reads heap, peers, P.Tables(peers), table, table.entries, table.journal, table.journal.ring
  {
    var size, n := table.entries.Length, |peers|;
    && done <= |ops|
    && match end
       case Done =>
         && done == |ops| && Forced(care, size, n, ops, steps, last, w)
         && Mirrors(heap, peers, w) && Shows(table, w) && w.journal == [] && SlotsSay(ops, w)
         && (KeepsRecords(care) ==> LastHeard(table.announced, ops, size))
       case Refused =>
         && done < |ops| && Forced(care, size, n, ops[..done], steps, last, w)
         && Mirrors(heap, peers, w) && Shows(table, w) && w.journal == [] && SlotsSay(ops[..done], w)
         && (KeepsRecords(care) ==> LastHeard(table.announced, ops[..done], size))
         && !MayGoOn(heap, peers, care, steps, last, ops[done])
       case OutOfMemory =>
         && done < |ops| && AllDoneBy(ops[..done], steps) && Reached(care, size, n, steps, w)
         && NoBlock(heap, peers, ops[done])
       case Overlong =>
         && w.failed && Reached(care, size, n, steps, w) && !KeepsRuns(care)
         && ((done < |ops| && AllDoneBy(ops[..done + 1], steps)) || AllDoneBy(ops[..done] + [Force], steps))
  }

  /** The forced output phase behind the last operation. */
  method Close(heap: Allocator, peers: seq<Peer>, table: LocRibTable, ghost care: Care, ghost ops: seq<Op>,
      before: End, ghost done: nat, memo: Memo, ghost steps: seq<Step>, ghost last: World)
    returns (end: End, ghost steps': seq<Step>, ghost w: World)
    requires Ended(heap, peers, table, care, ops, before, done, memo, steps, last) && (before.Done? || before.Refused?)
    modifies table, table.journal`jread, table.entries
    ensures Ending(heap, peers, table, care, ops, end, done, steps', last, w)
  {
    assert before == Done ==> ops[..done] == ops;
    var ok;
    ok, w := Finish(heap, peers, table, care, ops[..done], memo, steps, last);
    end, steps' := before, steps;
    if !ok {
      AllDoneForce(ops[..done], steps);
      end, steps' := Overlong, steps + [Flush];
    }
  }

  /** The program, once it has been set up. */
  method RunAll(heap: Allocator, peers: seq<Peer>, table: LocRibTable, care: Care, ops: seq<Op>)
    returns (end: End, done: nat, ghost steps: seq<Step>, ghost last: World, ghost w: World)
    requires Mirrors(heap, peers, Init(table.entries.Length, |peers|)) && Disjoint(peers, table)
    requires Shows(table, Init(table.entries.Length, |peers|))
    modifies heap, peers, P.Tables(peers), table, table.journal, table.journal.ring, table.entries
    ensures Ending(heap, peers, table, care, ops, end, done, steps, last, w)
  {
    var memo;
    end, done, memo, steps, w := DoAll(heap, peers, table, care, ops);
    last := w;
    if end == Done || end == Refused {
      end, steps, w := Close(heap, peers, table, care, ops, end, done, memo, steps, last);
    }
  }

  /**
   The program: operation after operation on new peers, a new allocator and a new Loc-RIB,
   up to the first that `World` has no step for, and the forced output phase at the end. It
   is a run of `World`, under the guard asked for, and in the end every slot holds what its
   peer announced last. An allocation fails only where there is no block, the output phase
   only without the guard on waiting heads; with the guard on records the listener has in
   the end, for every address, the record of the message that was the last to announce it.
   */
  method RunMerged(slab: nat, smallMax: nat, largeMax: nat, n: nat, size: nat, capacity: nat, care: Care, ops: seq<Op>)
    returns (end: End, done: nat, heap: Allocator, peers: seq<Peer>, table: LocRibTable,
             ghost steps: seq<Step>, ghost last: World, ghost w: World)
    requires slab > 0 && smallMax < 0x8000_0000 && largeMax < 0x8000_0000 && Product32(SMALL, smallMax) > 0
    requires size < capacity && size < INDEX_LIMIT
    ensures |peers| == n && table.entries.Length == size
    ensures Ending(heap, peers, table, care, ops, end, done, steps, last, w)
  {
    heap, peers, table := Start(slab, smallMax, largeMax, n, size, capacity);
    end, done, steps, last, w := RunAll(heap, peers, table, care, ops);
  }
}
