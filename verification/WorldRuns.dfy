/**
 Runs of `World`, with or without a guard on the blocks that routes are read into; when a
 request is passed over; and how long the heads agree with the requests.
 */
module WorldRuns {
  import opened Basics
  import opened Pools
  import opened Grouping
  import opened LocRib
  import opened Requests
  import opened AdjRibIn
  import opened World
  import opened BlockRuns
  import OutputPhase

  /**
   What a run is to observe when a route is read into a block that may still be a head:
   nothing; that no address waits for the block; that the record stays; both of these; or
   that the block is no head at all.
   */
  datatype Care = Careless | NoneWaiting | SameRecord | Careful | NoHead

  predicate KeepsRuns(care: Care) { care.NoneWaiting? || care.Careful? || care.NoHead? }

  predicate KeepsRecords(care: Care) { care.SameRecord? || care.Careful? || care.NoHead? }

  /** If the block is the head of an address, the new route must have the record of the one that lies there. */
  ghost predicate Harmless(w: World, s: Step) {
    s.Fill? && s.block != NULL && s.block in w.heads ==> SameTiebreak(Held(w.contents, s.block), Some(s.route))
  }

  ghost predicate Guard(care: Care, w: World, s: Step) {
    && (KeepsRecords(care) ==> Harmless(w, s))
    && (KeepsRuns(care) ==> NotWaiting(w, s))
    && (care.NoHead? && s.Fill? && s.block != NULL ==> s.block !in w.heads)
  }

  ghost predicate Leads(care: Care, w0: World, steps: seq<Step>, w: World)
    decreases |steps|
  {
    if steps == [] then w == w0
    else
      var n := |steps| - 1;
      exists mid ::
        Leads(care, w0, steps[..n], mid) && Enabled(mid, steps[n]) && Guard(care, mid, steps[n])
        && w == Next(mid, steps[n])
  }

  ghost predicate Reached(care: Care, size: nat, peers: nat, steps: seq<Step>, w: World) {
    Leads(care, Init(size, peers), steps, w)
  }

  lemma LeadsSnoc(care: Care, w0: World, steps: seq<Step>, w: World, s: Step)
    requires Leads(care, w0, steps, w) && Enabled(w, s) && Guard(care, w, s)
    ensures Leads(care, w0, steps + [s], Next(w, s))
  {
    assert (steps + [s])[..|steps|] == steps;
  }

  ghost predicate Steps(care: Care, w: World, s: Step, next: World) {
    Enabled(w, s) && Guard(care, w, s) && next == Next(w, s)
  }

  lemma LeadsMore(care: Care, w0: World, pre: seq<Step>, w: World, s: Step, next: World)
    requires Leads(care, w0, pre, w) && Steps(care, w, s, next)
    ensures Leads(care, w0, pre + [s], next)
  {
    LeadsSnoc(care, w0, pre, w, s);
  }

  // ---------------------------------------------------------------- when a request is passed over

  /**
   An announcement changes nothing in the Loc-RIB exactly if its block is the head already
   or the head's block holds an equal record.
   */
  lemma PassedOverExactly(w: World, size: nat, peers: nat, s: Step)
    requires Inv(w, size, peers) && Enabled(w, s) && s.Put? && s.block != NULL
    ensures var next := Next(w, s);
            var head := w.heads[s.index];
            next.heads == w.heads && next.flags == w.flags <==>
            head == s.block || (head != NULL && w.contents[head].tiebreak == w.contents[s.block].tiebreak)
  {
    assert w.heads[s.index] in w.heads;
    var next := Next(w, s);
    if Takes(w, s.index, s.block) { assert next.heads[s.index] == s.block; }
  }

  /**
   If the output phase ends, an announcement has been heard, unless it was passed over with
   a clear flag and something else was heard before.
   */
  lemma AnnouncementIsHeardExactly(w: World, size: nat, peers: nat, s: Step)
    requires Inv(w, size, peers) && Enabled(w, s) && s.Put? && s.block != NULL
    ensures var next := Next(w, s);
            Enabled(next, Flush)
            && (!Next(next, Flush).failed ==>
                  (SameTiebreak(HeardLast(Next(next, Flush), s.index), Held(w.contents, s.block)) <==>
                   Takes(w, s.index, s.block) || w.flags[s.index]
                     || SameTiebreak(HeardLast(w, s.index), Held(w.contents, s.block))))
  {
    assert w.heads[s.index] in w.heads;
    var next := Next(w, s);
    StepInv(w, size, peers, s);
    if RunsFit(next) {
      FlushTells(next, s.index);
      assert s.index in next.journal <==> next.flags[s.index];
    }
  }

  // ---------------------------------------------------------------- heads and requests

  /** What lies in the heads' blocks has the records that the requests give. */
  ghost predicate RecordsAgree(w: World) {
    forall a: nat | a < |w.heads| :: SameTiebreak(Held(w.contents, w.heads[a]), HeadAfter(ReqsOf(w.log), a))
  }

  /** Where the flag is clear, the listener has heard the record that lies in the head's block. */
  ghost predicate HeardOk(w: World) {
    |w.heads| == |w.flags|
    && forall a: nat | a < |w.heads| && !w.flags[a] :: SameTiebreak(HeardLast(w, a), Held(w.contents, w.heads[a]))
  }

  lemma FillAgrees(w: World, size: nat, peers: nat, s: Step)
    requires Inv(w, size, peers) && Enabled(w, s) && s.Fill? && RecordsAgree(w)
    ensures RecordsAgree(Next(w, s)) <==> Harmless(w, s)
    ensures Harmless(w, s) && HeardOk(w) ==> HeardOk(Next(w, s))
  {
    var next := Next(w, s);
    if s.block != NULL && s.block in w.heads && RecordsAgree(next) {
      var a: nat :| a < |w.heads| && w.heads[a] == s.block;
      assert SameTiebreak(Held(next.contents, next.heads[a]), HeadAfter(ReqsOf(w.log), a));
    }
    forall a: nat | a < |w.heads| && Harmless(w, s)
      ensures SameTiebreak(Held(next.contents, next.heads[a]), Held(w.contents, w.heads[a]))
    {
      assert w.heads[a] in w.heads;
    }
  }

  /** With the records in agreement, the block is taken exactly if its route would be accepted. */
  lemma TakesWhatIsAccepted(w: World, size: nat, peers: nat, a: nat, p: nat)
    requires Inv(w, size, peers) && RecordsAgree(w) && a < size && p in w.contents
    ensures Takes(w, a, p) <==> Accepts(Entry(HeadAfter(ReqsOf(w.log), a), w.flags[a]), Some(w.contents[p]), true)
  {
    assert w.heads[a] in w.heads;
    assert SameTiebreak(Held(w.contents, w.heads[a]), HeadAfter(ReqsOf(w.log), a));
  }

  lemma PutAgrees(w: World, size: nat, peers: nat, s: Step)
    requires Inv(w, size, peers) && Enabled(w, s) && s.Put? && RecordsAgree(w)
    ensures RecordsAgree(Next(w, s)) && (HeardOk(w) ==> HeardOk(Next(w, s)))
  {
    var next, asked := Next(w, s), Request(w, s.peer, s.index, s.block);
    if s.block != NULL { TakesWhatIsAccepted(w, size, peers, s.index, s.block); }
    assert asked == [] ==> next.log == w.log;
    forall a: nat | a < |next.heads|
      ensures SameTiebreak(Held(next.contents, next.heads[a]), HeadAfter(ReqsOf(next.log), a))
    {
      assert SameTiebreak(Held(w.contents, w.heads[a]), HeadAfter(ReqsOf(w.log), a));
      if asked != [] {
        ReqsSnoc(w.log, asked[0]);
        HeadAfterSnoc(ReqsOf(w.log), asked[0].req, a);
      }
    }
  }

  /**
   Comparing what lies in the blocks now goes on agreeing with comparing the routes that
   were asked for exactly as long as no head's block gets another record.
   */
  lemma StepAgrees(w: World, size: nat, peers: nat, s: Step)
    requires Inv(w, size, peers) && Enabled(w, s) && RecordsAgree(w)
    ensures RecordsAgree(Next(w, s)) <==> Harmless(w, s)
    ensures Harmless(w, s) && HeardOk(w) ==> HeardOk(Next(w, s))
  {
    match s
    case Fill(_, _, _) => FillAgrees(w, size, peers, s);
    case Put(_, _, _, _) => PutAgrees(w, size, peers, s);
    case Flush => FlushAgrees(w, size, peers);
  }

  lemma FlushAgrees(w: World, size: nat, peers: nat)
    requires Inv(w, size, peers) && Enabled(w, Flush) && RecordsAgree(w)
    ensures RecordsAgree(Next(w, Flush)) && (HeardOk(w) ==> HeardOk(Next(w, Flush)))
  {
    var next := Next(w, Flush);
    forall a: nat | a < |w.heads| && HeardOk(w) && !next.flags[a]
      ensures SameTiebreak(HeardLast(next, a), Held(w.contents, w.heads[a]))
    {
      if RunsFit(w) {
        FlushTells(w, a);
        assert a in w.journal <==> w.flags[a];
      }
    }
  }

  /** The heads' blocks hold the very routes that the requests give, not only their records. */
  ghost predicate RoutesAgree(w: World) {
    forall a: nat | a < |w.heads| :: Held(w.contents, w.heads[a]) == HeadAfter(ReqsOf(w.log), a)
  }

  /** So they do for as long as no head's block is handed out again. */
  lemma StepAgreesOnRoutes(w: World, size: nat, peers: nat, s: Step)
    requires Inv(w, size, peers) && Enabled(w, s) && Guard(NoHead, w, s) && RoutesAgree(w)
    ensures RoutesAgree(Next(w, s))
  {
    var next := Next(w, s);
    if s.Put? {
      var asked := Request(w, s.peer, s.index, s.block);
      assert asked == [] ==> next.log == w.log;
      if s.block != NULL {
        assert RecordsAgree(w);
        TakesWhatIsAccepted(w, size, peers, s.index, s.block);
      }
      forall a: nat | a < |next.heads| && asked != []
        ensures Held(next.contents, next.heads[a]) == HeadAfter(ReqsOf(next.log), a)
      {
        ReqsSnoc(w.log, asked[0]);
        HeadAfterSnoc(ReqsOf(w.log), asked[0].req, a);
      }
    } else {
      forall a: nat | a < |w.heads| ensures Held(next.contents, w.heads[a]) == Held(w.contents, w.heads[a]) {
        assert w.heads[a] in w.heads;
      }
    }
  }

  lemma InitOk(size: nat, peers: nat)
    ensures var w := Init(size, peers);
            Inv(w, size, peers) && RecordsAgree(w) && HeardOk(w) && FewWaiting(w) && RoutesAgree(w)
  {
    var w := Init(size, peers);
    forall i: nat | i < peers ensures Counted(w.sides[i].rib, {}) {}
    forall a: nat | a < size ensures HeadAfter(ReqsOf(w.log), a) == None {}
    forall p: nat | p != NULL ensures Waiting(w, p) == {} {}
  }

  /** What a guard is for. */
  ghost predicate Observed(care: Care, w: World) {
    && (KeepsRecords(care) ==> RecordsAgree(w) && HeardOk(w))
    && (KeepsRuns(care) ==> FewWaiting(w) && !w.failed)
    && (care.NoHead? ==> RoutesAgree(w))
  }

  lemma StepObserved(care: Care, w: World, size: nat, peers: nat, s: Step)
    requires Inv(w, size, peers) && Enabled(w, s) && Guard(care, w, s) && Observed(care, w)
    ensures Observed(care, Next(w, s))
  {
    if KeepsRecords(care) { StepAgrees(w, size, peers, s); }
    if KeepsRuns(care) {
      FewWaitingStep(w, size, peers, s);
      FewWaitingFit(w, size, peers);
    }
    if care.NoHead? { StepAgreesOnRoutes(w, size, peers, s); }
  }

  /**
   Every run keeps the books of all peers. With a guard on records, heads, requests and
   listener stay in agreement; with a guard on waiting heads the output phase never fails.
   */
  lemma {:induction false} RunOk(care: Care, size: nat, peers: nat, steps: seq<Step>, w: World)
    requires Reached(care, size, peers, steps, w)
    ensures Inv(w, size, peers) && Observed(care, w)
    decreases |steps|
  {
    if steps == [] {
      InitOk(size, peers);
    } else {
      var n := |steps| - 1;
      var mid :| Leads(care, Init(size, peers), steps[..n], mid) && Enabled(mid, steps[n])
        && Guard(care, mid, steps[n]) && w == Next(mid, steps[n]);
      RunOk(care, size, peers, steps[..n], mid);
      StepInv(mid, size, peers, steps[n]);
      StepObserved(care, mid, size, peers, steps[n]);
    }
  }
}
