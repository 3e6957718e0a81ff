/**
 What goes wrong without a guard on waiting heads: one peer announces and withdraws one
 prefix after the other, every route is read into the block that was just freed, and in the
 end all addresses wait with one block as head.
 */
module CrowdedHeads {
  import opened Basics
  import opened Pools
  import opened Grouping
  import opened LocRib
  import opened Requests
  import opened RunLength
  import opened AdjRibIn
  import opened World
  import opened BlockRuns
  import opened WorldRuns
  import opened MessageRuns
  import OutputPhase

  /** Routes of different numbers and one record. */
  function Nth(k: nat, t: Tiebreak): Route {
    Route(k, t, [])
  }

  /**
   Two messages: one announces address k and a prefix that is too long, so that no
   end-of-block mark is set and no output phase runs; the other withdraws address k.
   */
  function Round(k: nat, p: nat, t: Tiebreak): seq<Step> {
    MessageSteps(0, p, Nth(k, t), [Some(k), None], []) + MessageSteps(0, NULL, Nth(k, t), [], [Some(k)])
  }

  function Rounds(n: nat, p: nat, t: Tiebreak): seq<Step> {
    if n == 0 then [] else Rounds(n - 1, p, t) + Round(n - 1, p, t)
  }

  /** The requests of the first k rounds. */
  function Log(k: nat, t: Tiebreak): seq<Asked> {
    if k == 0 then []
    else Log(k - 1, t) + [Marked(Req(k - 1, Some(Nth(k - 1, t)), true), 0)] + [Marked(Req(k - 1, None, false), 0)]
  }

  lemma {:induction false} NotYetAsked(k: nat, t: Tiebreak)
    ensures forall q <- Log(k, t) :: q.req.newRoute.Some? ==> q.req.newRoute.value.unique < k
  {
    if k > 0 { NotYetAsked(k - 1, t); }
  }

  lemma {:induction false} AskedOnce(k: nat, t: Tiebreak, route: Route)
    ensures AskedFor(ReqsOf(Log(k, t)), Some(route)) <= if route.unique < k then 1 else 0
  {
    if k > 0 {
      AskedOnce(k - 1, t, route);
      var first, second := Marked(Req(k - 1, Some(Nth(k - 1, t)), true), 0), Marked(Req(k - 1, None, false), 0);
      ReqsSnoc(Log(k - 1, t), first);
      ReqsSnoc(Log(k - 1, t) + [first], second);
      AskedForSnoc(ReqsOf(Log(k - 1, t)), first.req, Some(route));
      AskedForSnoc(ReqsOf(Log(k - 1, t)) + [first.req], second.req, Some(route));
    }
  }

  /** Nothing is in use, and the first k addresses wait with one block as head. */
  ghost predicate AllWait(w: World, size: nat, k: nat, p: nat) {
    && |w.heads| == |w.flags| == size && k <= size && !w.failed
    && (forall a: nat | a < size :: w.heads[a] == (if a < k then p else NULL) && w.flags[a] == (a < k))
    && |w.journal| == k && forall a: nat | a < k :: w.journal[a] == a
  }

  ghost predicate After(w: World, size: nat, k: nat, p: nat, t: Tiebreak) {
    && Inv(w, size, 1) && AllWait(w, size, k, p) && w.sides[0].mine == {}
    && w.log == Log(k, t) && w.contents == if k == 0 then map[] else map[p := Nth(k - 1, t)]
  }

  /** In the middle of a round: the block has been filled. */
  ghost predicate JustFilled(w: World, size: nat, k: nat, p: nat, t: Tiebreak) {
    && Inv(w, size, 1) && AllWait(w, size, k, p) && w.sides[0].mine == {p} && Puts(w, p) == 0
    && CountOf(w.sides[0].rib, p) == 0 && w.log == Log(k, t) && w.contents == map[p := Nth(k, t)]
  }

  /** The block is in slot k, and the address waits. */
  ghost predicate JustPut(w: World, size: nat, k: nat, p: nat, t: Tiebreak) {
    && Inv(w, size, 1) && AllWait(w, size, k + 1, p) && w.sides[0].mine == {p}
    && CountOf(w.sides[0].rib, p) == 1 && w.sides[0].rib.slots[k] == p
    && w.log == Log(k, t) + [Marked(Req(k, Some(Nth(k, t)), true), 0)] && w.contents == map[p := Nth(k, t)]
  }

  lemma MayFill(w: World, size: nat, k: nat, p: nat, t: Tiebreak)
    requires After(w, size, k, p, t) && p != NULL
    ensures Enabled(w, Fill(0, p, Nth(k, t))) && Guard(SameRecord, w, Fill(0, p, Nth(k, t)))
  {
    NotYetAsked(k, t);
    assert !InUse(w, p);
  }

  lemma FillRound(w: World, size: nat, k: nat, p: nat, t: Tiebreak) returns (next: World)
    requires After(w, size, k, p, t) && k < size && p != NULL
    ensures Steps(SameRecord, w, Fill(0, p, Nth(k, t)), next) && JustFilled(next, size, k, p, t)
  {
    var fill := Fill(0, p, Nth(k, t));
    MayFill(w, size, k, p, t);
    next := Next(w, fill);
    assert Inv(next, size, 1) by { StepInv(w, size, 1, fill); }
  }

  lemma PutRound(w: World, size: nat, k: nat, p: nat, t: Tiebreak) returns (next: World)
    requires JustFilled(w, size, k, p, t) && k < size && p != NULL
    ensures Steps(SameRecord, w, Put(0, k, false, p), next) && JustPut(next, size, k, p, t)
  {
    var r := w.sides[0].rib;
    HeldSomewhere(r.slots, p);
    assert r.slots[k] == NULL;
    UpdateKeeps(r, {p}, k, false, p);
    next := Next(w, Put(0, k, false, p));
    StepInv(w, size, 1, Put(0, k, false, p));
  }

  lemma NothingRound(w: World, size: nat, k: nat, p: nat, t: Tiebreak) returns (next: World)
    requires JustPut(w, size, k, p, t)
    ensures Steps(SameRecord, w, Fill(0, NULL, Nth(k, t)), next) && JustPut(next, size, k, p, t)
  {
    next := Next(w, Fill(0, NULL, Nth(k, t)));
    StepInv(w, size, 1, Fill(0, NULL, Nth(k, t)));
  }

  lemma WithdrawRound(w: World, size: nat, k: nat, p: nat, t: Tiebreak) returns (next: World)
    requires JustPut(w, size, k, p, t) && p != NULL
    ensures Steps(SameRecord, w, Put(0, k, true, NULL), next) && After(next, size, k + 1, p, t)
  {
    assert k < size;
    next := Next(w, Put(0, k, true, NULL));
    StepInv(w, size, 1, Put(0, k, true, NULL));
  }

  lemma FourSteps(pre: seq<Step>, k: nat, p: nat, t: Tiebreak)
    ensures pre + Round(k, p, t) == pre + [Fill(0, p, Nth(k, t))] + [Put(0, k, false, p)]
                + [Fill(0, NULL, Nth(k, t))] + [Put(0, k, true, NULL)]
  {
    var nlri: Looked := [Some(k), None];
    assert Walk(0, nlri, 1, p) == [Put(0, k, false, p)] && Walk(0, nlri, 2, p) == Walk(0, nlri, 1, p);
    assert Walk(0, [Some(k)], 1, NULL) == [Put(0, k, true, NULL)];
  }

  lemma LeadsFour(care: Care, w0: World, pre: seq<Step>, w: World, w1: World, w2: World, w3: World, w4: World,
      s1: Step, s2: Step, s3: Step, s4: Step)
    requires Leads(care, w0, pre, w) && Steps(care, w, s1, w1) && Steps(care, w1, s2, w2)
    requires Steps(care, w2, s3, w3) && Steps(care, w3, s4, w4)
    ensures Leads(care, w0, pre + [s1] + [s2] + [s3] + [s4], w4)
  {
    LeadsMore(care, w0, pre, w, s1, w1);
    LeadsMore(care, w0, pre + [s1], w1, s2, w2);
    LeadsMore(care, w0, pre + [s1] + [s2], w2, s3, w3);
    LeadsMore(care, w0, pre + [s1] + [s2] + [s3], w3, s4, w4);
  }

  /** Four steps make a round. */
  ghost predicate RoundSteps(w: World, w1: World, w2: World, w3: World, w4: World, k: nat, p: nat, t: Tiebreak) {
    && Steps(SameRecord, w, Fill(0, p, Nth(k, t)), w1) && Steps(SameRecord, w1, Put(0, k, false, p), w2)
    && Steps(SameRecord, w2, Fill(0, NULL, Nth(k, t)), w3) && Steps(SameRecord, w3, Put(0, k, true, NULL), w4)
  }

  lemma RoundIsSteps(w: World, size: nat, k: nat, p: nat, t: Tiebreak)
    returns (w1: World, w2: World, w3: World, w4: World)
    requires After(w, size, k, p, t) && k < size && p != NULL
    ensures RoundSteps(w, w1, w2, w3, w4, k, p, t) && After(w4, size, k + 1, p, t)
  {
    w1 := FillRound(w, size, k, p, t);
    w2 := PutRound(w1, size, k, p, t);
    w3 := NothingRound(w2, size, k, p, t);
    w4 := WithdrawRound(w3, size, k, p, t);
  }

  lemma OneRound(w0: World, pre: seq<Step>, w: World, size: nat, k: nat, p: nat, t: Tiebreak) returns (next: World)
    requires Leads(SameRecord, w0, pre, w) && After(w, size, k, p, t) && k < size && p != NULL
    ensures Leads(SameRecord, w0, pre + Round(k, p, t), next) && After(next, size, k + 1, p, t)
  {
    var w1, w2, w3;
    w1, w2, w3, next := RoundIsSteps(w, size, k, p, t);
    FourSteps(pre, k, p, t);
    LeadsFour(SameRecord, w0, pre, w, w1, w2, w3, next,
              Fill(0, p, Nth(k, t)), Put(0, k, false, p), Fill(0, NULL, Nth(k, t)), Put(0, k, true, NULL));
  }

  lemma NoRound(size: nat, p: nat, t: Tiebreak)
    ensures Reached(SameRecord, size, 1, Rounds(0, p, t), Init(size, 1)) && After(Init(size, 1), size, 0, p, t)
  {
    InitOk(size, 1);
  }

  lemma {:induction false} RoundsLead(size: nat, n: nat, p: nat, t: Tiebreak) returns (w: World)
    requires n <= size && p != NULL
    ensures Reached(SameRecord, size, 1, Rounds(n, p, t), w) && After(w, size, n, p, t)
  {
    if n == 0 {
      w := Init(size, 1);
      NoRound(size, p, t);
    } else {
      var before := RoundsLead(size, n - 1, p, t);
      w := OneRound(Init(size, 1), Rounds(n - 1, p, t), before, size, n - 1, p, t);
    }
  }

  /**
   Any number of rounds, one peer, one block, one record, and no route asked for more than
   once: all addresses wait with this block as head, and the output phase fails exactly if
   they are more than 4096, the entries of the address table.
   */
  lemma CrowdFailsExactly(n: nat, p: nat, t: Tiebreak) returns (w: World)
    requires p != NULL
    ensures Reached(SameRecord, n, 1, Rounds(n, p, t), w) && AskedWithin(ReqsOf(w.log), 1)
    ensures |w.journal| == |w.heads| == n && forall a: nat | a < n :: w.heads[a] == p && a in w.journal
    ensures Enabled(w, Flush) && (Next(w, Flush).failed <==> n > 4096)
  {
    w := RoundsLead(n, n, p, t);
    forall r <- ReqsOf(w.log) | r.newRoute.Some? ensures AskedFor(ReqsOf(w.log), r.newRoute) <= 1 {
      AskedOnce(n, t, r.newRoute.value);
    }
    forall a: nat | a < n ensures a in w.journal { assert w.journal[a] == a; }
    FlushEndsExactly(w, n, 1);
    if n > 4096 { assert Crowded(w, 0); }
  }
}
