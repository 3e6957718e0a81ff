/** What goes wrong without a guard, when the block of a head is handed out again. */
module StaleHeads {
  import opened Basics
  import opened Pools
  import opened Grouping
  import opened LocRib
  import opened Requests
  import opened AdjRibIn
  import opened World
  import opened BlockRuns
  import opened RunLength
  import opened WorldRuns
  import opened EndToEnd
  import OutputPhase

  /** One peer, one address: a route is read into a block and put into the slot, and the journal flushed. */
  function Announcement(p: nat, r: Route): seq<Step> {
    [Fill(0, p, r), Put(0, 0, true, p), Flush]
  }

  /** Announced, withdrawn, and announced again out of the same block. */
  function OneAfterAnother(p: nat, first: Route, second: Route): seq<Step> {
    Announcement(p, first) + [Put(0, 0, true, NULL)] + Announcement(p, second)
  }

  /** A world of one peer and one address: the slot, the blocks in use, the head and its flag. */
  ghost predicate One(w: World, slot: nat, mine: set<nat>, head: nat, flag: bool) {
    && |w.sides| == 1 && w.sides[0].rib.slots == [slot] && w.sides[0].mine == mine && NULL !in mine
    && w.heads == [head] && w.flags == [flag] && w.journal == (if flag then [0] else []) && !w.failed
  }

  function Count(w: World, p: nat): uint16
    requires |w.sides| == 1
  {
    CountOf(w.sides[0].rib, p)
  }

  lemma FillOne(w: World, p: nat, r: Route, head: nat)
    requires One(w, NULL, {}, head, false) && p != NULL && Unseen(w, r.unique)
    ensures Enabled(w, Fill(0, p, r)) && Guard(NoneWaiting, w, Fill(0, p, r))
    ensures var next := Next(w, Fill(0, p, r));
            One(next, NULL, {p}, head, false) && Count(next, p) == Puts(next, p) == 0
            && next.contents == w.contents[p := r] && next.announced == w.announced && next.log == w.log
  {
    assert !InUse(w, p);
  }

  lemma PutOne(w: World, p: nat, head: nat)
    requires One(w, NULL, {p}, head, false) && p in w.contents && Count(w, p) == Puts(w, p) == 0
    ensures Enabled(w, Put(0, 0, true, p))
    ensures var next := Next(w, Put(0, 0, true, p));
            One(next, p, {p}, if Takes(w, 0, p) then p else head, Takes(w, 0, p)) && Count(next, p) == 1
            && next.contents == w.contents && next.announced == w.announced
            && next.log == w.log + [Marked(Req(0, Held(w.contents, p), true), 0)]
  {
    assert Holders([NULL], p) == 0 && p != NULL;
    assert MayPut(w.sides[0].rib, w.sides[0].mine, 0, p);
  }

  lemma WithdrawOne(w: World, p: nat, head: nat)
    requires One(w, p, {p}, head, false) && Count(w, p) == 1
    ensures Enabled(w, Put(0, 0, true, NULL))
    ensures var next := Next(w, Put(0, 0, true, NULL));
            One(next, NULL, {}, head, false) && next.contents == w.contents && next.announced == w.announced
            && next.log == w.log + [Marked(Req(0, None, false), 0)]
  {
    assert Holders([p], p) == 1;
    assert MayPut(w.sides[0].rib, w.sides[0].mine, 0, NULL);
  }

  lemma FlushOne(w: World, slot: nat, mine: set<nat>, head: nat, flag: bool)
    requires One(w, slot, mine, head, flag)
    ensures Enabled(w, Flush)
    ensures var next := Next(w, Flush);
            One(next, slot, mine, head, false) && next.sides == w.sides && next.contents == w.contents
            && next.log == w.log
            && HeardLast(next, 0) == (if flag then Held(w.contents, head) else HeardLast(w, 0))
  {
    if flag {
      FitsExactly(Pending(w), OutputPhase.TABLE_SIZE);
    }
    FlushTells(w, 0);
  }

  /** The block is taken as head unless what lay there has the record already; what comes of it. */
  ghost predicate Announced(w: World, next: World, p: nat, r: Route, head: nat) {
    var contents := w.contents[p := r];
    var took := !SameTiebreak(Held(contents, head), Some(r));
    && One(next, p, {p}, if took then p else head, false) && Count(next, p) == 1 && next.contents == contents
    && HeardLast(next, 0) == (if took then Some(r) else HeardLast(w, 0))
    && next.log == w.log + [Marked(Req(0, Some(r), true), 0)]
  }

  /** A block is filled and put into the slot, and the journal is flushed. */
  ghost predicate ThreeSteps(w: World, w1: World, w2: World, w3: World, p: nat, r: Route) {
    && Steps(NoneWaiting, w, Fill(0, p, r), w1)
    && Steps(NoneWaiting, w1, Put(0, 0, true, p), w2)
    && Steps(NoneWaiting, w2, Flush, w3)
  }

  /** The first two of them. */
  lemma AskOne(w: World, p: nat, r: Route, head: nat) returns (w1: World, w2: World)
    requires One(w, NULL, {}, head, false) && p != NULL && Unseen(w, r.unique)
    ensures Steps(NoneWaiting, w, Fill(0, p, r), w1) && Steps(NoneWaiting, w1, Put(0, 0, true, p), w2)
    ensures var took := !SameTiebreak(Held(w.contents[p := r], head), Some(r));
            One(w2, p, {p}, if took then p else head, took) && Count(w2, p) == 1
            && w2.contents == w.contents[p := r] && w2.announced == w.announced
            && w2.log == w.log + [Marked(Req(0, Some(r), true), 0)]
  {
    FillOne(w, p, r, head);
    w1 := Next(w, Fill(0, p, r));
    PutOne(w1, p, head);
    w2 := Next(w1, Put(0, 0, true, p));
    assert Takes(w1, 0, p) <==> !SameTiebreak(Held(w.contents[p := r], head), Some(r));
  }

  lemma AnnounceOne(w: World, p: nat, r: Route, head: nat) returns (w1: World, w2: World, w3: World)
    requires One(w, NULL, {}, head, false) && p != NULL && Unseen(w, r.unique)
    ensures ThreeSteps(w, w1, w2, w3, p, r) && Announced(w, w3, p, r, head)
  {
    w1, w2 := AskOne(w, p, r, head);
    var took := !SameTiebreak(Held(w.contents[p := r], head), Some(r));
    FlushOne(w2, p, {p}, if took then p else head, took);
    w3 := Next(w2, Flush);
  }

  lemma InTurn(pre: seq<Step>, p: nat, r: Route)
    ensures pre + [Fill(0, p, r)] + [Put(0, 0, true, p)] + [Flush] == pre + Announcement(p, r)
  {
  }

  lemma LeadsThree(w0: World, pre: seq<Step>, w: World, w1: World, w2: World, w3: World, p: nat, r: Route)
    requires Leads(NoneWaiting, w0, pre, w) && ThreeSteps(w, w1, w2, w3, p, r)
    ensures Leads(NoneWaiting, w0, pre + Announcement(p, r), w3)
  {
    var one, two := pre + [Fill(0, p, r)], pre + [Fill(0, p, r)] + [Put(0, 0, true, p)];
    InTurn(pre, p, r);
    assert Leads(NoneWaiting, w0, one, w1) by { LeadsMore(NoneWaiting, w0, pre, w, Fill(0, p, r), w1); }
    assert Leads(NoneWaiting, w0, two, w2) by { LeadsMore(NoneWaiting, w0, one, w1, Put(0, 0, true, p), w2); }
    LeadsMore(NoneWaiting, w0, two, w2, Flush, w3);
  }

  lemma LeadsFirst(w: World, w1: World, w2: World, w3: World, p: nat, r: Route)
    requires ThreeSteps(w, w1, w2, w3, p, r)
    ensures Leads(NoneWaiting, w, Announcement(p, r), w3)
  {
    assert Leads(NoneWaiting, w, [], w);
    LeadsThree(w, [], w, w1, w2, w3, p, r);
    assert [] + Announcement(p, r) == Announcement(p, r);
  }

  lemma WasLast(w: World, w': World, p: nat, r: Route, head: nat)
    requires Announced(w, w', p, r, head) && p != NULL
    ensures Winning(w', 0, 0) && Held(w'.contents, w'.sides[0].rib.slots[0]) == Some(r)
  {
    assert w'.log[..|w'.log| - 1] == w.log;
  }

  lemma NotSeen(w: World, p: nat, r: Route, unique: nat)
    requires w.contents == map[p := r] && r.unique != unique
    requires w.log == [Marked(Req(0, Some(r), true), 0), Marked(Req(0, None, false), 0)]
    ensures Unseen(w, unique)
  {
  }

  /** The first four steps: announced, heard and withdrawn. */
  lemma OnceAnnounced(w0: World, p: nat, first: Route) returns (w: World)
    requires One(w0, NULL, {}, NULL, false) && w0.contents == map[] && w0.log == [] && p != NULL
    ensures Leads(NoneWaiting, w0, Announcement(p, first) + [Put(0, 0, true, NULL)], w) && One(w, NULL, {}, p, false)
    ensures HeardLast(w, 0) == Some(first) && w.contents == map[p := first]
    ensures w.log == [Marked(Req(0, Some(first), true), 0), Marked(Req(0, None, false), 0)]
  {
    var w1, w2, w3 := AnnounceOne(w0, p, first, NULL);
    assert Leads(NoneWaiting, w0, Announcement(p, first), w3) by { LeadsFirst(w0, w1, w2, w3, p, first); }
    WithdrawOne(w3, p, p);
    w := Next(w3, Put(0, 0, true, NULL));
    assert Leads(NoneWaiting, w0, Announcement(p, first) + [Put(0, 0, true, NULL)], w) by {
      LeadsMore(NoneWaiting, w0, Announcement(p, first), w3, Put(0, 0, true, NULL), w);
    }
  }

  /**
   Without the guard on records it goes wrong, even if nothing waits for a block that is
   handed out. A block announced, withdrawn and announced again is its own head: the second
   announcement is passed over, and after the flush the listener still has the first
   record, while the slot holds the second.
   */
  lemma StaleHeadSilences(p: nat, first: Route, second: Route) returns (w: World)
    requires p != NULL && first.tiebreak != second.tiebreak && first.unique != second.unique
    ensures Reached(NoneWaiting, 1, 1, OneAfterAnother(p, first, second), w)
    ensures Winning(w, 0, 0) && Held(w.contents, w.sides[0].rib.slots[0]) == Some(second)
    ensures w.heads == [p] && w.flags == [false] && HeardLast(w, 0) == Some(first)
  {
    var w0 := Init(1, 1);
    var w4 := OnceAnnounced(w0, p, first);
    NotSeen(w4, p, first, second.unique);
    var w5, w6;
    w5, w6, w := AnnounceOne(w4, p, second, p);
    LeadsThree(w0, Announcement(p, first) + [Put(0, 0, true, NULL)], w4, w5, w6, w, p, second);
    WasLast(w4, w, p, second, p);
  }
}
