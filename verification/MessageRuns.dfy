/** A message, as the Adj-RIB-In of its peer walks it, is a run of `World`. */
module MessageRuns {
  import opened Basics
  import opened Pools
  import opened Grouping
  import opened LocRib
  import opened Requests
  import opened AdjRibIn
  import opened World
  import opened WorldRuns

  /** The puts of the first n prefixes of a list. */
  function Walk(i: nat, list: Looked, n: nat, p: nat): seq<Step>
    requires n <= |list|
  {
    if n == 0 then []
    else
      Walk(i, list, n - 1, p)
        + match list[n - 1] { case None => [] case Some(a) => [Put(i, a, n == |list|, p)] }
  }

  function MessageSteps(i: nat, p: nat, route: Route, nlri: Looked, withdrawn: Looked): seq<Step> {
    [Fill(i, p, route)] + Walk(i, nlri, |nlri|, p) + Walk(i, withdrawn, |withdrawn|, NULL)
  }

  /** The requests that calls make of the Loc-RIB. */
  function AskedFrom(i: nat, calls: seq<Call>, contents: map<nat, Route>): (asked: seq<Asked>)
    ensures |asked| == |calls|
  {
    seq(|calls|, k requires 0 <= k < |calls| =>
      Marked(Req(calls[k].index, if calls[k].update then Held(contents, calls[k].route) else None, calls[k].update), i))
  }

  /** Only the side of peer i has changed, and the log by the calls that side has made. */
  ghost predicate Walked(w: World, next: World, i: nat, side: Side) {
    && i < |w.sides| && next.sides == w.sides[i := side] && next.contents == w.contents && !next.failed
    && |next.heads| == |w.heads| && |next.flags| == |w.flags|
    && var calls := w.sides[i].rib.calls;
       calls <= side.rib.calls && next.log == w.log + AskedFrom(i, side.rib.calls[|calls|..], w.contents)
  }

  lemma WalkedStep(w: World, mid: World, i: nat, side: Side, a: nat, eob: bool, p: nat)
    requires Walked(w, mid, i, side) && Enabled(mid, Put(i, a, eob, p))
    ensures Walked(w, Next(mid, Put(i, a, eob, p)), i,
                   Side(Update(side.rib, a, eob, p), Left(side.rib, side.mine, a, p)))
  {
    var next, calls := Next(mid, Put(i, a, eob, p)), w.sides[i].rib.calls;
    assert mid.sides[i] == side;
    var was, now := side.rib.calls[|calls|..], Update(side.rib, a, eob, p).calls[|calls|..];
    assert AskedFrom(i, now, w.contents) == AskedFrom(i, was, w.contents) + Request(mid, i, a, p);
  }

  ghost predicate MayWalk(w: World, i: nat, list: Looked, p: nat) {
    && i < |w.sides| && !w.failed && |list| <= PREFIX_LIMIT && |w.heads| == |w.flags| == |w.sides[i].rib.slots|
    && Fits(list, |w.heads|) && Counted(w.sides[i].rib, w.sides[i].mine)
    && (p != NULL ==>
          && p in w.sides[i].mine && CountOf(w.sides[i].rib, p) == 0 && !EarlyRepeat(Accepted(list, |list|))
          && p in w.contents && Puts(w, p) == 0)
  }

  /** Is this what the first n prefixes of a list make of a world? */
  ghost predicate WalkedTo(w: World, next: World, i: nat, list: Looked, n: nat, p: nat)
    requires MayWalk(w, i, list, p) && n <= |list|
  {
    var r, mine := w.sides[i].rib, w.sides[i].mine;
    && Walked(w, next, i, Side(Feed(r, list, n, p), MineAfter(r, mine, list, n, p)))
    && (p != NULL ==> Puts(next, p) <= n)
  }

  lemma WalkOne(w: World, mid: World, i: nat, list: Looked, n: nat, p: nat)
    requires MayWalk(w, i, list, p) && 0 < n <= |list| && list[n - 1].Some? && WalkedTo(w, mid, i, list, n - 1, p)
    ensures var put := Put(i, list[n - 1].value, n == |list|, p);
            Enabled(mid, put) && WalkedTo(w, Next(mid, put), i, list, n, p)
  {
    MayPutNext(w.sides[i].rib, w.sides[i].mine, list, n - 1, p);
    WalkedStep(w, mid, i, mid.sides[i], list[n - 1].value, n == |list|, p);
  }

  /** The first n prefixes of a list are a run from one world to another, behind the steps `pre`. */
  ghost predicate WalkLeads(care: Care, w0: World, pre: seq<Step>, w: World, i: nat, list: Looked, n: nat, p: nat,
      next: World)
  {
    && MayWalk(w, i, list, p) && n <= |list|
    && Leads(care, w0, pre + Walk(i, list, n, p), next) && WalkedTo(w, next, i, list, n, p)
  }

  lemma WalkZero(care: Care, w0: World, pre: seq<Step>, w: World, i: nat, list: Looked, p: nat)
    requires Leads(care, w0, pre, w) && MayWalk(w, i, list, p)
    ensures WalkLeads(care, w0, pre, w, i, list, 0, p, w)
  {
    assert pre + Walk(i, list, 0, p) == pre;
  }

  lemma WalkSnoc(pre: seq<Step>, i: nat, list: Looked, n: nat, p: nat)
    requires 0 < n <= |list|
    ensures pre + Walk(i, list, n, p) == (pre + Walk(i, list, n - 1, p))
                + match list[n - 1] { case None => [] case Some(a) => [Put(i, a, n == |list|, p)] }
  {
  }

  /** One prefix more. */
  lemma WalkMore(care: Care, w0: World, pre: seq<Step>, w: World, mid: World, i: nat, list: Looked, n: nat, p: nat)
    returns (next: World)
    requires 0 < n <= |list| && WalkLeads(care, w0, pre, w, i, list, n - 1, p, mid)
    ensures WalkLeads(care, w0, pre, w, i, list, n, p, next)
  {
    var before := pre + Walk(i, list, n - 1, p);
    WalkSnoc(pre, i, list, n, p);
    if list[n - 1].Some? {
      var put := Put(i, list[n - 1].value, n == |list|, p);
      WalkOne(w, mid, i, list, n, p);
      next := Next(mid, put);
      assert Leads(care, w0, before + [put], next) by { LeadsMore(care, w0, before, mid, put, next); }
    } else {
      assert before + [] == before;
      next := mid;
    }
  }

  lemma {:induction false} WalkIsRun(care: Care, w0: World, pre: seq<Step>, w: World, i: nat, list: Looked, n: nat,
      p: nat)
    returns (next: World)
    requires Leads(care, w0, pre, w) && MayWalk(w, i, list, p) && n <= |list|
    ensures WalkLeads(care, w0, pre, w, i, list, n, p, next)
  {
    if n == 0 {
      WalkZero(care, w0, pre, w, i, list, p);
      next := w;
    } else {
      var mid := WalkIsRun(care, w0, pre, w, i, list, n - 1, p);
      next := WalkMore(care, w0, pre, w, mid, i, list, n, p);
    }
  }

  /**
   A message of a peer, as its Adj-RIB-In walks it, is a run of these steps, whatever else
   is going on: it leaves the side the message leaves, and asks for what its calls ask.
   */
  lemma MessageIsRun(care: Care, size: nat, peers: nat, w: World, i: nat, p: nat, route: Route,
      nlri: Looked, withdrawn: Looked)
    returns (next: World)
    requires Inv(w, size, peers) && Enabled(w, Fill(i, p, route)) && Guard(care, w, Fill(i, p, route))
    requires Fits(nlri, size) && Fits(withdrawn, size) && |nlri| <= 4096 && |withdrawn| <= 4096
    requires p != NULL ==> !EarlyRepeat(Accepted(nlri, |nlri|))
    ensures |w.sides[i].rib.slots| == size && Leads(care, w, MessageSteps(i, p, route, nlri, withdrawn), next)
    ensures var side, contents := w.sides[i], if p == NULL then w.contents else w.contents[p := route];
            var rib := Message(side.rib, p, nlri, withdrawn);
            && next.contents == contents
            && next.sides == w.sides[i := Side(rib, MessageMine(side.rib, side.mine, p, nlri, withdrawn))]
            && side.rib.calls <= rib.calls
            && next.log == w.log + AskedFrom(i, rib.calls[|side.rib.calls|..], contents)
  {
    var fill, side := Fill(i, p, route), w.sides[i];
    var start := Next(w, fill);
    StepInv(w, size, peers, fill);
    assert Leads(care, w, [], w);
    LeadsSnoc(care, w, [], w, fill);
    assert [] + [fill] == [fill];
    var mid := WalkIsRun(care, w, [fill], start, i, nlri, |nlri|, p);
    assert Counted(mid.sides[i].rib, mid.sides[i].mine) by { NlriSound(side.rib, side.mine, p, nlri); }
    next := WalkIsRun(care, w, [fill] + Walk(i, nlri, |nlri|, p), mid, i, withdrawn, |withdrawn|, NULL);
    TwoWalks(start, mid, next, i);
  }

  lemma TwoWalks(w: World, mid: World, next: World, i: nat)
    requires i < |w.sides| && |mid.sides| == |next.sides| == |w.sides|
    requires Walked(w, mid, i, mid.sides[i]) && Walked(mid, next, i, next.sides[i])
    ensures Walked(w, next, i, next.sides[i])
  {
    var a, b, c := w.sides[i].rib.calls, mid.sides[i].rib.calls, next.sides[i].rib.calls;
    assert AskedFrom(i, c[|a|..], w.contents)
        == AskedFrom(i, b[|a|..], w.contents) + AskedFrom(i, c[|b|..], w.contents);
  }
}
