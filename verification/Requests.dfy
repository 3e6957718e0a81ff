/** The protocol seen from outside: the requests served, in lock order, and what the listener then hears. */
module Requests {
  import opened Basics
  import opened Grouping
  import opened LocRib
  import opened Pipeline
  import opened PipelineSafety

  /** What one call of `locrib` asks for. */
  datatype Req = Req(addr: Addr, newRoute: Head, update: bool)

  /** A request with something said of it. */
  datatype Marked<T> = Marked(req: Req, mark: T)

  function ReqsOf<T>(marked: seq<Marked<T>>): (reqs: seq<Req>)
    ensures |reqs| == |marked|
  {
    seq(|marked|, i requires 0 <= i < |marked| => marked[i].req)
  }

  ghost predicate Proper(reqs: seq<Req>) {
    forall r <- reqs :: r.update == r.newRoute.Some?
  }

  /** The requests of a run, in the order in which they got the lock of their entry. */
  function Served(steps: seq<Action>): seq<Req> {
    if steps == [] then []
    else
      var a := steps[|steps| - 1];
      Served(steps[..|steps| - 1]) + if a.Request? then [Req(a.addr, a.newRoute, a.update)] else []
  }

  /** One request after the other, with the tie-breaker. */
  function HeadAfter(reqs: seq<Req>, a: Addr): Head {
    if reqs == [] then None
    else
      var r, before := reqs[|reqs| - 1], HeadAfter(reqs[..|reqs| - 1], a);
      if r.addr == a && (r.update ==> r.newRoute.Some?) && Accepts(Entry(before, false), r.newRoute, r.update)
      then r.newRoute else before
  }

  /** One request after the other, when every newcomer wins: the last route announced. */
  function NewWins(reqs: seq<Req>, a: Addr): Head {
    if reqs == [] then None
    else if reqs[|reqs| - 1].addr == a && reqs[|reqs| - 1].update then reqs[|reqs| - 1].newRoute
    else NewWins(reqs[..|reqs| - 1], a)
  }

  lemma ServedSnoc(steps: seq<Action>, a: Action)
    ensures Served(steps + [a]) == Served(steps) + if a.Request? then [Req(a.addr, a.newRoute, a.update)] else []
  {
    assert (steps + [a])[..|steps|] == steps;
  }

  /** The tie-breaker keeps, of the routes announced, one with the record of the last. */
  lemma {:induction false} SuppressionRefinesNewWins(reqs: seq<Req>, a: Addr)
    requires Proper(reqs)
    ensures SameTiebreak(HeadAfter(reqs, a), NewWins(reqs, a))
  {
    if reqs != [] {
      var before, r := reqs[..|reqs| - 1], reqs[|reqs| - 1];
      assert r in reqs;
      assert Proper(before) by {
        forall q <- before ensures q.update == q.newRoute.Some? { assert q in reqs; }
      }
      SuppressionRefinesNewWins(before, a);
    }
  }

  /** In every interleaving the heads are what serving the requests one after the other gives. */
  lemma {:induction false} HeadsFollowRequests(c: Config, steps: seq<Action>, s: State)
    requires 0 < c.runLimit && Leads(c, Init(c), steps, s)
    ensures Shape(c, s) && Proper(Served(steps))
    ensures forall a: Addr | a < c.addresses :: s.entries[a].head == HeadAfter(Served(steps), a)
    decreases |steps|
  {
    RunInv(c, steps, s);
    if steps != [] {
      var n := |steps| - 1;
      var mid: State :| Leads(c, Init(c), steps[..n], mid) && Enabled(mid, steps[n]) && s == Step(c, mid, steps[n]);
      HeadsFollowRequests(c, steps[..n], mid);
      ServedSnoc(steps[..n], steps[n]);
      assert steps == steps[..n] + [steps[n]];
      forall a: Addr | a < c.addresses ensures s.entries[a].head == HeadAfter(Served(steps), a) {
        HeadStep(c, mid, steps[n], Served(steps[..n]), a);
      }
    }
  }

  lemma HeadStep(c: Config, s: State, x: Action, reqs: seq<Req>, a: Addr)
    requires Shape(c, s) && Enabled(s, x) && a < c.addresses && s.entries[a].head == HeadAfter(reqs, a)
    ensures var served := if x.Request? then [Req(x.addr, x.newRoute, x.update)] else [];
            |Step(c, s, x).entries| == c.addresses && Step(c, s, x).entries[a].head == HeadAfter(reqs + served, a)
  {
    if x.Request? {
      var r := Req(x.addr, x.newRoute, x.update);
      assert (reqs + [r])[..|reqs|] == reqs;
    } else {
      assert reqs + [] == reqs;
    }
  }

  // ---------------------------------------------------------------- journal pushes

  predicate Journals(pc: Pc, a: Addr) { pc.Journalling? && pc.addr == a }

  function Journallers(ts: seq<Pc>, a: Addr): nat {
    if ts == [] then 0 else Journallers(ts[1..], a) + if Journals(ts[0], a) then 1 else 0
  }

  lemma {:induction false} JournallersUpdate(ts: seq<Pc>, t: nat, pc: Pc, a: Addr)
    requires t < |ts|
    ensures Journallers(ts[t := pc], a) + (if Journals(ts[t], a) then 1 else 0) ==
            Journallers(ts, a) + if Journals(pc, a) then 1 else 0
  {
    if t == 0 {
      assert ts[t := pc][1..] == ts[1..];
    } else {
      JournallersUpdate(ts[1..], t - 1, pc, a);
      assert ts[t := pc][1..] == ts[1..][t - 1 := pc];
    }
  }

  /** A request that is to enter the journal has just changed the head to a route with another tie-break record. */
  lemma PushMeansChange(c: Config, s: State, x: Action)
    requires Shape(c, s) && Enabled(s, x) && x.Request? && Step(c, s, x).threads[x.t].Journalling?
    ensures !SameTiebreak(s.entries[x.addr].head, Step(c, s, x).entries[x.addr].head)
    ensures Step(c, s, x).history[x.addr] == s.history[x.addr] + [x.newRoute]
  {
  }

  ghost predicate PushesCovered(s: State, a: Addr)
    requires a < |s.history|
  {
    Occurrences(s.pushed, a) + Journallers(s.threads, a) + 1 <= |s.history[a]|
  }

  lemma PushesCoveredStep(c: Config, s: State, x: Action, a: Addr)
    requires Shape(c, s) && Enabled(s, x) && a < c.addresses && PushesCovered(s, a)
    ensures |Step(c, s, x).history| == c.addresses && PushesCovered(Step(c, s, x), a)
  {
    var s' := Step(c, s, x);
    assert s'.threads == s.threads[x.t := s'.threads[x.t]];
    JournallersUpdate(s.threads, x.t, s'.threads[x.t], a);
    if x.Push? {
      OccurrencesSnoc(s.pushed, s.threads[x.t].addr, a);
    }
  }

  lemma {:induction false} NobodyJournals(ts: seq<Pc>, a: Addr)
    requires forall t | 0 <= t < |ts| :: ts[t].Idle?
    ensures Journallers(ts, a) == 0
  {
    if ts != [] { NobodyJournals(ts[1..], a); }
  }

  /** In every interleaving an address has entered the journal at most as often as its head has really changed. */
  lemma {:induction false} PushesAreChanges(c: Config, steps: seq<Action>, s: State, a: Addr)
    requires 0 < c.runLimit && Leads(c, Init(c), steps, s) && a < c.addresses
    ensures Shape(c, s) && Occurrences(s.pushed, a) + Journallers(s.threads, a) + 1 <= |s.history[a]|
    ensures forall k | 1 <= k < |s.history[a]| :: !SameTiebreak(s.history[a][k - 1], s.history[a][k])
    decreases |steps|
  {
    RunInv(c, steps, s);
    assert EntryKept(s.entries[a], s.history[a], LastVersion(s.log, a));
    if steps == [] {
      NobodyJournals(s.threads, a);
    } else {
      var n := |steps| - 1;
      var mid: State :| Leads(c, Init(c), steps[..n], mid) && Enabled(mid, steps[n]) && s == Step(c, mid, steps[n]);
      PushesAreChanges(c, steps[..n], mid, a);
      PushesCoveredStep(c, mid, steps[n], a);
    }
  }

  // ---------------------------------------------------------------- the listener

  lemma {:induction false} OnlySteps(pre: seq<Action>, steps: seq<Action>)
    requires pre <= steps && forall i | |pre| <= i < |steps| :: !steps[i].Request?
    ensures Served(steps) == Served(pre)
  {
    if |steps| > |pre| {
      var n := |steps| - 1;
      OnlySteps(pre, steps[..n]);
      ServedSnoc(steps[..n], steps[n]);
      assert steps == steps[..n] + [steps[n]];
    } else {
      assert steps == pre;
    }
  }

  /** Has the listener heard, last of all, the head that the requests give for each address? */
  ghost predicate Heard(announced: Blocks, reqs: seq<Req>, size: nat) {
    forall a: Addr | a < size ::
      var last := LastAnnounced(Flatten(announced), a);
      last == HeadAfter(reqs, a) && SameTiebreak(last, NewWins(reqs, a))
  }

  /**
   End to end. Whatever any number of threads asked for, in whatever order, once they are
   joined and the forced flush has run, the listener's last word on each address is the
   head that serving the requests in lock order gives; it carries the tie-break record of
   the last route announced for the address.
   */
  lemma ListenerHearsLastAnnouncement(c: Config, pre: seq<Action>, s: State, t: nat)
    returns (steps: seq<Action>, s': State)
    requires 0 < c.runLimit && Leads(c, Init(c), pre, s) && s.fault == NoFault && AllIdle(s) && t < |s.threads|
    ensures Shape(c, s) && Continues(c, pre + [Start(t)], t, steps, s') && Served(steps) == Served(pre)
    ensures s'.fault == NoFault <==> RunsWithin(GroupRuns(Pending(s)), c.runLimit)
    ensures s'.fault == NoFault ==>
              && s'.earlier == Concat(s.earlier, GroupRuns(Pending(s)))
              && Heard(s'.earlier, Served(pre), c.addresses)
  {
    steps, s' := FlushAnnouncesAllHeads(c, pre, s, t);
    OnlySteps(pre + [Start(t)], steps);
    ServedSnoc(pre, Start(t));
    HeadsFollowRequests(c, pre, s);
    forall a: Addr | a < c.addresses ensures SameTiebreak(HeadAfter(Served(pre), a), NewWins(Served(pre), a)) {
      SuppressionRefinesNewWins(Served(pre), a);
    }
  }
}
