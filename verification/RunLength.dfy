/**
 How long a run can get. The addresses of a run were all read with one route, at different
 places of the histories, and each such place took a request of its own; so a run is never
 longer than the number of requests for its route.
 */
module RunLength {
  import opened Basics
  import opened Grouping
  import opened LocRib
  import opened Pipeline
  import opened PipelineSafety
  import opened Requests

  /** How often a route is asked for. */
  function AskedFor(reqs: seq<Req>, route: Head): nat {
    if reqs == [] then 0
    else AskedFor(reqs[..|reqs| - 1], route) + if reqs[|reqs| - 1].newRoute == route then 1 else 0
  }

  lemma AskedForSnoc(reqs: seq<Req>, r: Req, route: Head)
    ensures AskedFor(reqs + [r], route) == AskedFor(reqs, route) + if r.newRoute == route then 1 else 0
  {
    assert (reqs + [r])[..|reqs|] == reqs;
  }

  // ---------------------------------------------------------------- places in the histories

  /** Where in the histories a route is the head; the NULL at the start of each is not counted. */
  function Places(history: seq<seq<Head>>, route: Head): set<(nat, nat)> {
    set a: nat, v: nat | a < |history| && 1 <= v < |history[a]| && history[a][v] == route :: (a, v)
  }

  lemma PlacesGrow(history: seq<seq<Head>>, a: nat, h: Head, route: Head)
    requires a < |history| && history[a] != []
    ensures var grown := history[a := history[a] + [h]];
            Places(grown, route) == Places(history, route) + if h == route then {(a, |history[a]|)} else {}
  {
  }

  lemma HistoryStep(c: Config, s: State, x: Action)
    requires Enabled(s, x)
    ensures Step(c, s, x).history ==
            if x.Request? && Accepts(s.entries[x.addr], x.newRoute, x.update)
            then s.history[x.addr := s.history[x.addr] + [x.newRoute]] else s.history
  {
  }

  lemma PlacesStep(c: Config, s: State, x: Action, route: Head)
    requires Shape(c, s) && Enabled(s, x) && (x.Request? ==> s.history[x.addr] != [])
    ensures |Places(Step(c, s, x).history, route)|
         <= |Places(s.history, route)| + if x.Request? && x.newRoute == route then 1 else 0
  {
    var history := Step(c, s, x).history;
    HistoryStep(c, s, x);
    if history != s.history { PlacesGrow(s.history, x.addr, x.newRoute, route); }
  }

  lemma AskedSoFar(c: Config, pre: seq<Action>, s: State, x: Action, route: Head)
    requires 0 < c.runLimit && Leads(c, Init(c), pre, s) && Enabled(s, x)
    requires |Places(s.history, route)| <= AskedFor(Served(pre), route)
    ensures |Places(Step(c, s, x).history, route)| <= AskedFor(Served(pre + [x]), route)
  {
    assert Shape(c, s) && (x.Request? ==> s.history[x.addr] != []) by {
      RunInv(c, pre, s);
      if x.Request? { assert EntryKept(s.entries[x.addr], s.history[x.addr], LastVersion(s.log, x.addr)); }
    }
    PlacesStep(c, s, x, route);
    ServedSnoc(pre, x);
    if x.Request? {
      AskedForSnoc(Served(pre), Req(x.addr, x.newRoute, x.update), route);
    } else {
      assert Served(pre) + [] == Served(pre);
    }
  }

  /** A route is a head at no more places than it was asked for. */
  lemma {:induction false} PlacesWereAsked(c: Config, steps: seq<Action>, s: State, route: Head)
    requires 0 < c.runLimit && Leads(c, Init(c), steps, s)
    ensures |Places(s.history, route)| <= AskedFor(Served(steps), route)
    decreases |steps|
  {
    if steps == [] {
      assert Places(s.history, route) == {};
    } else {
      var n := |steps| - 1;
      var mid: State :| Leads(c, Init(c), steps[..n], mid) && Enabled(mid, steps[n]) && s == Step(c, mid, steps[n]);
      PlacesWereAsked(c, steps[..n], mid, route);
      AskedSoFar(c, steps[..n], mid, steps[n], route);
      assert steps[..n] + [steps[n]] == steps;
    }
  }

  // ---------------------------------------------------------------- the open run

  /** The places that the reads from position i on saw. */
  function Seen(log: seq<Read>, i: nat): set<(nat, nat)>
    requires i <= |log|
    decreases |log| - i
  {
    if i == |log| then {} else Seen(log, i + 1) + {(log[i].addr, log[i].version)}
  }

  /** No place is read twice. */
  lemma {:induction false} SeenOnce(log: seq<Read>, i: nat)
    requires i <= |log|
    requires forall j, k | 0 <= j < k < |log| && log[j].addr == log[k].addr :: log[j].version < log[k].version
    ensures |Seen(log, i)| == |log| - i
    ensures forall p <- Seen(log, i) :: exists k :: i <= k < |log| && p == (log[k].addr, log[k].version)
    decreases |log| - i
  {
    if i < |log| { SeenOnce(log, i + 1); }
  }

  /** The reads of the open run are the last ones, and all found its route. */
  lemma OpenRunReads(c: Config, s: State)
    requires Inv(c, s) && OpenSize(s) > 0
    ensures OpenSize(s) <= |s.log|
    ensures forall k | |s.log| - OpenSize(s) <= k < |s.log| :: s.log[k].head == s.threads[s.lock.value].run.route
  {
    var run := s.threads[s.lock.value].run;
    GroupRunsPartitions(s.callPairs);
    assert s.callPairs == Flatten(s.call) + Pairs(run);
    assert ReadPairs(s.log) == Flatten(s.earlier) + (Flatten(s.call) + Pairs(run));
    var start := |s.log| - |run.addrs|;
    forall k | start <= k < |s.log| ensures s.log[k].head == run.route {
      assert ReadPairs(s.log)[k] == Pairs(run)[k - start];
    }
  }

  lemma SeenIsPlaces(history: seq<seq<Head>>, log: seq<Read>, start: nat, route: Head)
    requires ReadsKept(history, log) && start <= |log| && forall k | start <= k < |log| :: log[k].head == route
    ensures |Seen(log, start)| == |log| - start && Seen(log, start) <= Places(history, route)
  {
    SeenOnce(log, start);
    forall p <- Seen(log, start) ensures p in Places(history, route) {
      var k :| start <= k < |log| && p == (log[k].addr, log[k].version);
      assert ReadKept(history, log, log[k]);
    }
  }

  /** In every interleaving, the open run is no longer than the number of requests for its route. */
  lemma OpenRunWasAsked(c: Config, steps: seq<Action>, s: State)
    requires 0 < c.runLimit && Leads(c, Init(c), steps, s) && OpenSize(s) > 0
    ensures OpenSize(s) <= AskedFor(Served(steps), s.threads[s.lock.value].run.route)
  {
    RunInv(c, steps, s);
    var route, start := s.threads[s.lock.value].run.route, |s.log| - OpenSize(s);
    OpenRunReads(c, s);
    SeenIsPlaces(s.history, s.log, start, route);
    Subset(Seen(s.log, start), Places(s.history, route));
    PlacesWereAsked(c, steps, s, route);
  }

  ghost predicate AskedWithin(reqs: seq<Req>, limit: nat) {
    forall r <- reqs | r.newRoute.Some? :: AskedFor(reqs, r.newRoute) <= limit
  }

  lemma {:induction false} NotAsked(reqs: seq<Req>, route: Head)
    requires forall r <- reqs :: r.newRoute != route
    ensures AskedFor(reqs, route) == 0
  {
    if reqs != [] {
      var n := |reqs| - 1;
      assert reqs[n] in reqs;
      NotAsked(reqs[..n], route);
    }
  }

  /** The run-length assertion never fails when no route is asked for more often than the table has entries. */
  lemma NoLongRun(c: Config, steps: seq<Action>, s: State)
    requires 0 < c.runLimit && Leads(c, Init(c), steps, s) && AskedWithin(Served(steps), c.runLimit)
    ensures s.fault != LongRun
  {
    RunInv(c, steps, s);
    if OpenSize(s) > 0 {
      OpenRunWasAsked(c, steps, s);
      var route := s.threads[s.lock.value].run.route;
      if forall r <- Served(steps) :: r.newRoute != route {
        NotAsked(Served(steps), route);
      }
      assert route.Some? by {
        OpenRunReads(c, s);
        var k := |s.log| - 1;
        assert ReadKept(s.history, s.log, s.log[k]);
        assert EntryKept(s.entries[s.log[k].addr], s.history[s.log[k].addr], LastVersion(s.log, s.log[k].addr));
      }
    }
  }

  /**
   So the program never fails, and the forced flush always tells the listener all heads,
   with fewer addresses than ring slots and no route asked for more often than that.
   */
  lemma FlushNeverFails(c: Config, pre: seq<Action>, s: State, t: nat) returns (steps: seq<Action>, s': State)
    requires 0 < c.runLimit && c.addresses < c.capacity && AskedWithin(Served(pre), c.runLimit)
    requires Leads(c, Init(c), pre, s) && AllIdle(s) && t < |s.threads|
    ensures s.fault == NoFault && s'.fault == NoFault
    ensures Leads(c, Init(c), steps, s') && pre <= steps && Served(steps) == Served(pre)
    ensures Heard(s'.earlier, Served(pre), c.addresses)
  {
    NeverFails(c, pre, s);
    steps, s' := ListenerHearsLastAnnouncement(c, pre, s, t);
    NeverFails(c, steps, s');
  }

  lemma NeverFails(c: Config, steps: seq<Action>, s: State)
    requires 0 < c.runLimit && c.addresses < c.capacity && AskedWithin(Served(steps), c.runLimit)
    requires Leads(c, Init(c), steps, s)
    ensures s.fault == NoFault
  {
    NoLongRun(c, steps, s);
    if s.fault == Overrun { OverrunNeedsAddresses(c, s); }
  }
}
