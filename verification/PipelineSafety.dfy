/** What the protocol guarantees in every interleaving of any number of threads. */
module PipelineSafety {
  import opened Basics
  import opened Grouping
  import opened LocRib
  import opened Pipeline

  ghost predicate Reachable(c: Config, s: State) {
    exists steps :: Leads(c, Init(c), steps, s)
  }

  lemma ReachableInv(c: Config, s: State)
    requires 0 < c.runLimit && Reachable(c, s)
    ensures Inv(c, s)
  {
    var steps :| Leads(c, Init(c), steps, s);
    RunInv(c, steps, s);
  }

  // ---------------------------------------------------------------- tokens

  lemma {:induction false} OccursPositive(xs: seq<Addr>, i: nat)
    requires i < |xs|
    ensures Occurrences(xs, xs[i]) > 0
  {
    if i > 0 { OccursPositive(xs[1..], i - 1); }
  }

  lemma {:induction false} OnceEachIsDistinct(xs: seq<Addr>)
    requires forall a <- xs :: Occurrences(xs, a) <= 1
    ensures Distinct(xs)
  {
    if xs != [] {
      forall j | 1 <= j < |xs| ensures xs[0] != xs[j] {
        OccursPositive(xs[1..], j - 1);
        assert xs[0] in xs;
      }
      forall a <- xs[1..] ensures Occurrences(xs[1..], a) <= 1 {
        assert a in xs;
      }
      OnceEachIsDistinct(xs[1..]);
      forall i, j | 0 <= i < j < |xs| ensures xs[i] != xs[j] {
        if i > 0 { assert xs[1..][i - 1] != xs[1..][j - 1]; }
      }
    }
  }

  /**
   In every reachable state, the producers about to journal an address, its journal
   entries and the consumers yet to clear it number one if its push flag is set and
   zero otherwise; so no address is in the journal twice.
   */
  lemma TokenConservation(c: Config, s: State)
    requires 0 < c.runLimit && Reachable(c, s)
    ensures Shape(c, s)
    ensures forall a: Addr | a < c.addresses ::
              Occurrences(s.journal, a) + Holders(s.threads, a) == if s.entries[a].pushFlag then 1 else 0
    ensures Distinct(s.journal)
  {
    ReachableInv(c, s);
    forall a: Addr | a < c.addresses
      ensures Tokens(s, a) == if s.entries[a].pushFlag then 1 else 0
    {
    }
    forall a <- s.journal ensures Occurrences(s.journal, a) <= 1 {
      assert Tokens(s, a) <= 1;
    }
    OnceEachIsDistinct(s.journal);
  }

  // ---------------------------------------------------------------- overrun

  /** A thread about to journal an address finds room whenever there are fewer addresses than ring slots. */
  lemma RoomToPush(c: Config, s: State, t: nat)
    requires Inv(c, s) && c.addresses < c.capacity
    requires t < |s.threads| && s.threads[t].Journalling?
    ensures |s.journal| + 1 < c.capacity
  {
    var a := s.threads[t].addr;
    assert PcShape(c, s.threads[t]);
    HoldersPositive(s.threads, t, a);
    forall b <- s.journal + [a] ensures b < c.addresses && Occurrences(s.journal + [a], b) <= 1 {
      OccurrencesSnoc(s.journal, a, b);
      assert Tokens(s, b) <= 1;
    }
    OnceEachIsDistinct(s.journal + [a]);
    PigeonHole(s.journal + [a], c.addresses);
  }

  lemma OverrunNeedsAddresses(c: Config, s: State)
    requires 0 < c.runLimit && Reachable(c, s) && s.fault == Overrun
    ensures c.capacity <= c.addresses
  {
    var steps: seq<Action> :| Leads(c, Init(c), steps, s);
    var n := |steps| - 1;
    var mid: State :| Leads(c, Init(c), steps[..n], mid) && Enabled(mid, steps[n]) && s == Step(c, mid, steps[n]);
    RunInv(c, steps[..n], mid);
    OnlyPushOverruns(c, mid, steps[n]);
    if c.addresses < c.capacity {
      RoomToPush(c, mid, steps[n].t);
    }
  }

  lemma LeadsStep(c: Config, s0: State, steps: seq<Action>, s: State, a: Action)
    requires Leads(c, s0, steps, s) && Enabled(s, a)
    ensures Leads(c, s0, steps + [a], Step(c, s, a))
  {
    assert (steps + [a])[..|steps|] == steps;
  }

  const ANY_ROUTE := Route(0, Tiebreak(0, 0, 0, 0, 0, 0, 0, 0), [])

  /** One thread journals the addresses 0, 1, 2, ... and never starts the output phase. */
  lemma {:induction false} FillJournal(c: Config, k: nat) returns (steps: seq<Action>, s: State)
    requires 0 < c.threads && k < c.capacity && k <= c.addresses
    ensures Leads(c, Init(c), steps, s) && s.fault == NoFault && s.threads == Init(c).threads
    ensures |s.journal| == k && |s.entries| == |s.history| == |s.lastWritten| == c.addresses
    ensures forall a: Addr | k <= a < c.addresses :: s.entries[a] == EMPTY_ENTRY
  {
    if k == 0 {
      steps, s := [], Init(c);
    } else {
      steps, s := FillJournal(c, k - 1);
      var request := Request(0, k - 1, Some(ANY_ROUTE), true, false);
      LeadsStep(c, Init(c), steps, s, request);
      steps, s := steps + [request], Step(c, s, request);
      LeadsStep(c, Init(c), steps, s, Push(0));
      steps, s := steps + [Push(0)], Step(c, s, Push(0));
      assert s.threads == Init(c).threads;
    }
  }

  lemma OverrunHappens(c: Config) returns (steps: seq<Action>, s: State)
    requires 0 < c.capacity <= c.addresses && 0 < c.threads
    ensures Leads(c, Init(c), steps, s) && s.fault == Overrun
  {
    steps, s := FillJournal(c, c.capacity - 1);
    var request := Request(0, c.capacity - 1, Some(ANY_ROUTE), true, false);
    LeadsStep(c, Init(c), steps, s, request);
    steps, s := steps + [request], Step(c, s, request);
    LeadsStep(c, Init(c), steps, s, Push(0));
    steps, s := steps + [Push(0)], Step(c, s, Push(0));
  }

  /** The overrun assertion of the journal can fail exactly when there are at least as many addresses as ring slots. */
  lemma OverrunExactly(c: Config)
    requires 0 < c.runLimit && 0 < c.capacity && 0 < c.threads
    ensures (exists s :: Reachable(c, s) && s.fault == Overrun) <==> c.capacity <= c.addresses
  {
    if s :| Reachable(c, s) && s.fault == Overrun {
      OverrunNeedsAddresses(c, s);
    }
    if c.capacity <= c.addresses {
      var steps, s := OverrunHappens(c);
      assert Reachable(c, s);
    }
  }

  // ---------------------------------------------------------------- order and no lost update

  lemma {:induction false} LastReadIsAnnounced(history: seq<seq<Head>>, log: seq<Read>, a: Addr)
    requires forall r <- log ::
               r.addr < |history| && 1 <= r.version < |history[r.addr]| && history[r.addr][r.version] == r.head
    requires a < |history| && history[a] != [] && history[a][0] == None
    ensures LastVersion(log, a) < |history[a]|
    ensures LastAnnounced(ReadPairs(log), a) == history[a][LastVersion(log, a)]
  {
    if log != [] {
      var n := |log| - 1;
      assert log[n] in log;
      LastReadIsAnnounced(history, log[..n], a);
      assert ReadPairs(log)[..n] == ReadPairs(log[..n]);
    }
  }

  lemma ReadsInHistory(c: Config, s: State)
    requires Inv(c, s)
    ensures forall r <- s.log ::
              r.addr < |s.history| && 1 <= r.version < |s.history[r.addr]| && s.history[r.addr][r.version] == r.head
  {
    forall r <- s.log
      ensures r.addr < |s.history| && 1 <= r.version < |s.history[r.addr]| && s.history[r.addr][r.version] == r.head
    {
      assert ReadKept(s.history, s.log, r);
    }
  }

  /** No lost update: a clear push flag means that the route last read for the address is its head. */
  lemma ClearFlagMeansHeadSeen(c: Config, s: State, a: Addr)
    requires 0 < c.runLimit && Reachable(c, s) && a < c.addresses
    ensures Shape(c, s)
    ensures !s.entries[a].pushFlag ==> LastAnnounced(ReadPairs(s.log), a) == s.entries[a].head
  {
    ReachableInv(c, s);
    assert EntryKept(s.entries[a], s.history[a], LastVersion(s.log, a));
    ReadsInHistory(c, s);
    LastReadIsAnnounced(s.history, s.log, a);
  }

  function AnnouncedFor(ps: seq<Pair>, a: Addr): seq<Head> {
    if ps == [] then []
    else AnnouncedFor(ps[..|ps| - 1], a) + if ps[|ps| - 1].addr == a then [ps[|ps| - 1].head] else []
  }

  ghost predicate Picks(xs: seq<Head>, ys: seq<Head>, at: seq<nat>) {
    && |at| == |xs|
    && (forall i | 0 <= i < |xs| :: at[i] < |ys| && ys[at[i]] == xs[i])
    && (forall i, j | 0 <= i < j < |at| :: at[i] < at[j])
  }

  lemma {:induction false} ReadsPickHistory(history: seq<seq<Head>>, log: seq<Read>, a: Addr) returns (at: seq<nat>)
    requires a < |history|
    requires forall r <- log | r.addr == a :: r.version < |history[a]| && history[a][r.version] == r.head
    requires forall i, j | 0 <= i < j < |log| && log[i].addr == log[j].addr :: log[i].version < log[j].version
    ensures Picks(AnnouncedFor(ReadPairs(log), a), history[a], at)
    ensures forall v <- at :: exists r <- log :: r.addr == a && r.version == v
  {
    at := [];
    if log != [] {
      var n := |log| - 1;
      var r, before := log[n], log[..n];
      assert ReadPairs(log)[..n] == ReadPairs(before);
      at := ReadsPickHistory(history, before, a);
      if r.addr == a {
        assert r in log;
        forall v <- at ensures v < r.version {
          var q :| q in before && q.addr == a && q.version == v;
          var i :| 0 <= i < n && log[i] == q;
        }
        var at' := at + [r.version];
        forall i, j | 0 <= i < j < |at'| ensures at'[i] < at'[j] {
          if j == |at| { assert at[i] in at; }
        }
        at := at + [r.version];
      }
      forall v <- at ensures exists q <- log :: q.addr == a && q.version == v {
        if q :| q in before && q.addr == a && q.version == v {
          assert q in log;
        } else {
          assert r in log && r.version == v;
        }
      }
    }
  }

  /** Across all calls of the output phase, the routes announced for an address are a subsequence of its heads. */
  lemma AnnouncedInHistoryOrder(c: Config, s: State, a: Addr)
    requires 0 < c.runLimit && Reachable(c, s) && a < c.addresses
    ensures Shape(c, s)
    ensures exists at :: Picks(AnnouncedFor(ReadPairs(s.log), a), s.history[a], at)
    ensures Flatten(s.earlier) + s.callPairs == ReadPairs(s.log)
  {
    ReachableInv(c, s);
    ReadsInHistory(c, s);
    var at := ReadsPickHistory(s.history, s.log, a);
  }

  /**
   What a finishing call has announced: the maximal runs of the addresses it pulled, in the
   order in which they were journalled.
   */
  lemma CallAnnouncesWhatItPulled(c: Config, s: State, t: nat)
    requires 0 < c.runLimit && Reachable(c, s) && t < |s.threads| && s.threads[t].Releasing?
    ensures Flatten(s.call) == s.callPairs && Maximal(s.call) && RunsWithin(s.call, c.runLimit)
    ensures Flatten(Concat(s.earlier, s.call)) == ReadPairs(s.log)
    ensures s.propagated == |Flatten(Concat(s.earlier, s.call))|
    ensures s.pushed == LogAddrs(s.log) + s.journal
  {
    ReachableInv(c, s);
    assert s.lock == Some(t) by { assert Consuming(s.threads[t]); }
    GroupRunsPartitions(s.callPairs);
    assert Flatten(Concat(s.earlier, s.call)) == ReadPairs(s.log) by { FlattenConcat(s.earlier, s.call); }
  }

  /**
   Every head carries the tiebreak of the last update served, as if every newcomer won; and
   a journalled head differs from its predecessor.
   */
  lemma SuppressionRefinesNewWins(c: Config, s: State, a: Addr)
    requires 0 < c.runLimit && Reachable(c, s) && a < c.addresses
    ensures Shape(c, s)
    ensures SameTiebreak(s.entries[a].head, s.lastWritten[a])
    ensures forall k | 1 <= k < |s.history[a]| ::
              s.history[a][k].Some? && !SameTiebreak(s.history[a][k - 1], s.history[a][k])
    ensures s.history[a] != [] && s.entries[a].head == s.history[a][|s.history[a]| - 1]
  {
    ReachableInv(c, s);
    assert EntryKept(s.entries[a], s.history[a], LastVersion(s.log, a));
  }

  // ---------------------------------------------------------------- the forced flush

  ghost predicate AllIdle(s: State) {
    forall t | 0 <= t < |s.threads| :: s.threads[t].Idle?
  }

  lemma NobodyHoldsTheLock(s: State)
    requires SingleConsumer(s) && forall t | 0 <= t < |s.threads| :: !Consuming(s.threads[t])
    ensures s.lock.None?
  {
    forall t: nat | t < |s.threads| ensures s.lock != Some(t) {
      assert !Consuming(s.threads[t]);
    }
  }

  /** With every producer joined and the journal drained, the last route announced for each address is its head. */
  lemma QuiescentAnnouncesHeads(c: Config, s: State, a: Addr)
    requires Inv(c, s) && AllIdle(s) && s.journal == [] && a < c.addresses
    ensures LastAnnounced(Flatten(s.earlier), a) == s.entries[a].head
  {
    IdleHoldsNothing(s.threads, a);
    assert Tokens(s, a) == 0;
    NobodyHoldsTheLock(s);
    assert EntryKept(s.entries[a], s.history[a], LastVersion(s.log, a));
    ReadsInHistory(c, s);
    LastReadIsAnnounced(s.history, s.log, a);
    assert Flatten(s.earlier) + [] == Flatten(s.earlier);
  }

  /** The pairs a flush reads when nobody else is running: each journalled address with its head. */
  function Pending(s: State): seq<Pair>
    requires forall a <- s.journal :: a < |s.entries|
  {
    HeadsOf(s.journal, s.entries)
  }

  ghost predicate OthersIdle(s: State, t: nat) {
    forall u | 0 <= u < |s.threads| && u != t :: s.threads[u].Idle?
  }

  ghost predicate SameHeads(s: State, s': State) {
    |s'.entries| == |s.entries| && forall a | 0 <= a < |s.entries| :: s'.entries[a].head == s.entries[a].head
  }

  lemma {:induction false} LongRunPersists(ps: seq<Pair>, qs: seq<Pair>, limit: nat)
    requires !RunsWithin(GroupRuns(ps), limit)
    ensures !RunsWithin(GroupRuns(ps + qs), limit)
  {
    if qs == [] {
      assert ps + qs == ps;
    } else {
      var n := |qs| - 1;
      LongRunPersists(ps, qs[..n], limit);
      assert ps + qs == (ps + qs[..n]) + [qs[n]];
      GroupSnoc(ps + qs[..n], qs[n]);
    }
  }

  /** The outcome of a flush that has to announce `all`: everything announced, or the run-length assertion failed. */
  ghost predicate Settled(c: Config, s: State, s': State, all: seq<Pair>) {
    && SameHeads(s, s')
    && (s'.fault == NoFault <==> RunsWithin(GroupRuns(all), c.runLimit))
    && (s'.fault == NoFault ==> AllIdle(s') && s'.journal == [] && s'.earlier == Concat(s.earlier, GroupRuns(all)))
    && (s'.fault == NoFault || s'.fault == LongRun)
  }

  /** `steps` continues the run `pre` with steps of `t` alone, none a request or a start, and leads to `s`. */
  ghost predicate Continues(c: Config, pre: seq<Action>, t: nat, steps: seq<Action>, s: State) {
    && pre <= steps
    && (forall i | |pre| <= i < |steps| :: steps[i].t == t && !steps[i].Request? && !steps[i].Start?)
    && Leads(c, Init(c), steps, s)
  }

  lemma Advance(c: Config, pre: seq<Action>, t: nat, steps: seq<Action>, s: State, a: Action)
    returns (steps': seq<Action>)
    requires Continues(c, pre, t, steps, s) && Enabled(s, a)
    requires a.t == t && !a.Request? && !a.Start?
    ensures Continues(c, pre, t, steps', Step(c, s, a))
  {
    LeadsStep(c, Init(c), steps, s, a);
    steps' := steps + [a];
  }

  /** Pulling and clearing one address, as one change of the state. */
  lemma PullThenClear(c: Config, s: State, t: nat) returns (mid: State, s': State)
    requires Shape(c, s) && Enabled(s, Pull(t)) && s.journal != [] && OthersIdle(s, t)
    ensures mid == Step(c, s, Pull(t)) && Enabled(mid, Clear(t)) && s' == Step(c, mid, Clear(t))
    ensures SameHeads(s, s') && s'.journal == s.journal[1..] && s'.earlier == s.earlier
    ensures |s'.threads| == |s.threads| && s'.threads[t].Collecting? && OthersIdle(s', t)
    ensures s'.callPairs == s.callPairs + [Pending(s)[0]]
    ensures s'.fault == NoFault || s'.fault == LongRun
  {
    mid := Step(c, s, Pull(t));
    assert s.journal[0] in s.journal;
    s' := Step(c, mid, Clear(t));
  }

  lemma PendingTail(s: State, s': State)
    requires s.journal != [] && s'.journal == s.journal[1..] && SameHeads(s, s')
    requires forall a <- s.journal :: a < |s.entries|
    requires forall a <- s'.journal :: a < |s'.entries|
    ensures [Pending(s)[0]] + Pending(s') == Pending(s)
  {
    forall i | 0 <= i < |s'.journal| ensures Pending(s')[i] == Pending(s)[i + 1] {
      assert s'.journal[i] in s'.journal && s.journal[i + 1] in s.journal;
    }
  }

  lemma PullAndClear(c: Config, pre: seq<Action>, t: nat, steps: seq<Action>, s: State)
    returns (steps': seq<Action>, s': State)
    requires Continues(c, pre, t, steps, s)
    requires Shape(c, s) && Enabled(s, Pull(t)) && s.journal != [] && OthersIdle(s, t)
    ensures Continues(c, pre, t, steps', s') && SameHeads(s, s') && s'.journal == s.journal[1..]
    ensures t < |s'.threads| && s'.threads[t].Collecting? && OthersIdle(s', t)
    ensures s'.earlier == s.earlier && (s'.fault == NoFault || s'.fault == LongRun)
    ensures (forall a <- s'.journal :: a < |s'.entries|) && s'.callPairs + Pending(s') == s.callPairs + Pending(s)
  {
    var mid;
    mid, s' := PullThenClear(c, s, t);
    steps' := Advance(c, pre, t, steps, s, Pull(t));
    steps' := Advance(c, pre, t, steps', mid, Clear(t));
    forall a <- s'.journal ensures a < |s'.entries| {
      assert a in s.journal;
    }
    PendingTail(s, s');
  }

  /** What the invariant says of a thread with an open run. */
  lemma CollectorFacts(c: Config, steps: seq<Action>, s: State, t: nat)
    requires 0 < c.runLimit && Leads(c, Init(c), steps, s)
    requires t < |s.threads| && s.threads[t].Collecting?
    ensures Shape(c, s) && s.lock == Some(t)
    ensures Then(s.call, s.threads[t].run) == GroupRuns(s.callPairs)
    ensures RunsWithin(s.call, c.runLimit) && (s.fault != LongRun <==> |s.threads[t].run.addrs| <= c.runLimit)
    ensures |s.history| == |s.lastWritten| == |s.entries|
  {
    RunInv(c, steps, s);
    assert s.lock == Some(t) by { assert Consuming(s.threads[t]); }
  }

  lemma {:induction false} Drain(c: Config, pre: seq<Action>, t: nat, steps: seq<Action>, s: State)
    returns (steps': seq<Action>, s': State)
    requires 0 < c.runLimit && Continues(c, pre, t, steps, s)
    requires t < |s.threads| && s.threads[t].Collecting? && OthersIdle(s, t)
    requires s.fault == NoFault || s.fault == LongRun
    requires forall a <- s.journal :: a < |s.entries|
    ensures Continues(c, pre, t, steps', s') && Settled(c, s, s', s.callPairs + Pending(s))
    decreases |s.journal|
  {
    CollectorFacts(c, steps, s, t);
    if s.fault == LongRun {
      steps', s' := steps, s;
      LongRunPersists(s.callPairs, Pending(s), c.runLimit);
    } else if s.journal == [] {
      steps' := Advance(c, pre, t, steps, s, Pull(t));
      var mid := Step(c, s, Pull(t));
      steps' := Advance(c, pre, t, steps', mid, Release(t));
      s' := Step(c, mid, Release(t));
      assert s.callPairs + Pending(s) == s.callPairs;
    } else {
      var mid;
      steps', mid := PullAndClear(c, pre, t, steps, s);
      steps', s' := Drain(c, pre, t, steps', mid);
    }
  }

  /** A thread that calls the output phase, with nobody else running, gets the lock. */
  lemma Open(c: Config, pre: seq<Action>, s: State, t: nat) returns (steps: seq<Action>, s': State)
    requires 0 < c.runLimit && Leads(c, Init(c), pre, s) && s.fault == NoFault
    requires t < |s.threads| && s.threads[t].Scheduling? && OthersIdle(s, t)
    ensures Continues(c, pre, t, steps, s') && Shape(c, s)
    ensures s' == s.(threads := s.threads[t := First], lock := Some(t)) && s.call == Nothing && s.callPairs == []
  {
    RunInv(c, pre, s);
    NobodyHoldsTheLock(s);
    steps := Advance(c, pre, t, pre, s, TryLock(t));
    s' := Step(c, s, TryLock(t));
  }

  /** A call that finds the journal empty. */
  lemma NothingPending(c: Config, pre: seq<Action>, s: State, t: nat) returns (steps: seq<Action>, s': State)
    requires 0 < c.runLimit && Leads(c, Init(c), pre, s) && s.fault == NoFault && s.journal == []
    requires t < |s.threads| && s.threads[t].Scheduling? && OthersIdle(s, t)
    ensures Shape(c, s) && Continues(c, pre, t, steps, s') && Settled(c, s, s', [])
  {
    var open, mid;
    steps, open := Open(c, pre, s, t);
    steps := Advance(c, pre, t, steps, open, Pull(t));
    mid := Step(c, open, Pull(t));
    steps := Advance(c, pre, t, steps, mid, Release(t));
    s' := Step(c, mid, Release(t));
  }

  /**
   One call of the output phase with nobody else running empties the journal and
   announces exactly what was pending, unless more addresses in a row than the address
   table holds share one route; and it fails only then.
   */
  lemma CallSettles(c: Config, pre: seq<Action>, s: State, t: nat) returns (steps: seq<Action>, s': State)
    requires 0 < c.runLimit && Leads(c, Init(c), pre, s) && s.fault == NoFault
    requires t < |s.threads| && s.threads[t].Scheduling? && OthersIdle(s, t)
    ensures Shape(c, s) && Continues(c, pre, t, steps, s') && Settled(c, s, s', Pending(s))
  {
    if s.journal == [] {
      steps, s' := NothingPending(c, pre, s, t);
    } else {
      var open, mid;
      steps, open := Open(c, pre, s, t);
      assert Shape(c, open);
      steps, mid := PullAndClear(c, pre, t, steps, open);
      assert mid.callPairs + Pending(mid) == Pending(s);
      steps, s' := Drain(c, pre, t, steps, mid);
    }
  }

  /** The forced flush: once all producers have been joined, an idle thread calls the output phase. */
  lemma FlushSettles(c: Config, pre: seq<Action>, s: State, t: nat) returns (steps: seq<Action>, s': State)
    requires 0 < c.runLimit && Leads(c, Init(c), pre, s) && s.fault == NoFault && AllIdle(s) && t < |s.threads|
    ensures Shape(c, s) && Continues(c, pre + [Start(t)], t, steps, s') && Settled(c, s, s', Pending(s))
  {
    RunInv(c, pre, s);
    var scheduled := Step(c, s, Start(t));
    LeadsStep(c, Init(c), pre, s, Start(t));
    steps, s' := CallSettles(c, pre + [Start(t)], scheduled, t);
  }

  /**
   Eventual agreement. From every reachable state in which all threads are idle, the
   forced flush reaches a state where the listener's last word on each address is its
   Loc-RIB head, if and only if no pending run exceeds the address table.
   */
  lemma FlushAnnouncesAllHeads(c: Config, pre: seq<Action>, s: State, t: nat) returns (steps: seq<Action>, s': State)
    requires 0 < c.runLimit && Leads(c, Init(c), pre, s) && s.fault == NoFault && AllIdle(s) && t < |s.threads|
    ensures Shape(c, s) && Shape(c, s') && Continues(c, pre + [Start(t)], t, steps, s')
    ensures s'.fault == NoFault <==> RunsWithin(GroupRuns(Pending(s)), c.runLimit)
    ensures s'.fault == NoFault ==>
              && s'.earlier == Concat(s.earlier, GroupRuns(Pending(s)))
              && forall a: Addr | a < c.addresses :: LastAnnounced(Flatten(s'.earlier), a) == s.entries[a].head
  {
    steps, s' := FlushSettles(c, pre, s, t);
    RunInv(c, steps, s');
    if s'.fault == NoFault {
      forall a: Addr | a < c.addresses ensures LastAnnounced(Flatten(s'.earlier), a) == s.entries[a].head {
        QuiescentAnnouncesHeads(c, s', a);
      }
    }
  }
}
