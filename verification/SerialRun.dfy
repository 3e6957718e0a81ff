/** What one thread does with the arrays and the ring is a run of the protocol. */
module SerialRun {
  import opened Basics
  import opened Grouping
  import opened LocRib
  import opened Pipeline
  import opened PipelineSafety
  import opened Requests
  import OutputPhase

  /** The entries and the journal after a request has left its lock and its address has been journalled. */
  function EntriesAfter(s: State, r: Req): seq<Entry>
    requires r.addr < |s.entries| && r.update == r.newRoute.Some?
  {
    s.entries[r.addr := Produce(s.entries[r.addr], r.newRoute, r.update).0]
  }

  predicate Pushes(s: State, r: Req)
    requires r.addr < |s.entries| && r.update == r.newRoute.Some?
  {
    Produce(s.entries[r.addr], r.newRoute, r.update).1
  }

  function JournalAfter(s: State, r: Req): seq<Addr>
    requires r.addr < |s.entries| && r.update == r.newRoute.Some?
  {
    s.journal + if Pushes(s, r) then [r.addr] else []
  }

  ghost predicate Rests(c: Config, steps: seq<Action>, s: State, t: nat) {
    0 < c.runLimit && Leads(c, Init(c), steps, s) && s.fault == NoFault && AllIdle(s) && t < |s.threads|
  }

  /** With nothing journalled and nobody at work, all flags are clear. */
  lemma RestMeansClear(c: Config, steps: seq<Action>, s: State, a: Addr)
    requires 0 < c.runLimit && Leads(c, Init(c), steps, s) && AllIdle(s) && s.journal == [] && a < c.addresses
    ensures Shape(c, s) && !s.entries[a].pushFlag
  {
    RunInv(c, steps, s);
    IdleHoldsNothing(s.threads, a);
    assert Tokens(s, a) == 0;
  }

  /** After a call of the output phase: nothing journalled, all flags clear, heads unchanged, the runs announced. */
  ghost predicate Flushed(s: State, s': State, es: seq<Entry>, ps: seq<Pair>) {
    && AllIdle(s') && s'.journal == [] && s'.earlier == Concat(s.earlier, GroupRuns(ps))
    && |s'.entries| == |es| && forall a | 0 <= a < |es| :: s'.entries[a] == es[a].(pushFlag := false)
  }

  lemma CallFlushes(c: Config, pre: seq<Action>, s: State, t: nat) returns (steps: seq<Action>, s': State)
    requires 0 < c.runLimit && Leads(c, Init(c), pre, s) && s.fault == NoFault
    requires t < |s.threads| && s.threads[t].Scheduling? && OthersIdle(s, t)
    ensures Shape(c, s) && Continues(c, pre, t, steps, s')
    ensures s'.fault == NoFault <==> RunsWithin(GroupRuns(HeadsOf(s.journal, s.entries)), c.runLimit)
    ensures s'.fault == NoFault ==> Flushed(s, s', s.entries, HeadsOf(s.journal, s.entries))
  {
    steps, s' := CallSettles(c, pre, s, t);
    if s'.fault == NoFault {
      forall a: nat | a < |s.entries| ensures s'.entries[a] == s.entries[a].(pushFlag := false) {
        RestMeansClear(c, steps, s', a);
      }
    }
  }

  /** What a request leaves behind, in the cases that the code distinguishes. */
  ghost predicate ServedWell(c: Config, s: State, r: Req, eob: bool, s': State)
    requires r.addr < |s.entries| && r.update == r.newRoute.Some?
    requires forall a <- s.journal :: a < |s.entries|
  {
    var es, cs := EntriesAfter(s, r), JournalAfter(s, r);
    if Pushes(s, r) && |cs| >= c.capacity then s'.fault == Overrun
    else if Pushes(s, r) && eob then
      && (s'.fault == NoFault <==> RunsWithin(GroupRuns(HeadsOf(cs, es)), c.runLimit))
      && (s'.fault == NoFault ==> Flushed(s, s', es, HeadsOf(cs, es)))
    else
      s'.fault == NoFault && AllIdle(s') && s'.entries == es && s'.journal == cs && s'.earlier == s.earlier
  }

  /** The journal push of a request, and the call of the output phase after a marked one. */
  lemma PushIsRun(c: Config, pre: seq<Action>, s: State, t: nat, addr: Addr, eob: bool)
    returns (steps: seq<Action>, s': State)
    requires 0 < c.runLimit && Leads(c, Init(c), pre, s) && s.fault == NoFault
    requires t < |s.threads| && s.threads[t] == Journalling(addr, eob) && OthersIdle(s, t)
    ensures Shape(c, s) && addr < c.addresses && Continues(c, pre, t, steps, s')
    ensures forall a <- s.journal + [addr] :: a < |s.entries|
    ensures if |s.journal| + 1 >= c.capacity then s'.fault == Overrun
            else if eob then
              && (s'.fault == NoFault <==> RunsWithin(GroupRuns(HeadsOf(s.journal + [addr], s.entries)), c.runLimit))
              && (s'.fault == NoFault ==> Flushed(s, s', s.entries, HeadsOf(s.journal + [addr], s.entries)))
            else s' == s.(journal := s.journal + [addr], pushed := s.pushed + [addr], threads := s.threads[t := Idle])
  {
    RunInv(c, pre, s);
    assert PcShape(c, s.threads[t]);
    steps := Advance(c, pre, t, pre, s, Push(t));
    s' := Step(c, s, Push(t));
    if s'.fault == NoFault && eob {
      var upTo, pushed := steps, s';
      steps, s' := CallFlushes(c, upTo, pushed, t);
    }
  }

  /** Serving one request, with nobody else at work, is a run that serves that request. */
  lemma ServeIsRun(c: Config, pre: seq<Action>, s: State, t: nat, r: Req, eob: bool)
    returns (steps: seq<Action>, s': State)
    requires Rests(c, pre, s, t) && r.addr < c.addresses && r.update == r.newRoute.Some?
    ensures Shape(c, s) && Continues(c, pre + [Request(t, r.addr, r.newRoute, r.update, eob)], t, steps, s')
    ensures Served(steps) == Served(pre) + [r]
    ensures ServedWell(c, s, r, eob, s') && |s'.threads| == |s.threads|
  {
    assert Shape(c, s) by { RunInv(c, pre, s); }
    var request := Request(t, r.addr, r.newRoute, r.update, eob);
    LeadsStep(c, Init(c), pre, s, request);
    ServedSnoc(pre, request);
    var upTo, served := pre + [request], Step(c, s, request);
    steps, s' := upTo, served;
    if Pushes(s, r) {
      steps, s' := PushIsRun(c, upTo, served, t, r.addr, eob);
      OnlySteps(upTo, steps);
      assert |s'.threads| == |s.threads| by { RunInv(c, steps, s'); }
    }
  }

  // ---------------------------------------------------------------- the arrays follow

  /** A request together with the mark of the last prefix of an UPDATE. */
  type Job = Marked<bool>

  ghost predicate Sensible(jobs: seq<Job>, size: nat) {
    forall j <- jobs :: j.req.addr < size && j.req.update == j.req.newRoute.Some?
  }

  function ConfigOf(table: OutputPhase.LocRibTable): Config {
    Config(table.entries.Length, 1, table.journal.ring.Length, OutputPhase.TABLE_SIZE)
  }

  /** The arrays, the ring and the log hold what the state of the protocol holds. */
  ghost predicate Mirrors(table: OutputPhase.LocRibTable, s: State)
    reads table, table.entries, table.journal, table.journal.ring
  {
    && table.Valid() && table.entries[..] == s.entries && table.journal.Contents() == s.journal
    && table.announced == s.earlier
  }

  lemma ClearedAre(es: seq<Entry>, cs: seq<uint32>, now: seq<Entry>)
    requires OutputPhase.Matches(es, cs) && |now| == |es| < OutputPhase.INDEX_LIMIT
    requires forall a | 0 <= a < |es| :: now[a] == es[a].(pushFlag := false)
    ensures OutputPhase.Cleared(es, cs) == now
  {
    forall a: uint32 | a < |es| ensures OutputPhase.Cleared(es, cs)[a] == now[a] {
      assert es[a].pushFlag <==> a in cs;
    }
  }

  /**
   The outcome of the method, in the terms of the protocol: it fails alike, and leaves the
   same entries, journal and log.
   */
  lemma OutcomeIsServed(c: Config, s: State, job: Job, s': State, cs0: seq<uint32>, a: uint32, p0: nat,
                        ok: bool, es': seq<Entry>, cs': seq<uint32>, announced': Blocks, p': nat)
    requires a == job.req.addr < |s.entries| && job.req.update == job.req.newRoute.Some? && cs0 == s.journal
    requires c.runLimit == OutputPhase.TABLE_SIZE && forall x <- s.journal :: x < |s.entries|
    requires ServedWell(c, s, job.req, job.mark, s')
    requires |s.journal| < c.capacity && |s.entries| < OutputPhase.INDEX_LIMIT
    requires OutputPhase.Outcome(s.entries, cs0, s.earlier, p0, c.capacity,
                                 a, job.req.newRoute, job.req.update, job.mark, ok, es', cs', announced', p')
    ensures ok <==> s'.fault == NoFault
    ensures ok ==> AllIdle(s') && es' == s'.entries && cs' == s'.journal && announced' == s'.earlier
  {
    var es, cs := EntriesAfter(s, job.req), cs0 + if Pushes(s, job.req) then [a] else [];
    assert cs == JournalAfter(s, job.req);
    if ok && Pushes(s, job.req) && job.mark {
      ClearedAre(es, cs, s'.entries);
    }
  }

  /** An address with the mark in its top bit. */
  function Extended(a: uint32, eob: bool): (e: uint32)
    requires a < OutputPhase.INDEX_LIMIT
    ensures e % 0x8000_0000 == a && (e >= 0x8000_0000 <==> eob)
  {
    if eob then a + OutputPhase.INDEX_LIMIT else a
  }

  /** One job: the method and the run of the protocol end alike. */
  method ServeOne(table: OutputPhase.LocRibTable, job: Job, ghost pre: seq<Action>, ghost s: State)
    returns (ok: bool, ghost steps: seq<Action>, ghost s': State)
    requires Mirrors(table, s) && Rests(ConfigOf(table), pre, s, 0) && Sensible([job], table.entries.Length)
    modifies table, table.journal, table.journal.ring, table.entries
    ensures Leads(ConfigOf(table), Init(ConfigOf(table)), steps, s') && Served(steps) == Served(pre) + [job.req]
    ensures ok <==> s'.fault == NoFault
    ensures ok ==> Mirrors(table, s') && Rests(ConfigOf(table), steps, s', 0)
  {
    assert job in [job];
    ghost var c, cs0, p0 := ConfigOf(table), table.journal.Contents(), table.propagated;
    assert Shape(c, s) by { RunInv(c, pre, s); }
    steps, s' := ServeIsRun(c, pre, s, 0, job.req, job.mark);
    var a: uint32 := job.req.addr;
    ok := table.Locrib(Extended(a, job.mark), job.req.newRoute, job.req.update);
    OutcomeIsServed(c, s, job, s', cs0, a, p0, ok, table.entries[..],
                    if ok then table.journal.Contents() else [], table.announced, table.propagated);
  }

  ghost predicate IsNew(table: OutputPhase.LocRibTable)
    reads table, table.entries, table.journal, table.journal.ring
  {
    && table.Valid() && table.journal.Contents() == [] && table.announced == Nothing
    && forall a | 0 <= a < table.entries.Length :: table.entries[a] == EMPTY_ENTRY
  }

  lemma InitRests(c: Config)
    requires 0 < c.runLimit && 0 < c.threads
    ensures Rests(c, [], Init(c), 0) && Served([]) == []
  {
  }

  /** Job after job; a failed assertion of the program is a fault of the protocol. */
  method ServeAll(table: OutputPhase.LocRibTable, jobs: seq<Job>)
    returns (ok: bool, ghost steps: seq<Action>, ghost s: State)
    requires IsNew(table) && Sensible(jobs, table.entries.Length)
    modifies table, table.journal, table.journal.ring, table.entries
    ensures Leads(ConfigOf(table), Init(ConfigOf(table)), steps, s) && Served(steps) <= ReqsOf(jobs)
    ensures ok <==> s.fault == NoFault
    ensures ok ==> Served(steps) == ReqsOf(jobs) && Mirrors(table, s) && Rests(ConfigOf(table), steps, s, 0)
  {
    ghost var c := ConfigOf(table);
    ok, steps, s := true, [], Init(c);
    InitRests(c);
    var k := 0;
    while k < |jobs|
      invariant k <= |jobs| && ok && Mirrors(table, s) && Rests(c, steps, s, 0)
      invariant Served(steps) == ReqsOf(jobs[..k])
    {
      assert jobs[k] in jobs && jobs[..k + 1] == jobs[..k] + [jobs[k]];
      ok, steps, s := ServeOne(table, jobs[k], steps, s);
      assert Served(steps) == ReqsOf(jobs[..k + 1]) <= ReqsOf(jobs);
      if !ok {
        return;
      }
      k := k + 1;
    }
    assert jobs[..k] == jobs;
  }

  lemma FlushIsHeard(c: Config, steps: seq<Action>, s: State, cs: seq<uint32>)
    requires Rests(c, steps, s, 0) && cs == s.journal && forall a <- cs :: a < |s.entries|
    requires RunsWithin(GroupRuns(HeadsOf(cs, s.entries)), c.runLimit)
    ensures Heard(Concat(s.earlier, GroupRuns(HeadsOf(cs, s.entries))), Served(steps), c.addresses)
  {
    var steps', s' := ListenerHearsLastAnnouncement(c, steps, s, 0);
  }

  /**
   End to end, in the program's own terms: when all jobs are done and the output phase
   has been forced, the listener's last word on each address is the head that the jobs
   give, with the tie-break record of the last route announced for the address.
   */
  method ServeAndFlush(table: OutputPhase.LocRibTable, jobs: seq<Job>) returns (ok: bool)
    requires IsNew(table) && Sensible(jobs, table.entries.Length)
    modifies table, table.journal, table.journal.ring, table.entries
    ensures ok ==> Heard(table.announced, ReqsOf(jobs), table.entries.Length)
    ensures ok ==> table.Valid() && table.journal.Contents() == []
  {
    ghost var steps, s;
    ok, steps, s := ServeAll(table, jobs);
    if ok {
      ghost var cs, announced := table.journal.Contents(), table.announced;
      assert cs == s.journal && table.entries[..] == s.entries && announced == s.earlier;
      ok := table.SchedulePhase3();
      if ok {
        FlushIsHeard(ConfigOf(table), steps, s, cs);
      }
    }
  }
}
