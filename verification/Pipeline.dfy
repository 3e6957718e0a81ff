/**
 The Loc-RIB protocol as a step machine: any number of threads serve requests on
 Loc-RIB entries, journal the addresses whose head changed, and compete for the
 right to run the output phase. Every locked region is one step; the gaps
 between the locks are program points at which any other thread may act.
 */
module Pipeline {
  import opened Basics
  import opened Grouping
  import opened LocRib

  /** `capacity` is the size of the journal ring, `runLimit` that of the address table of the output phase. */
  datatype Config = Config(addresses: nat, threads: nat, capacity: nat, runLimit: nat)

  /** Where a thread stands between two locked regions. */
  datatype Pc =
    | Idle
    | Journalling(addr: Addr, eob: bool)  // entry updated and unlocked, address not journalled yet
    | Scheduling                          // about to try the output phase lock
    | First                               // lock held, nothing pulled yet
    | FirstPulled(addr: Addr)             // pulled, not yet read and cleared
    | Collecting(run: Block)              // a run is open
    | Pulled(run: Block, addr: Addr)      // a run is open, one more address pulled
    | Releasing                           // all blocks out, lock still held

  /** A failed assertion of the program. */
  datatype Fault = NoFault | Overrun | LongRun

  /** A read-and-clear, with the position of the head in the history of the address. */
  datatype Read = Read(addr: Addr, head: Head, version: nat)

  datatype State = State(
    entries: seq<Entry>,
    journal: seq<Addr>,
    threads: seq<Pc>,
    lock: Option<nat>,
    earlier: Blocks,  // blocks of the calls that have returned
    call: Blocks,     // blocks of the call in progress
    propagated: nat,
    fault: Fault,
    // observations the program does not store
    history: seq<seq<Head>>,
    lastWritten: seq<Head>,
    log: seq<Read>,
    callPairs: seq<Pair>,
    pushed: seq<Addr>)

  datatype Action =
    | Request(t: nat, addr: Addr, newRoute: Head, update: bool, eob: bool)
    | Push(t: nat)
    | Start(t: nat)
    | TryLock(t: nat)
    | Pull(t: nat)
    | Clear(t: nat)
    | Release(t: nat)

  function Init(c: Config): State {
    State(seq(c.addresses, _ => EMPTY_ENTRY), [], seq(c.threads, _ => Idle), None, Nothing, Nothing, 0, NoFault,
          seq(c.addresses, _ => [None]), seq(c.addresses, _ => None), [], [], [])
  }

  predicate Enabled(s: State, a: Action) {
    && s.fault == NoFault
    && a.t < |s.threads| && |s.history| == |s.lastWritten| == |s.entries|
    && var pc := s.threads[a.t];
       match a
       case Request(_, addr, newRoute, update, _) => pc.Idle? && addr < |s.entries| && update == newRoute.Some?
       case Push(_) => pc.Journalling?
       case Start(_) => pc.Idle?
       case TryLock(_) => pc.Scheduling?
       case Pull(_) => pc.First? || pc.Collecting?
       case Clear(_) => (pc.FirstPulled? || pc.Pulled?) && pc.addr < |s.entries|
       case Release(_) => pc.Releasing?
  }

  function Serve(s: State, t: nat, addr: Addr, newRoute: Head, update: bool, eob: bool): State
    requires Enabled(s, Request(t, addr, newRoute, update, eob))
  {
    var (e, push) := Produce(s.entries[addr], newRoute, update);
    s.(entries := s.entries[addr := e],
       threads := s.threads[t := if push then Journalling(addr, eob) else Idle],
       history := if Accepts(s.entries[addr], newRoute, update)
                  then s.history[addr := s.history[addr] + [newRoute]] else s.history,
       lastWritten := if update then s.lastWritten[addr := newRoute] else s.lastWritten)
  }

  function PushStep(c: Config, s: State, t: nat): State
    requires Enabled(s, Push(t))
  {
    var Journalling(addr, eob) := s.threads[t];
    if |s.journal| + 1 >= c.capacity then s.(fault := Overrun)
    else s.(journal := s.journal + [addr], pushed := s.pushed + [addr],
        threads := s.threads[t := if eob then Scheduling else Idle])
  }

  function TryLockStep(s: State, t: nat): State
    requires Enabled(s, TryLock(t))
  {
    if s.lock.Some? then s.(threads := s.threads[t := Idle])
    else s.(lock := Some(t), threads := s.threads[t := First])
  }

  function Emit(s: State, run: Block): State {
    s.(call := Then(s.call, run), propagated := s.propagated + |run.addrs|)
  }

  function PullStep(s: State, t: nat): State
    requires Enabled(s, Pull(t))
  {
    var pc := s.threads[t];
    if s.journal == [] then
      var done := s.(threads := s.threads[t := Releasing]);
      if pc.First? then done else Emit(done, pc.run)
    else
      s.(journal := s.journal[1..],
         threads := s.threads[t := if pc.First? then FirstPulled(s.journal[0]) else Pulled(pc.run, s.journal[0])])
  }

  /** The locked region of `read_and_clear`, before the consumer looks at the route it returned. */
  function ReadAndClear(s: State, a: Addr): State
    requires a < |s.entries| == |s.history|
  {
    s.(entries := s.entries[a := s.entries[a].(pushFlag := false)],
       log := s.log + [Read(a, s.entries[a].head, if s.history[a] == [] then 0 else |s.history[a]| - 1)],
       callPairs := s.callPairs + [Pair(a, s.entries[a].head)])
  }

  function ClearStep(c: Config, s: State, t: nat): State
    requires Enabled(s, Clear(t))
  {
    var pc := s.threads[t];
    var head := s.entries[pc.addr].head;
    var s' := ReadAndClear(s, pc.addr);
    if pc.FirstPulled? then
      s'.(threads := s.threads[t := Collecting(Block(head, [pc.addr]))])
    else if head == pc.run.route then
      s'.(threads := s.threads[t := Collecting(Block(head, pc.run.addrs + [pc.addr]))],
          fault := if |pc.run.addrs| >= c.runLimit then LongRun else NoFault)
    else
      Emit(s'.(threads := s.threads[t := Collecting(Block(head, [pc.addr]))]), pc.run)
  }

  function Step(c: Config, s: State, a: Action): State
    requires Enabled(s, a)
  {
    match a
    case Request(t, addr, newRoute, update, eob) => Serve(s, t, addr, newRoute, update, eob)
    case Push(t) => PushStep(c, s, t)
    case Start(t) => s.(threads := s.threads[t := Scheduling])
    case TryLock(t) => TryLockStep(s, t)
    case Pull(t) => PullStep(s, t)
    case Clear(t) => ClearStep(c, s, t)
    case Release(t) =>
      s.(threads := s.threads[t := Idle], lock := None, earlier := Concat(s.earlier, s.call), call := Nothing,
          callPairs := [])
  }

  // ---------------------------------------------------------------- invariants

  predicate Consuming(pc: Pc) {
    pc.First? || pc.FirstPulled? || pc.Collecting? || pc.Pulled? || pc.Releasing?
  }

  /** Is the thread responsible for this address: on its way into the journal, or out of it and not yet cleared? */
  predicate Holds(pc: Pc, a: Addr) {
    (pc.Journalling? || pc.FirstPulled? || pc.Pulled?) && pc.addr == a
  }

  function Weight(pc: Pc, a: Addr): nat { if Holds(pc, a) then 1 else 0 }

  function Holders(ts: seq<Pc>, a: Addr): nat {
    if ts == [] then 0 else Holders(ts[1..], a) + Weight(ts[0], a)
  }

  function Occurrences(xs: seq<Addr>, a: Addr): nat {
    if xs == [] then 0 else Occurrences(xs[1..], a) + if xs[0] == a then 1 else 0
  }

  /** Threads about to journal the address, journal entries for it, and consumers yet to clear it. */
  function Tokens(s: State, a: Addr): nat {
    Occurrences(s.journal, a) + Holders(s.threads, a)
  }

  ghost predicate Shape(c: Config, s: State) {
    && |s.entries| == |s.history| == |s.lastWritten| == c.addresses
    && |s.threads| == c.threads
    && (forall a <- s.journal :: a < c.addresses)
    && (forall t | 0 <= t < c.threads :: PcShape(c, s.threads[t]))
  }

  predicate PcShape(c: Config, pc: Pc) {
    pc.Journalling? || pc.FirstPulled? || pc.Pulled? ==> pc.addr < c.addresses
  }

  ghost predicate TokensConserved(s: State) {
    forall a: Addr | a < |s.entries| :: Tokens(s, a) == if s.entries[a].pushFlag then 1 else 0
  }

  ghost predicate SingleConsumer(s: State) {
    && (s.lock.Some? ==> s.lock.value < |s.threads|)
    && forall t | 0 <= t < |s.threads| :: Consuming(s.threads[t]) <==> s.lock == Some(t)
  }

  lemma {:induction false} HoldersUpdate(ts: seq<Pc>, t: nat, pc: Pc, a: Addr)
    requires t < |ts|
    ensures Holders(ts[t := pc], a) + Weight(ts[t], a) == Holders(ts, a) + Weight(pc, a)
  {
    if t == 0 {
      assert ts[t := pc][1..] == ts[1..];
    } else {
      HoldersUpdate(ts[1..], t - 1, pc, a);
      assert ts[t := pc][1..] == ts[1..][t - 1 := pc];
    }
  }

  lemma {:induction false} OccurrencesSnoc(xs: seq<Addr>, x: Addr, a: Addr)
    ensures Occurrences(xs + [x], a) == Occurrences(xs, a) + if x == a then 1 else 0
  {
    if xs != [] {
      assert (xs + [x])[1..] == xs[1..] + [x];
      OccurrencesSnoc(xs[1..], x, a);
    }
  }

  lemma ShapeStep(c: Config, s: State, a: Action)
    requires Shape(c, s) && Enabled(s, a)
    ensures Shape(c, Step(c, s, a))
  {
    var s' := Step(c, s, a);
    forall b <- s'.journal ensures b < c.addresses {
      assert b in s.journal || (a.Push? && b == s.threads[a.t].addr);
    }
    forall t | 0 <= t < c.threads ensures PcShape(c, s'.threads[t]) {
      assert PcShape(c, s.threads[t]);
      assert s.journal != [] ==> s.journal[0] in s.journal;
    }
  }

  /** Serving a request creates a token, clearing destroys one, every other step moves it. */
  lemma TokensStep(c: Config, s: State, a: Action, b: Addr)
    requires Shape(c, s) && Enabled(s, a)
    ensures Tokens(Step(c, s, a), b) ==
            Tokens(s, b)
            + (if a.Request? && a.addr == b && Produce(s.entries[b], a.newRoute, a.update).1 then 1 else 0)
            - (if a.Clear? && s.threads[a.t].addr == b then 1 else 0)
  {
    var s' := Step(c, s, a);
    assert s'.threads == s.threads[a.t := s'.threads[a.t]];
    HoldersUpdate(s.threads, a.t, s'.threads[a.t], b);
    if a.Push? {
      OccurrencesSnoc(s.journal, s.threads[a.t].addr, b);
    }
  }

  lemma OnlyPushOverruns(c: Config, s: State, a: Action)
    requires Enabled(s, a) && Step(c, s, a).fault == Overrun
    ensures a.Push? && c.capacity <= |s.journal| + 1
  {
  }

  lemma TokensConservedStep(c: Config, s: State, a: Action)
    requires Shape(c, s) && TokensConserved(s) && Enabled(s, a)
    ensures TokensConserved(Step(c, s, a))
  {
    var s' := Step(c, s, a);
    forall b: Addr | b < |s'.entries| ensures Tokens(s', b) == if s'.entries[b].pushFlag then 1 else 0 {
      TokensStep(c, s, a, b);
    }
  }

  lemma SingleConsumerStep(c: Config, s: State, a: Action)
    requires Shape(c, s) && SingleConsumer(s) && Enabled(s, a)
    ensures SingleConsumer(Step(c, s, a))
  {
  }

  /** The version of the latest read of an address; version 0 is the NULL every entry starts with. */
  function LastVersion(log: seq<Read>, a: Addr): nat {
    if log == [] then 0
    else if log[|log| - 1].addr == a then log[|log| - 1].version
    else LastVersion(log[..|log| - 1], a)
  }

  lemma LastVersionSnoc(log: seq<Read>, r: Read, a: Addr)
    ensures LastVersion(log + [r], a) == if r.addr == a then r.version else LastVersion(log, a)
  {
    assert (log + [r])[..|log|] == log;
  }

  ghost predicate EntryKept(e: Entry, past: seq<Head>, lastRead: nat) {
    && past != [] && past[0] == None && e.head == past[|past| - 1]
    && lastRead < |past|
    && (e.pushFlag <==> lastRead < |past| - 1)
    && (forall k | 1 <= k < |past| :: past[k].Some? && !SameTiebreak(past[k - 1], past[k]))
  }

  /**
   A clear push flag means exactly that the consumer has seen the newest head; each new
   head differs from the one before.
   */
  ghost predicate HistoriesKept(s: State) {
    forall a: Addr | a < |s.entries| && a < |s.history| :: EntryKept(s.entries[a], s.history[a], LastVersion(s.log, a))
  }

  ghost predicate ReadKept(history: seq<seq<Head>>, log: seq<Read>, r: Read) {
    && r.addr < |history|
    && 1 <= r.version <= LastVersion(log, r.addr)
    && r.version < |history[r.addr]|
    && history[r.addr][r.version] == r.head
  }

  /** Every read returned a head of the address's history, and later reads later heads. */
  ghost predicate ReadsKept(history: seq<seq<Head>>, log: seq<Read>) {
    && (forall i | 0 <= i < |log| :: ReadKept(history, log, log[i]))
    && (forall i, j | 0 <= i < j < |log| && log[i].addr == log[j].addr :: log[i].version < log[j].version)
  }

  ghost predicate LastWriterKept(s: State) {
    forall a: Addr | a < |s.entries| && a < |s.lastWritten| :: SameTiebreak(s.entries[a].head, s.lastWritten[a])
  }

  lemma {:induction false} HoldersPositive(ts: seq<Pc>, t: nat, a: Addr)
    requires t < |ts| && Holds(ts[t], a)
    ensures Holders(ts, a) > 0
  {
    if t > 0 { HoldersPositive(ts[1..], t - 1, a); }
  }

  /** An address pulled and not yet cleared still has its flag set. */
  lemma FlagSetUntilCleared(s: State, a: Action)
    requires TokensConserved(s) && Enabled(s, a) && a.Clear?
    ensures s.entries[s.threads[a.t].addr].pushFlag
  {
    HoldersPositive(s.threads, a.t, s.threads[a.t].addr);
    assert Tokens(s, s.threads[a.t].addr) > 0;
  }

  lemma ClearKeepsHistories(c: Config, s: State, t: nat)
    requires Shape(c, s) && HistoriesKept(s) && Enabled(s, Clear(t))
    ensures HistoriesKept(ClearStep(c, s, t))
  {
    var s' := ClearStep(c, s, t);
    var a := s.threads[t].addr;
    forall b: Addr | b < c.addresses
      ensures EntryKept(s'.entries[b], s'.history[b], LastVersion(s'.log, b))
    {
      assert EntryKept(s.entries[b], s.history[b], LastVersion(s.log, b));
      LastVersionSnoc(s.log, s'.log[|s.log|], b);
    }
  }

  lemma ServeKeepsHistories(c: Config, s: State, a: Action)
    requires Shape(c, s) && HistoriesKept(s) && Enabled(s, a) && a.Request?
    ensures HistoriesKept(Step(c, s, a))
  {
    var s' := Step(c, s, a);
    assert EntryKept(s.entries[a.addr], s.history[a.addr], LastVersion(s.log, a.addr));
    forall b: Addr | b < c.addresses && b != a.addr
      ensures EntryKept(s'.entries[b], s'.history[b], LastVersion(s'.log, b))
    {
      assert EntryKept(s.entries[b], s.history[b], LastVersion(s.log, b));
    }
  }

  lemma HistoriesKeptStep(c: Config, s: State, a: Action)
    requires Shape(c, s) && HistoriesKept(s) && Enabled(s, a)
    ensures HistoriesKept(Step(c, s, a))
  {
    if a.Clear? {
      ClearKeepsHistories(c, s, a.t);
    } else if a.Request? {
      ServeKeepsHistories(c, s, a);
    }
  }

  lemma ReadsKeptSnoc(history: seq<seq<Head>>, log: seq<Read>, r: Read)
    requires ReadsKept(history, log)
    requires r.addr < |history| && LastVersion(log, r.addr) < r.version < |history[r.addr]|
    requires history[r.addr][r.version] == r.head
    ensures ReadsKept(history, log + [r])
  {
    forall i | 0 <= i < |log + [r]| ensures ReadKept(history, log + [r], (log + [r])[i]) {
      LastVersionSnoc(log, r, (log + [r])[i].addr);
      assert i < |log| ==> ReadKept(history, log, log[i]);
    }
    forall i, j | 0 <= i < j < |log + [r]| && (log + [r])[i].addr == (log + [r])[j].addr
      ensures (log + [r])[i].version < (log + [r])[j].version
    {
      assert ReadKept(history, log, log[i]);
    }
  }

  lemma ReadsKeptGrow(history: seq<seq<Head>>, log: seq<Read>, a: Addr, h: Head)
    requires ReadsKept(history, log) && a < |history|
    ensures ReadsKept(history[a := history[a] + [h]], log)
  {
    forall i | 0 <= i < |log| ensures ReadKept(history[a := history[a] + [h]], log, log[i]) {
      assert ReadKept(history, log, log[i]);
    }
  }

  lemma ReadsKeptStep(c: Config, s: State, a: Action)
    requires Shape(c, s) && TokensConserved(s) && HistoriesKept(s) && ReadsKept(s.history, s.log) && Enabled(s, a)
    ensures ReadsKept(Step(c, s, a).history, Step(c, s, a).log)
  {
    if a.Clear? {
      FlagSetUntilCleared(s, a);
      var b := s.threads[a.t].addr;
      assert EntryKept(s.entries[b], s.history[b], LastVersion(s.log, b));
      ReadsKeptSnoc(s.history, s.log, Read(b, s.entries[b].head, |s.history[b]| - 1));
    } else if a.Request? && Accepts(s.entries[a.addr], a.newRoute, a.update) {
      ReadsKeptGrow(s.history, s.log, a.addr, a.newRoute);
    }
  }

  lemma LastWriterKeptStep(c: Config, s: State, a: Action)
    requires Shape(c, s) && LastWriterKept(s) && Enabled(s, a)
    ensures LastWriterKept(Step(c, s, a))
  {
  }

  // ---------------------------------------------------------------- grouping

  function ReadPairs(log: seq<Read>): (ps: seq<Pair>)
    ensures |ps| == |log|
  {
    seq(|log|, i requires 0 <= i < |log| => Pair(log[i].addr, log[i].head))
  }

  /** The blocks of the call in progress together with its open run. */
  function WithOpenRun(call: Blocks, pc: Pc): Blocks {
    if pc.Collecting? || pc.Pulled? then Then(call, pc.run) else call
  }

  /** The blocks of the call in progress, with its open run, are the grouping of what it has read so far. */
  ghost predicate CallGrouped(s: State) {
    match s.lock
    case None => s.call == Nothing && s.callPairs == []
    case Some(t) =>
      && t < |s.threads|
      && WithOpenRun(s.call, s.threads[t]) == GroupRuns(s.callPairs)
      && (s.threads[t].First? || s.threads[t].FirstPulled? ==> s.callPairs == [])
  }

  /** The calls together announce every read once, in the order of the reads. */
  ghost predicate AllAnnounced(s: State) {
    Flatten(s.earlier) + s.callPairs == ReadPairs(s.log)
  }

  lemma ClearCallGrouped(c: Config, s: State, t: nat)
    requires Enabled(s, Clear(t)) && s.lock == Some(t) && CallGrouped(s)
    ensures CallGrouped(ClearStep(c, s, t))
  {
    var pc := s.threads[t];
    GroupSnoc(s.callPairs, Pair(pc.addr, s.entries[pc.addr].head));
  }

  lemma CallGroupedStep(c: Config, s: State, a: Action)
    requires Shape(c, s) && SingleConsumer(s) && CallGrouped(s) && Enabled(s, a)
    ensures CallGrouped(Step(c, s, a))
  {
    if a.Clear? {
      assert s.lock == Some(a.t) by { assert Consuming(s.threads[a.t]); }
      ClearCallGrouped(c, s, a.t);
    }
  }

  lemma AllAnnouncedStep(c: Config, s: State, a: Action)
    requires Shape(c, s) && SingleConsumer(s) && CallGrouped(s) && AllAnnounced(s) && Enabled(s, a)
    ensures AllAnnounced(Step(c, s, a))
  {
    var s' := Step(c, s, a);
    if a.Clear? {
      var p := Pair(s.threads[a.t].addr, s.entries[s.threads[a.t].addr].head);
      assert ReadPairs(s'.log) == ReadPairs(s.log) + [p];
    } else if a.Release? {
      GroupRunsPartitions(s.callPairs);
      FlattenConcat(s.earlier, s.call);
    }
  }

  function OpenSize(s: State): nat {
    if s.lock.Some? && s.lock.value < |s.threads|
        && (s.threads[s.lock.value].Collecting? || s.threads[s.lock.value].Pulled?)
    then |s.threads[s.lock.value].run.addrs| else 0
  }

  /** The counter of propagated prefixes lags the reads by the open run only. */
  ghost predicate Counted(s: State) {
    s.propagated + OpenSize(s) == |s.log|
  }

  /** Every run fits the address table, unless the open run has just failed the assertion that says so. */
  ghost predicate RunsFit(c: Config, s: State) {
    && RunsWithin(s.earlier, c.runLimit) && RunsWithin(s.call, c.runLimit)
    && (s.fault != LongRun <==> OpenSize(s) <= c.runLimit)
  }

  lemma ClearCounted(c: Config, s: State, t: nat)
    requires 0 < c.runLimit && Enabled(s, Clear(t)) && s.lock == Some(t) && Counted(s) && RunsFit(c, s)
    ensures Counted(ClearStep(c, s, t)) && RunsFit(c, ClearStep(c, s, t))
  {
  }

  lemma CountedStep(c: Config, s: State, a: Action)
    requires 0 < c.runLimit && Shape(c, s) && SingleConsumer(s) && Counted(s) && RunsFit(c, s) && Enabled(s, a)
    ensures Counted(Step(c, s, a)) && RunsFit(c, Step(c, s, a))
  {
    if a.Clear? {
      assert s.lock == Some(a.t) by { assert Consuming(s.threads[a.t]); }
      ClearCounted(c, s, a.t);
    } else if a.Release? {
      RunsWithinConcat(s.earlier, s.call, c.runLimit);
    }
  }

  function LogAddrs(log: seq<Read>): seq<Addr> {
    seq(|log|, i requires 0 <= i < |log| => log[i].addr)
  }

  function InHand(s: State): seq<Addr> {
    if s.lock.Some? && s.lock.value < |s.threads|
        && (s.threads[s.lock.value].FirstPulled? || s.threads[s.lock.value].Pulled?)
    then [s.threads[s.lock.value].addr] else []
  }

  /** What entered the journal leaves it in the same order. */
  ghost predicate FirstInFirstOut(s: State) {
    s.pushed == LogAddrs(s.log) + InHand(s) + s.journal
  }

  lemma FirstInFirstOutStep(c: Config, s: State, a: Action)
    requires Shape(c, s) && SingleConsumer(s) && FirstInFirstOut(s) && Enabled(s, a)
    ensures FirstInFirstOut(Step(c, s, a))
  {
    var s' := Step(c, s, a);
    if a.Clear? {
      assert LogAddrs(s'.log) == LogAddrs(s.log) + [s.threads[a.t].addr];
    }
  }

  // ---------------------------------------------------------------- runs

  ghost predicate Inv(c: Config, s: State) {
    && Shape(c, s) && TokensConserved(s) && SingleConsumer(s)
    && HistoriesKept(s) && ReadsKept(s.history, s.log) && LastWriterKept(s)
    && CallGrouped(s) && AllAnnounced(s) && FirstInFirstOut(s) && Counted(s) && RunsFit(c, s)
  }

  lemma {:induction false} IdleHoldsNothing(ts: seq<Pc>, a: Addr)
    requires forall t | 0 <= t < |ts| :: ts[t].Idle?
    ensures Holders(ts, a) == 0
  {
    if ts != [] { IdleHoldsNothing(ts[1..], a); }
  }

  lemma InitInv(c: Config)
    requires 0 < c.runLimit
    ensures Inv(c, Init(c))
  {
    var s := Init(c);
    assert TokensConserved(s) by {
      forall a: Addr | a < c.addresses ensures Tokens(s, a) == 0 {
        IdleHoldsNothing(s.threads, a);
      }
    }
    assert HistoriesKept(s) && LastWriterKept(s);
    assert CallGrouped(s) && AllAnnounced(s) && FirstInFirstOut(s);
  }

  lemma StepInv(c: Config, s: State, a: Action)
    requires 0 < c.runLimit && Inv(c, s) && Enabled(s, a)
    ensures Inv(c, Step(c, s, a))
  {
    ShapeStep(c, s, a);
    TokensConservedStep(c, s, a);
    SingleConsumerStep(c, s, a);
    HistoriesKeptStep(c, s, a);
    ReadsKeptStep(c, s, a);
    LastWriterKeptStep(c, s, a);
    CallGroupedStep(c, s, a);
    AllAnnouncedStep(c, s, a);
    FirstInFirstOutStep(c, s, a);
    CountedStep(c, s, a);
  }

  /** The states reached by some interleaving of the threads; `steps` lists the actions taken. */
  ghost predicate Leads(c: Config, s: State, steps: seq<Action>, s': State)
    decreases |steps|
  {
    if steps == [] then s' == s
    else
      var n := |steps| - 1;
      exists mid ::
        Leads(c, s, steps[..n], mid) && Enabled(mid, steps[n]) && s' == Step(c, mid, steps[n])
  }

  lemma {:induction false} RunInv(c: Config, steps: seq<Action>, s: State)
    requires 0 < c.runLimit && Leads(c, Init(c), steps, s)
    ensures Inv(c, s)
    decreases |steps|
  {
    if steps == [] {
      InitInv(c);
    } else {
      var n := |steps| - 1;
      var mid :| Leads(c, Init(c), steps[..n], mid) && Enabled(mid, steps[n]) && s == Step(c, mid, steps[n]);
      RunInv(c, steps[..n], mid);
      StepInv(c, mid, steps[n]);
    }
  }
}
