/**
 The prefix table under concurrent lookups. The test for an empty slot is made outside
 the lock, and nobody tests again inside it. Under the lock an index is taken, then the
 forward entry is stored, then the inverse entry; other threads may test in between.
 */
module PrefixRace {
  import opened Basics
  import opened PrefixTable

  /** Where a thread stands in a lookup of a packed prefix; the last two hold the lock and an index. */
  datatype Looker =
    | Ready
    | SawEmpty(ref: nat)            // about to lock
    | Taken(ref: nat, index: nat)   // index taken, nothing stored
    | Stored(ref: nat, index: nat)  // forward entry stored, inverse entry still zero

  datatype Answer = Answer(ref: nat, index: nat)

  /**
   `given` is the prefix each index was taken for; the program does not store it. A zero
   inverse entry names no prefix.
   */
  datatype State = State(table: Table, lock: Option<nat>, threads: seq<Looker>, answers: seq<Answer>, given: seq<nat>)

  datatype Action = Test(t: nat, ref: nat) | Take(t: nat) | StoreForward(t: nat) | StoreInverse(t: nat)

  function Init(threads: nat): State { State(EMPTY, None, seq(threads, _ => Ready), [], []) }

  predicate Enabled(s: State, a: Action) {
    && a.t < |s.threads|
    && var l := s.threads[a.t];
       match a
       case Test(_, ref) => l.Ready? && ref > 0
       case Take(_) => l.SawEmpty? && s.lock.None?
       case StoreForward(_) => l.Taken?
       case StoreInverse(_) => l.Stored? && l.index < |s.table.issued|
  }

  /** The last store also unlocks and returns the index. */
  function Step(s: State, a: Action): State
    requires Enabled(s, a)
  {
    var l, issued := s.threads[a.t], s.table.issued;
    match a
    case Test(t, ref) =>
      if Index(s.table, ref) == 0 then s.(threads := s.threads[t := SawEmpty(ref)])
      else s.(answers := s.answers + [Answer(ref, Index(s.table, ref))])
    case Take(t) =>
      s.(table := s.table.(issued := issued + [0]), lock := Some(t),
         threads := s.threads[t := Taken(l.ref, |issued|)], given := s.given + [l.ref])
    case StoreForward(t) =>
      s.(table := s.table.(rib := s.table.rib[l.ref := l.index]), threads := s.threads[t := Stored(l.ref, l.index)])
    case StoreInverse(t) =>
      s.(table := s.table.(issued := issued[l.index := l.ref]), lock := None, threads := s.threads[t := Ready],
         answers := s.answers + [Answer(l.ref, l.index)])
  }

  ghost predicate Leads(s: State, steps: seq<Action>, s': State)
    decreases |steps|
  {
    if steps == [] then s' == s
    else
      var n := |steps| - 1;
      exists mid :: Leads(s, steps[..n], mid) && Enabled(mid, steps[n]) && s' == Step(mid, steps[n])
  }

  function Issued(xs: seq<nat>, ref: nat): (n: nat)
    ensures n <= |xs|
  {
    if xs == [] then 0 else Issued(xs[..|xs| - 1], ref) + if xs[|xs| - 1] == ref then 1 else 0
  }

  /** On the way to an index for this prefix: the test found no entry, and none has been stored since by this thread. */
  predicate Seeks(l: Looker, ref: nat) {
    (l.SawEmpty? || l.Taken?) && l.ref == ref
  }

  function Seekers(ts: seq<Looker>, ref: nat): (n: nat)
    ensures n <= |ts|
  {
    if ts == [] then 0 else Seekers(ts[1..], ref) + if Seeks(ts[0], ref) then 1 else 0
  }

  function FirstBonus(given: seq<nat>, ref: nat): nat {
    if given != [] && given[0] == ref then 1 else 0
  }

  // ---------------------------------------------------------------- invariants

  predicate InLock(l: Looker) { l.Taken? || l.Stored? }

  /** Only the holder of the lock has an index in hand, and it is the newest. */
  ghost predicate LockKept(s: State) {
    && |s.given| == |s.table.issued|
    && (s.lock.Some? ==> s.lock.value < |s.threads|)
    && forall t: nat | t < |s.threads| ::
         && (InLock(s.threads[t]) <==> s.lock == Some(t))
         && (InLock(s.threads[t]) ==>
               s.threads[t].index + 1 == |s.given| && s.given[s.threads[t].index] == s.threads[t].ref)
         && (s.threads[t].Stored? ==> Index(s.table, s.threads[t].ref) == s.threads[t].index)
         && (!s.threads[t].Ready? ==> s.threads[t].ref > 0)
  }

  /** The index whose inverse entry is still missing, if any. */
  function Missing(s: State): Option<nat> {
    if s.lock.Some? && s.lock.value < |s.threads| && InLock(s.threads[s.lock.value])
    then Some(s.threads[s.lock.value].index) else None
  }

  ghost predicate InverseKept(s: State) {
    && |s.given| == |s.table.issued|
    && forall k: nat | k < |s.given| ::
         s.given[k] > 0 && s.table.issued[k] == if Missing(s) == Some(k) then 0 else s.given[k]
  }

  /** Forward entries and answers carry indices taken for their own prefix. */
  ghost predicate NamesKept(s: State) {
    && (forall ref: nat | Index(s.table, ref) != 0 ::
          Index(s.table, ref) < |s.given| && s.given[Index(s.table, ref)] == ref)
    && (forall a <- s.answers :: a.index < |s.given| && s.given[a.index] == a.ref)
  }

  /** Nobody else has seen the index of a thread that has not stored it forward. */
  ghost predicate TakenIsPrivate(s: State) {
    forall t: nat | t < |s.threads| && s.threads[t].Taken? ::
      && (forall a <- s.answers :: a.index != s.threads[t].index)
      && (forall ref: nat :: Index(s.table, ref) != 0 ==> Index(s.table, ref) != s.threads[t].index)
  }

  predicate HolderSeeks(s: State, ref: nat) {
    s.lock.Some? && s.lock.value < |s.threads| && s.threads[s.lock.value].Taken? && s.threads[s.lock.value].ref == ref
  }

  function Holding(s: State, ref: nat): nat { if HolderSeeks(s, ref) then 1 else 0 }

  /**
   Indices taken for a prefix, with those still to be taken, are bounded by the threads and
   the index 0 that reads as empty.
   */
  ghost predicate FewIndices(s: State, ref: nat) {
    && Issued(s.given, ref) + Seekers(s.threads, ref) <= |s.threads| + FirstBonus(s.given, ref) + Holding(s, ref)
    && (Index(s.table, ref) == 0 ==> Issued(s.given, ref) <= FirstBonus(s.given, ref) + Holding(s, ref))
  }

  ghost predicate Inv(s: State) {
    LockKept(s) && InverseKept(s) && NamesKept(s) && TakenIsPrivate(s) && forall ref: nat :: FewIndices(s, ref)
  }

  // ---------------------------------------------------------------- every step keeps them

  lemma {:induction false} SeekersUpdate(ts: seq<Looker>, t: nat, l: Looker, ref: nat)
    requires t < |ts|
    ensures Seekers(ts[t := l], ref) + (if Seeks(ts[t], ref) then 1 else 0) ==
            Seekers(ts, ref) + if Seeks(l, ref) then 1 else 0
  {
    if t == 0 {
      assert ts[t := l][1..] == ts[1..];
    } else {
      SeekersUpdate(ts[1..], t - 1, l, ref);
      assert ts[t := l][1..] == ts[1..][t - 1 := l];
    }
  }

  lemma {:induction false} NobodySeeks(ts: seq<Looker>, ref: nat)
    requires forall t | 0 <= t < |ts| :: ts[t].Ready?
    ensures Seekers(ts, ref) == 0
  {
    if ts != [] { NobodySeeks(ts[1..], ref); }
  }

  lemma {:induction false} SeekerCounts(ts: seq<Looker>, t: nat, ref: nat)
    requires t < |ts| && Seeks(ts[t], ref)
    ensures Seekers(ts, ref) > 0
  {
    if t > 0 { SeekerCounts(ts[1..], t - 1, ref); }
  }

  lemma LockStep(s: State, a: Action)
    requires LockKept(s) && InverseKept(s) && Enabled(s, a)
    ensures LockKept(Step(s, a)) && InverseKept(Step(s, a))
  {
  }

  lemma NamesStep(s: State, a: Action)
    requires LockKept(s) && NamesKept(s) && Enabled(s, a)
    ensures NamesKept(Step(s, a))
  {
    var s' := Step(s, a);
    forall ref: nat | Index(s'.table, ref) != 0
      ensures Index(s'.table, ref) < |s'.given| && s'.given[Index(s'.table, ref)] == ref
    {
      assert (a.StoreForward? && ref == s.threads[a.t].ref) || Index(s'.table, ref) == Index(s.table, ref);
    }
    forall x <- s'.answers ensures x.index < |s'.given| && s'.given[x.index] == x.ref {
      assert x in s.answers || x == s'.answers[|s.answers|];
    }
  }

  lemma PrivateStep(s: State, a: Action)
    requires LockKept(s) && NamesKept(s) && TakenIsPrivate(s) && Enabled(s, a)
    ensures TakenIsPrivate(Step(s, a))
  {
    var s' := Step(s, a);
    forall t: nat | t < |s'.threads| && s'.threads[t].Taken?
      ensures forall x <- s'.answers :: x.index != s'.threads[t].index
      ensures forall ref: nat :: Index(s'.table, ref) != 0 ==> Index(s'.table, ref) != s'.threads[t].index
    {
      assert a.Test? || a.Take?;
      forall x <- s'.answers ensures x.index != s'.threads[t].index {
        assert x in s.answers || x == s'.answers[|s.answers|];
      }
      forall ref: nat | Index(s'.table, ref) != 0 ensures Index(s'.table, ref) != s'.threads[t].index {
        assert Index(s'.table, ref) == Index(s.table, ref) < |s.given|;
      }
    }
  }

  lemma IssuedSnoc(xs: seq<nat>, x: nat, ref: nat)
    ensures Issued(xs + [x], ref) == Issued(xs, ref) + if x == ref then 1 else 0
  {
    assert (xs + [x])[..|xs|] == xs;
  }

  lemma FewIndicesStep(s: State, a: Action, ref: nat)
    requires LockKept(s) && FewIndices(s, ref) && Enabled(s, a)
    ensures FewIndices(Step(s, a), ref)
  {
    var s' := Step(s, a);
    if s'.threads != s.threads {
      assert s'.threads == s.threads[a.t := s'.threads[a.t]];
      SeekersUpdate(s.threads, a.t, s'.threads[a.t], ref);
    }
    if a.Take? {
      IssuedSnoc(s.given, s.threads[a.t].ref, ref);
    }
  }

  lemma {:induction false} RunInv(threads: nat, steps: seq<Action>, s: State)
    requires Leads(Init(threads), steps, s)
    ensures Inv(s) && |s.threads| == threads
    decreases |steps|
  {
    if steps == [] {
      forall ref: nat ensures FewIndices(s, ref) {
        NobodySeeks(s.threads, ref);
      }
    } else {
      var n := |steps| - 1;
      var mid: State :| Leads(Init(threads), steps[..n], mid) && Enabled(mid, steps[n]) && s == Step(mid, steps[n]);
      RunInv(threads, steps[..n], mid);
      LockStep(mid, steps[n]);
      NamesStep(mid, steps[n]);
      PrivateStep(mid, steps[n]);
      forall ref: nat ensures FewIndices(s, ref) {
        FewIndicesStep(mid, steps[n], ref);
      }
    }
  }

  // ---------------------------------------------------------------- safety

  /** Is this thread between its two stores for this index? */
  ghost predicate BetweenStores(s: State, ref: nat, index: nat) {
    s.lock.Some? && s.lock.value < |s.threads| && s.threads[s.lock.value] == Stored(ref, index)
  }

  /**
   Two prefixes never share an index, in any state of any interleaving; a prefix takes at
   most one index per thread, and one more if it was the first.
   */
  lemma RaceSafety(threads: nat, steps: seq<Action>, s: State)
    requires Leads(Init(threads), steps, s)
    ensures forall a <- s.answers, b <- s.answers :: a.index == b.index ==> a.ref == b.ref
    ensures forall a <- s.answers, ref: nat | Index(s.table, ref) != 0 :: Index(s.table, ref) == a.index ==>
            ref == a.ref
    ensures forall ref: nat, ref': nat | Index(s.table, ref) != 0 :: Index(s.table, ref) == Index(s.table, ref') ==>
            ref == ref'
    ensures forall ref: nat :: Issued(s.given, ref) <= threads + FirstBonus(s.given, ref)
  {
    RunInv(threads, steps, s);
    forall ref: nat ensures Issued(s.given, ref) <= threads + FirstBonus(s.given, ref) {
      assert FewIndices(s, ref);
      if HolderSeeks(s, ref) { SeekerCounts(s.threads, s.lock.value, ref); }
    }
  }

  /**
   An answer has an inverse entry that names its prefix, or none yet; it has none exactly
   while the holder of the lock is between its two stores for that very index.
   */
  lemma AnswerNamesPrefixExactly(threads: nat, steps: seq<Action>, s: State, a: Answer)
    requires Leads(Init(threads), steps, s) && a in s.answers
    ensures a.index < |s.table.issued| && a.ref > 0
    ensures s.table.issued[a.index] == if BetweenStores(s, a.ref, a.index) then 0 else a.ref
  {
    RunInv(threads, steps, s);
    assert s.given[a.index] > 0;
    if Missing(s) == Some(a.index) {
      assert !s.threads[s.lock.value].Taken?;
    }
  }

  /**
   Every inverse entry is there, except the newest one while the lock is held; so with the
   lock free both tables agree.
   */
  lemma FreeLockMeansInverse(threads: nat, steps: seq<Action>, s: State)
    requires Leads(Init(threads), steps, s)
    ensures |s.given| == |s.table.issued|
    ensures forall k: nat | k < |s.given| ::
              s.table.issued[k] == s.given[k] || (s.table.issued[k] == 0 && s.lock.Some? && k + 1 == |s.given|)
    ensures s.lock.None? ==>
              && s.table.issued == s.given
              && (forall a <- s.answers :: a.index < |s.table.issued| && s.table.issued[a.index] == a.ref)
              && (forall ref: nat | Index(s.table, ref) != 0 ::
                    Index(s.table, ref) < |s.table.issued| && s.table.issued[Index(s.table, ref)] == ref)
  {
    RunInv(threads, steps, s);
    if s.lock.Some? {
      assert InLock(s.threads[s.lock.value]);
    }
  }

  // ---------------------------------------------------------------- witnesses

  lemma Extend(threads: nat, steps: seq<Action>, s: State, a: Action) returns (steps': seq<Action>, s': State)
    requires Leads(Init(threads), steps, s) && Enabled(s, a)
    ensures s' == Step(s, a) && Leads(Init(threads), steps', s')
  {
    steps', s' := steps + [a], Step(s, a);
    assert steps'[..|steps|] == steps;
  }

  function Inserted(s: State, t: nat, ref: nat): State
    requires t < |s.threads|
  {
    State(Insert(s.table, ref), None, s.threads[t := Ready],
          s.answers + [Answer(ref, |s.table.issued|)], s.given + [ref])
  }

  /** A thread that saw no entry runs through the locked region alone. */
  lemma InsertAlone(threads: nat, steps: seq<Action>, s: State, t: nat) returns (steps': seq<Action>, s': State)
    requires Leads(Init(threads), steps, s) && s.lock.None? && t < |s.threads| && s.threads[t].SawEmpty?
    ensures Leads(Init(threads), steps', s') && s' == Inserted(s, t, s.threads[t].ref)
  {
    var ref, mid := s.threads[t].ref, s;
    steps', mid := Extend(threads, steps, s, Take(t));
    steps', mid := Extend(threads, steps', mid, StoreForward(t));
    steps', s' := Extend(threads, steps', mid, StoreInverse(t));
    assert s'.table.issued == s.table.issued + [ref];
    assert s'.threads == s.threads[t := Ready];
  }

  /** One thread looks up `first`. */
  lemma LookUpFirst(threads: nat, first: nat) returns (steps: seq<Action>, s: State)
    requires 0 < threads && first > 0
    ensures Leads(Init(threads), steps, s) && s.table == Insert(EMPTY, first) && s.given == [first] && s.lock.None?
    ensures s.threads == Init(threads).threads
  {
    s := Init(threads);
    steps, s := Extend(threads, [], s, Test(0, first));
    steps, s := InsertAlone(threads, steps, s, 0);
    assert s.threads == Init(threads).threads;
  }

  /** Then every thread sees `ref` absent before any of them inserts it. */
  lemma {:induction false} AllSeeItAbsent(threads: nat, k: nat, first: nat, ref: nat)
    returns (steps: seq<Action>, s: State)
    requires k <= threads && 0 < threads && first > 0 && ref > 0
    ensures Leads(Init(threads), steps, s) && s.table == Insert(EMPTY, first) && s.given == [first] && s.lock.None?
    ensures |s.threads| == threads
    ensures forall t | 0 <= t < threads :: s.threads[t] == if t < k then SawEmpty(ref) else Ready
  {
    if k == 0 {
      steps, s := LookUpFirst(threads, first);
    } else {
      steps, s := AllSeeItAbsent(threads, k - 1, first, ref);
      steps, s := Extend(threads, steps, s, Test(k - 1, ref));
    }
  }

  lemma {:induction false} AllInsertIt(threads: nat, k: nat, first: nat, ref: nat)
    returns (steps: seq<Action>, s: State)
    requires k <= threads && 0 < threads && first > 0 && ref > 0
    ensures Leads(Init(threads), steps, s) && s.lock.None? && |s.threads| == threads
    ensures s.given != [] && s.given[0] == first
    ensures Issued(s.given, ref) == k + if first == ref then 1 else 0
    ensures forall t | 0 <= t < threads :: s.threads[t] == if t < k then Ready else SawEmpty(ref)
  {
    if k == 0 {
      steps, s := AllSeeItAbsent(threads, threads, first, ref);
      IssuedSnoc([], first, ref);
      assert [] + [first] == [first];
    } else {
      steps, s := AllInsertIt(threads, k - 1, first, ref);
      IssuedSnoc(s.given, ref, ref);
      steps, s := InsertAlone(threads, steps, s, k - 1);
    }
  }

  /** The bound of `RaceSafety` is reached, for the first prefix and for every other. */
  lemma RaceBoundReached(threads: nat, first: nat, ref: nat) returns (steps: seq<Action>, s: State)
    requires 0 < threads && first > 0 && ref > 0
    ensures Leads(Init(threads), steps, s) && Issued(s.given, ref) == threads + FirstBonus(s.given, ref)
    ensures FirstBonus(s.given, ref) == if first == ref then 1 else 0
  {
    steps, s := AllInsertIt(threads, threads, first, ref);
  }

  /** The window: one of two threads is answered with an index whose inverse entry is still zero. */
  lemma WindowReached(first: nat, ref: nat) returns (steps: seq<Action>, s: State, a: Answer)
    requires first > 0 && ref > 0 && first != ref
    ensures Leads(Init(2), steps, s) && a in s.answers && a.ref == ref
    ensures a.index < |s.table.issued| && s.table.issued[a.index] == 0
  {
    steps, s := LookUpFirst(2, first);
    steps, s := Extend(2, steps, s, Test(0, ref));
    steps, s := Extend(2, steps, s, Take(0));
    steps, s := Extend(2, steps, s, StoreForward(0));
    steps, s := Extend(2, steps, s, Test(1, ref));
    a := s.answers[|s.answers| - 1];
  }

  // ---------------------------------------------------------------- every lookup is answered

  /** How often a prefix has been answered. */
  function Answered(answers: seq<Answer>, ref: nat): nat {
    if answers == [] then 0
    else Answered(answers[..|answers| - 1], ref) + if answers[|answers| - 1].ref == ref then 1 else 0
  }

  predicate WorksOn(l: Looker, ref: nat) { !l.Ready? && l.ref == ref }

  /** How many threads are between the test for a prefix and its answer. */
  function Working(ts: seq<Looker>, ref: nat): nat {
    if ts == [] then 0 else Working(ts[1..], ref) + if WorksOn(ts[0], ref) then 1 else 0
  }

  /** How often a prefix has been looked up. */
  function Lookups(steps: seq<Action>, ref: nat): nat {
    if steps == [] then 0
    else
      var a := steps[|steps| - 1];
      Lookups(steps[..|steps| - 1], ref) + if a.Test? && a.ref == ref then 1 else 0
  }

  lemma {:induction false} WorkingUpdate(ts: seq<Looker>, t: nat, l: Looker, ref: nat)
    requires t < |ts|
    ensures Working(ts[t := l], ref) + (if WorksOn(ts[t], ref) then 1 else 0) ==
            Working(ts, ref) + if WorksOn(l, ref) then 1 else 0
  {
    if t == 0 {
      assert ts[t := l][1..] == ts[1..];
    } else {
      WorkingUpdate(ts[1..], t - 1, l, ref);
      assert ts[t := l][1..] == ts[1..][t - 1 := l];
    }
  }

  lemma {:induction false} NobodyWorks(ts: seq<Looker>, ref: nat)
    requires forall t | 0 <= t < |ts| :: ts[t].Ready?
    ensures Working(ts, ref) == 0
  {
    if ts != [] { NobodyWorks(ts[1..], ref); }
  }

  lemma AnsweredSnoc(answers: seq<Answer>, a: Answer, ref: nat)
    ensures Answered(answers + [a], ref) == Answered(answers, ref) + if a.ref == ref then 1 else 0
  {
    assert (answers + [a])[..|answers|] == answers;
  }

  lemma AnsweredStep(s: State, a: Action, ref: nat)
    requires Enabled(s, a)
    ensures Answered(Step(s, a).answers, ref) + Working(Step(s, a).threads, ref) ==
            Answered(s.answers, ref) + Working(s.threads, ref) + if a.Test? && a.ref == ref then 1 else 0
  {
    var s' := Step(s, a);
    assert s'.threads == s.threads[a.t := s'.threads[a.t]];
    WorkingUpdate(s.threads, a.t, s'.threads[a.t], ref);
    if s'.answers != s.answers { AnsweredSnoc(s.answers, s'.answers[|s.answers|], ref); }
  }

  /** In every interleaving each prefix has been answered as often as it was looked up, less the threads still at it. */
  lemma {:induction false} LookupsAreAnswered(threads: nat, steps: seq<Action>, s: State, ref: nat)
    requires Leads(Init(threads), steps, s)
    ensures Answered(s.answers, ref) + Working(s.threads, ref) == Lookups(steps, ref)
    decreases |steps|
  {
    if steps == [] {
      NobodyWorks(s.threads, ref);
    } else {
      var n := |steps| - 1;
      var mid: State :| Leads(Init(threads), steps[..n], mid) && Enabled(mid, steps[n]) && s == Step(mid, steps[n]);
      LookupsAreAnswered(threads, steps[..n], mid, ref);
      AnsweredStep(mid, steps[n], ref);
    }
  }
}
