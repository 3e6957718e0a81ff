/**
 Both pools under concurrent allocation. A thread looks at its own free list first; if the
 list is empty it takes the next index of the shared pool in a second, atomic step, and
 other threads may allocate, free and write in between.
 */
module PoolRace {
  import opened Basics
  import opened Pools
  import opened Allocator

  /** Between calls, or the thread's own list of that size was empty and the pool's index is to be advanced. */
  datatype Pc = Ready | FoundEmpty(big: bool)

  /** Failures: an assertion; the small blocks have reached the large pool; a block has no list of its own size. */
  datatype Fault = NoFault | Asserted | Met | Stray

  /** A pool, and the list every thread has for its blocks. */
  datatype Half = Half(pool: Pool, lines: seq<Line>, books: Books)

  /** `taken` are the blocks handed out so far, in order. */
  datatype State = State(small: Half, large: Half, memory: Memory, threads: seq<Pc>, taken: seq<nat>, fault: Fault)

  datatype Action =
    | Look(t: nat, size: nat)            // takes the top of the own list for that size, if there is one
    | Bump(t: nat)                       // the atomic increment
    | Give(t: nat, p: nat)               // frees a block to the own list that its address calls for
    | Write(p: nat, contents: Memory)    // the owner of a block writes it

  function NewHalf(buf: nat, indexMax: nat, allocMax: nat, threads: nat): Half {
    Half(Pool(buf, 0, indexMax, allocMax), seq(threads, _ => Line(NULL, 0)), Books([], seq(threads, _ => [])))
  }

  function Init(slab: nat, large: nat, smallMax: nat, largeMax: nat, threads: nat): State {
    State(NewHalf(slab, smallMax, SMALL, threads), NewHalf(large, largeMax, LARGE, threads), map[],
          seq(threads, _ => Ready), [], NoFault)
  }

  function Of(s: State, big: bool): Half {
    if big then s.large else s.small
  }

  function With(s: State, big: bool, h: Half): State {
    if big then s.(large := h) else s.(small := h)
  }

  predicate IsLarge(s: State, p: nat) {
    p >= s.large.pool.buf
  }

  ghost function Live(h: Half): set<nat> {
    LiveBlocks(h.pool, h.books.places)
  }

  ghost function InUse(s: State): set<nat> {
    Live(s.small) + Live(s.large)
  }

  /** Can the top of a thread's list be read? */
  predicate Readable(h: Half, t: nat) {
    && t < |h.lines| && t < |h.books.lists|
    && (h.lines[t].free != NULL ==>
          && h.lines[t].freeCount > 0 && |h.books.lists[t]| > 0
          && h.books.lists[t][|h.books.lists[t]| - 1] < |h.books.places|)
  }

  function Popped(h: Half, t: nat, memory: Memory): Half
    requires Readable(h, t) && h.lines[t].free != NULL
  {
    Half(h.pool, h.lines[t := Rest(h.lines[t], memory)], Reuse(h.books, t))
  }

  function Bumped(h: Half): Half {
    Half(h.pool.(index := h.pool.index + 1), h.lines, Issue(h.books))
  }

  ghost predicate Enabled(s: State, a: Action) {
    && s.fault == NoFault && (!a.Write? ==> a.t < |s.threads|)
    && match a
       case Look(t, size) => s.threads[t].Ready? && Readable(Of(s, size > SMALL), t)
       case Bump(t) => s.threads[t].FoundEmpty?
       case Give(t, p) =>
         var h := Of(s, IsLarge(s, p));
         s.threads[t].Ready? && p in InUse(s) && Readable(h, t) && h.lines[t].freeCount + 1 < 0x1_0000_0000
       case Write(p, contents) =>
         p in InUse(s) && forall a <- contents :: p < a + WORD && a < p + if IsLarge(s, p) then LARGE else SMALL
  }

  ghost function Step(s: State, a: Action): State
    requires Enabled(s, a)
  {
    match a
    case Look(t, size) =>
      var h := Of(s, size > SMALL);
      if size > LARGE then s.(fault := Asserted)
      else if h.lines[t].free == NULL then s.(threads := s.threads[t := FoundEmpty(size > SMALL)])
      else With(s, size > SMALL, Popped(h, t, s.memory)).(taken := s.taken + [h.lines[t].free])
    case Bump(t) =>
      var h := Of(s, s.threads[t].big);
      if h.pool.index >= h.pool.indexMax then s.(fault := Asserted)
      else if !s.threads[t].big && h.pool.buf + SMALL * (h.pool.index + 1) > s.large.pool.buf then s.(fault := Met)
      else With(s, s.threads[t].big, Bumped(h))
           .(threads := s.threads[t := Ready], taken := s.taken + [BlockAt(h.pool, h.pool.index)])
    case Give(t, p) =>
      var h := Of(s, IsLarge(s, p));
      if p !in Live(h) then s.(fault := Stray)
      else With(s, IsLarge(s, p), Half(h.pool, h.lines[t := Line(p, h.lines[t].freeCount + 1)],
                                       Return(h.books, t, IndexOf(h.pool, h.books, p))))
           .(memory := s.memory[p := h.lines[t].free])
    case Write(_, contents) => s.(memory := s.memory + contents)
  }

  ghost predicate Leads(s: State, steps: seq<Action>, s': State)
    decreases |steps|
  {
    if steps == [] then s' == s
    else
      var n := |steps| - 1;
      exists mid :: Leads(s, steps[..n], mid) && Enabled(mid, steps[n]) && s' == Step(mid, steps[n])
  }

  ghost predicate HalfOk(h: Half, memory: Memory, allocMax: nat, threads: nat) {
    PoolOk(h.pool, h.lines, memory, h.books) && h.pool.allocMax == allocMax && |h.lines| == threads
  }

  predicate Apart(s: State) {
    s.small.pool.buf + SMALL * s.small.pool.index <= s.large.pool.buf
  }

  /** A thread that found its list empty finds it so still. */
  ghost predicate FoundStays(s: State) {
    forall t: nat | t < |s.threads| && s.threads[t].FoundEmpty? ::
      t < |Of(s, s.threads[t].big).lines| && Of(s, s.threads[t].big).lines[t].free == NULL
  }

  /** Both books are in order, the pools apart, and a thread that found its list empty still finds it so. */
  ghost predicate Inv(s: State) {
    && HalfOk(s.small, s.memory, SMALL, |s.threads|) && HalfOk(s.large, s.memory, LARGE, |s.threads|)
    && Apart(s) && s.fault != Stray
    && FoundStays(s)
  }

  /** A block in use belongs to the pool its address tells. */
  lemma BySize(s: State, p: nat)
    requires Inv(s) && p in InUse(s)
    ensures p in Live(Of(s, IsLarge(s, p))) && p !in Live(Of(s, !IsLarge(s, p))) && p != NULL
  {
    SizesKnown(s.small.pool, s.small.books.places, s.large.pool, s.large.books.places, p);
  }

  lemma WriteInv(s: State, p: nat, contents: Memory)
    requires Inv(s) && Enabled(s, Write(p, contents))
    ensures HalfOk(s.small, s.memory + contents, SMALL, |s.threads|)
    ensures HalfOk(s.large, s.memory + contents, LARGE, |s.threads|)
  {
    BySize(s, p);
    var small, large := s.small, s.large;
    if IsLarge(s, p) {
      OwnWordsOnly(large.pool, large.lines, s.memory, large.books, p, contents);
      WritesAbove(small.pool, small.lines, s.memory, small.books, contents, large.pool.buf);
    } else {
      SizesKnown(small.pool, small.books.places, large.pool, large.books.places, p);
      OwnWordsOnly(small.pool, small.lines, s.memory, small.books, p, contents);
      WritesBelow(large.pool, large.lines, s.memory, large.books, contents);
    }
  }

  lemma GiveInv(s: State, t: nat, p: nat)
    requires Inv(s) && Enabled(s, Give(t, p))
    ensures Inv(Step(s, Give(t, p)))
  {
    BySize(s, p);
    var small, large, h := s.small, s.large, Of(s, IsLarge(s, p));
    ReturnKeeps(h.pool, h.lines, s.memory, h.books, t, IndexOf(h.pool, h.books, p));
    if IsLarge(s, p) {
      OneWordAbove(small.pool, small.lines, s.memory, small.books, p, h.lines[t].free, large.pool.buf);
    } else {
      OneWordBelow(large.pool, large.lines, s.memory, large.books, p, h.lines[t].free);
    }
  }

  /** Block p went into use, and the half stays in order. */
  ghost predicate Grew(h: Half, h': Half, memory: Memory, p: nat) {
    && PoolOk(h'.pool, h'.lines, memory, h'.books) && |h'.lines| == |h.lines|
    && h'.pool == h.pool.(index := h'.pool.index)
    && Live(h') == Live(h) + {p} && p !in Live(h)
  }

  lemma PopGrows(h: Half, memory: Memory, t: nat)
    requires PoolOk(h.pool, h.lines, memory, h.books) && Readable(h, t) && h.lines[t].free != NULL
    ensures Grew(h, Popped(h, t, memory), memory, h.lines[t].free)
    ensures forall d: nat | d < |h.lines| && h.lines[d].free == NULL :: Popped(h, t, memory).lines[d].free == NULL
  {
    ReuseKeeps(h.pool, h.lines, memory, h.books, t);
  }

  lemma BumpGrows(h: Half, memory: Memory, t: nat)
    requires PoolOk(h.pool, h.lines, memory, h.books) && t < |h.lines| && h.lines[t].free == NULL
    requires h.pool.index < h.pool.indexMax
    ensures Grew(h, Bumped(h), memory, BlockAt(h.pool, h.pool.index))
  {
    IssueKeeps(h.pool, h.lines, memory, h.books, t);
  }

  /** Which half a look or an increment is about. */
  function Big(s: State, a: Action): bool
    requires a.Look? || (a.Bump? && a.t < |s.threads| && s.threads[a.t].FoundEmpty?)
  {
    if a.Look? then a.size > SMALL else s.threads[a.t].big
  }

  /** Nothing was taken, or one block of the size asked for; the other half stays. */
  ghost predicate TookOne(s: State, s': State, big: bool) {
    && Of(s', !big) == Of(s, !big) && s'.memory == s.memory && |s'.threads| == |s.threads|
    && if s'.taken == s.taken then Of(s', big) == Of(s, big)
       else |s'.taken| == |s.taken| + 1 && Grew(Of(s, big), Of(s', big), s.memory, s'.taken[|s.taken|])
  }

  lemma LookGrows(s: State, t: nat, size: nat)
    requires Inv(s) && Enabled(s, Look(t, size))
    ensures TookOne(s, Step(s, Look(t, size)), size > SMALL)
  {
    var h := Of(s, size > SMALL);
    if h.lines[t].free != NULL { PopGrows(h, s.memory, t); }
  }

  lemma BumpsGrow(s: State, t: nat)
    requires Inv(s) && Enabled(s, Bump(t))
    ensures TookOne(s, Step(s, Bump(t)), s.threads[t].big)
  {
    var h := Of(s, s.threads[t].big);
    if h.pool.index < h.pool.indexMax { BumpGrows(h, s.memory, t); }
  }

  /** A look or an increment fails, finds the list empty, or takes one block of the size asked for. */
  lemma TakeGrows(s: State, a: Action)
    requires Inv(s) && Enabled(s, a) && (a.Look? || a.Bump?)
    ensures TookOne(s, Step(s, a), Big(s, a))
  {
    if a.Look? { LookGrows(s, a.t, a.size); } else { BumpsGrow(s, a.t); }
  }

  lemma LookStays(s: State, t: nat, size: nat)
    requires Inv(s) && Enabled(s, Look(t, size))
    ensures var s' := Step(s, Look(t, size)); FoundStays(s') && Apart(s') && s'.fault != Stray
  {
    var big := size > SMALL;
    var h, s' := Of(s, big), Step(s, Look(t, size));
    if h.lines[t].free != NULL && size <= LARGE {
      PopGrows(h, s.memory, t);
      forall d: nat | d < |s'.threads| && s'.threads[d].FoundEmpty?
        ensures d < |Of(s', s'.threads[d].big).lines| && Of(s', s'.threads[d].big).lines[d].free == NULL
      {
        assert s.threads[d].FoundEmpty? && Of(s, s.threads[d].big).lines[d].free == NULL;
      }
    }
  }

  lemma BumpStays(s: State, t: nat)
    requires Inv(s) && Enabled(s, Bump(t))
    ensures var s' := Step(s, Bump(t)); FoundStays(s') && Apart(s') && s'.fault != Stray
  {
  }

  lemma TakeInv(s: State, a: Action)
    requires Inv(s) && Enabled(s, a) && (a.Look? || a.Bump?)
    ensures Inv(Step(s, a))
  {
    TakeGrows(s, a);
    if a.Look? { LookStays(s, a.t, a.size); } else { BumpStays(s, a.t); }
  }

  lemma StepInv(s: State, a: Action)
    requires Inv(s) && Enabled(s, a)
    ensures Inv(Step(s, a))
  {
    match a {
      case Look(_, _) => TakeInv(s, a);
      case Bump(_) => TakeInv(s, a);
      case Give(t, p) => GiveInv(s, t, p);
      case Write(p, contents) => WriteInv(s, p, contents);
    }
  }

  lemma InitInv(slab: nat, large: nat, smallMax: nat, largeMax: nat, threads: nat)
    requires 0 < slab <= large && smallMax < 0x8000_0000 && largeMax < 0x8000_0000
    ensures Inv(Init(slab, large, smallMax, largeMax, threads))
  {
    NothingFree(seq(threads, _ => []));
  }

  /** In every interleaving the books stay in order. */
  lemma {:induction false} RunInv(s0: State, steps: seq<Action>, s: State)
    requires Inv(s0) && Leads(s0, steps, s)
    ensures Inv(s)
    decreases |steps|
  {
    if steps != [] {
      var n := |steps| - 1;
      var mid: State :| Leads(s0, steps[..n], mid) && Enabled(mid, steps[n]) && s == Step(mid, steps[n]);
      RunInv(s0, steps[..n], mid);
      StepInv(mid, steps[n]);
    }
  }

  /** Only a failure ever stops a thread: it can look, advance the index it came for, and free any block in use. */
  lemma NobodyIsStopped(s0: State, steps: seq<Action>, s: State, t: nat)
    requires Inv(s0) && Leads(s0, steps, s) && s.fault == NoFault && t < |s.threads|
    ensures s.threads[t].FoundEmpty? ==> Enabled(s, Bump(t))
    ensures s.threads[t].Ready? ==> forall size: nat :: Enabled(s, Look(t, size))
    ensures s.threads[t].Ready? ==> forall p <- InUse(s) :: Enabled(s, Give(t, p))
  {
    RunInv(s0, steps, s);
    CanRead(s.small, s.memory, t);
    CanRead(s.large, s.memory, t);
    forall p <- InUse(s) ensures Of(s, IsLarge(s, p)).lines[t].freeCount + 1 < 0x1_0000_0000 {
      BySize(s, p);
      var h := Of(s, IsLarge(s, p));
      ReturnKeeps(h.pool, h.lines, s.memory, h.books, t, IndexOf(h.pool, h.books, p));
    }
  }

  lemma CanRead(h: Half, memory: Memory, t: nat)
    requires PoolOk(h.pool, h.lines, memory, h.books) && t < |h.lines|
    ensures Readable(h, t)
  {
    if h.lines[t].free != NULL { ReuseKeeps(h.pool, h.lines, memory, h.books, t); }
  }

  lemma TakenWasUnused(s: State, s': State, big: bool, p: nat)
    requires Inv(s') && Grew(Of(s, big), Of(s', big), s.memory, p) && Of(s', !big) == Of(s, !big)
    ensures p != NULL && p !in InUse(s) && InUse(s') == InUse(s) + {p} && (IsLarge(s', p) <==> big)
  {
    BySize(s', p);
  }

  /**
   In every interleaving, a step that hands out a block hands out one that nobody uses and
   that is of the size asked for, however long the thread waited between looking at its
   list and advancing the index.
   */
  lemma RaceSafety(s0: State, steps: seq<Action>, s: State, a: Action)
    requires Inv(s0) && Leads(s0, steps, s) && Enabled(s, a)
    ensures var s' := Step(s, a);
            |s'.taken| > |s.taken| ==>
              var p := s'.taken[|s.taken|];
              && (a.Look? || a.Bump?) && p != NULL && p !in InUse(s) && InUse(s') == InUse(s) + {p}
              && (IsLarge(s', p) <==> Big(s, a))
  {
    RunInv(s0, steps, s);
    if a.Look? || a.Bump? {
      TakeInv(s, a);
      TakeGrows(s, a);
      var s' := Step(s, a);
      if s'.taken != s.taken { TakenWasUnused(s, s', Big(s, a), s'.taken[|s.taken|]); }
    }
  }

  /**
   In every interleaving a block freed finds a list of its own size, and an assertion fails
   only on a size that is too large or a pool all of whose blocks were issued.
   */
  lemma RaceFailures(s0: State, steps: seq<Action>, s: State, a: Action)
    requires Inv(s0) && Leads(s0, steps, s) && Enabled(s, a)
    ensures Step(s, a).fault != Stray
    ensures Step(s, a).fault == Asserted <==>
              || (a.Look? && a.size > 4224)
              || (a.Bump? && Of(s, Big(s, a)).pool.index >= Of(s, Big(s, a)).pool.indexMax)
    ensures Step(s, a).fault == Met <==>
              && a.Bump? && !Big(s, a) && s.small.pool.index < s.small.pool.indexMax
              && s.large.pool.buf < BlockAt(s.small.pool, s.small.pool.index) + 256
  {
    RunInv(s0, steps, s);
    assert Step(s, a).fault != Stray by { StepInv(s, a); }
    assert s.small.pool.allocMax == SMALL;
  }

  /** In every interleaving no two blocks in use overlap, and the blocks issued are those in use and those free. */
  lemma RaceConservation(s0: State, steps: seq<Action>, s: State)
    requires Inv(s0) && Leads(s0, steps, s)
    ensures forall p <- InUse(s), q <- InUse(s) | p != q ::
              !Overlap(p, if IsLarge(s, p) then LARGE else SMALL, q, if IsLarge(s, q) then LARGE else SMALL)
    ensures forall big: bool ::
              Of(s, big).pool.index == |Live(Of(s, big))| + TotalFree(Of(s, big).books.lists)
  {
    RunInv(s0, steps, s);
    Conservation(s.small.pool, s.small.lines, s.memory, s.small.books);
    Conservation(s.large.pool, s.large.lines, s.memory, s.large.books);
    forall p <- InUse(s), q <- InUse(s) | p != q
      ensures !Overlap(p, if IsLarge(s, p) then LARGE else SMALL, q, if IsLarge(s, q) then LARGE else SMALL)
    {
      BySize(s, p);
      BySize(s, q);
      LiveApart(s.small.pool, s.small.books.places, s.large.pool, s.large.books.places, p, q);
      LiveApart(s.small.pool, s.small.books.places, s.large.pool, s.large.books.places, q, p);
    }
  }

  // ---------------------------------------------------------------- every request is served

  /** How many threads have found their list empty and not taken an index yet. */
  function Waiting(ts: seq<Pc>): nat {
    if ts == [] then 0 else Waiting(ts[1..]) + if ts[0].FoundEmpty? then 1 else 0
  }

  /** How many blocks have been asked for, and how many given back. */
  function Looks(steps: seq<Action>): nat {
    if steps == [] then 0 else Looks(steps[..|steps| - 1]) + if steps[|steps| - 1].Look? then 1 else 0
  }

  function Gives(steps: seq<Action>): nat {
    if steps == [] then 0 else Gives(steps[..|steps| - 1]) + if steps[|steps| - 1].Give? then 1 else 0
  }

  lemma {:induction false} WaitingUpdate(ts: seq<Pc>, t: nat, pc: Pc)
    requires t < |ts|
    ensures Waiting(ts[t := pc]) + (if ts[t].FoundEmpty? then 1 else 0) ==
            Waiting(ts) + if pc.FoundEmpty? then 1 else 0
  {
    if t == 0 {
      assert ts[t := pc][1..] == ts[1..];
    } else {
      WaitingUpdate(ts[1..], t - 1, pc);
      assert ts[t := pc][1..] == ts[1..][t - 1 := pc];
    }
  }

  lemma {:induction false} NobodyWaits(ts: seq<Pc>)
    requires forall t | 0 <= t < |ts| :: ts[t].Ready?
    ensures Waiting(ts) == 0
  {
    if ts != [] { NobodyWaits(ts[1..]); }
  }

  lemma ServedStep(s: State, a: Action)
    requires Enabled(s, a) && Step(s, a).fault == NoFault
    ensures |Step(s, a).taken| + Waiting(Step(s, a).threads) ==
            |s.taken| + Waiting(s.threads) + if a.Look? then 1 else 0
  {
    var s' := Step(s, a);
    if s'.threads != s.threads {
      assert s'.threads == s.threads[a.t := s'.threads[a.t]];
      WaitingUpdate(s.threads, a.t, s'.threads[a.t]);
    }
  }

  /** A block given back is in use no more, and no other changes. */
  lemma GiveReturns(s: State, t: nat, p: nat)
    requires Inv(s) && Enabled(s, Give(t, p))
    ensures InUse(Step(s, Give(t, p))) == InUse(s) - {p}
  {
    BySize(s, p);
    var h := Of(s, IsLarge(s, p));
    ReturnKeeps(h.pool, h.lines, s.memory, h.books, t, IndexOf(h.pool, h.books, p));
  }

  lemma TakeUses(s: State, a: Action)
    requires Inv(s) && Enabled(s, a) && (a.Look? || a.Bump?)
    ensures |InUse(Step(s, a))| + |s.taken| == |InUse(s)| + |Step(s, a).taken|
  {
    var s' := Step(s, a);
    assert Inv(s') by { TakeInv(s, a); }
    TakeGrows(s, a);
    if s'.taken == s.taken {
      assert Of(s', true) == Of(s, true) && Of(s', false) == Of(s, false);
    } else {
      TakenWasUnused(s, s', Big(s, a), s'.taken[|s.taken|]);
    }
  }

  lemma UseStep(s: State, a: Action)
    requires Inv(s) && Enabled(s, a)
    ensures |InUse(Step(s, a))| + |s.taken| + (if a.Give? then 1 else 0) == |InUse(s)| + |Step(s, a).taken|
  {
    match a {
      case Look(_, _) => TakeUses(s, a);
      case Bump(_) => TakeUses(s, a);
      case Give(t, p) => GiveReturns(s, t, p);
      case Write(_, _) =>
    }
  }

  /**
   In every interleaving every block asked for has been handed out, but for the threads about
   to take an index; and the blocks in use are those handed out less those given back.
   */
  lemma {:induction false} RaceServes(slab: nat, large: nat, smallMax: nat, largeMax: nat, threads: nat,
      steps: seq<Action>, s: State)
    requires 0 < slab <= large && smallMax < 0x8000_0000 && largeMax < 0x8000_0000
    requires Leads(Init(slab, large, smallMax, largeMax, threads), steps, s)
    ensures s.fault == NoFault ==> |s.taken| + Waiting(s.threads) == Looks(steps)
    ensures |InUse(s)| + Gives(steps) == |s.taken|
    decreases |steps|
  {
    var s0 := Init(slab, large, smallMax, largeMax, threads);
    InitInv(slab, large, smallMax, largeMax, threads);
    if steps == [] {
      NobodyWaits(s.threads);
      assert InUse(s) == {};
    } else {
      var n := |steps| - 1;
      var mid: State :| Leads(s0, steps[..n], mid) && Enabled(mid, steps[n]) && s == Step(mid, steps[n]);
      RaceServes(slab, large, smallMax, largeMax, threads, steps[..n], mid);
      RunInv(s0, steps[..n], mid);
      UseStep(mid, steps[n]);
      if s.fault == NoFault { ServedStep(mid, steps[n]); }
    }
  }
}
