/**
 Runs of blocks. The output phase compares heads as pointers, so a run holds the journalled
 addresses whose head is one block, whatever routes were read into it in turn.
 */
module BlockRuns {
  import opened Basics
  import opened Pools
  import opened Grouping
  import opened LocRib
  import opened World
  import OutputPhase

  /** Two journalled addresses are read with one route exactly if their heads are one block. */
  lemma ByBlock(w: World, size: nat, peers: nat, a: nat, b: nat)
    requires Inv(w, size, peers) && a in w.journal && b in w.journal
    ensures Entries(w)[a].head == Entries(w)[b].head <==> w.heads[a] == w.heads[b]
  {
    assert w.heads[a] in w.heads && w.heads[b] in w.heads;
    assert w.flags[a] && w.flags[b];
  }

  /** The head of the j-th journalled address. */
  ghost function HeadOf(w: World, j: nat): nat
    requires Readable(w) && j < |w.journal|
  {
    assert w.journal[j] in w.journal;
    w.heads[w.journal[j]]
  }

  /** From position i on, do more journalled addresses than the table has entries have one block as head? */
  ghost predicate Crowded(w: World, i: nat)
    requires Readable(w)
  {
    && i + OutputPhase.TABLE_SIZE < |w.journal|
    && forall j | i <= j <= i + OutputPhase.TABLE_SIZE :: HeadOf(w, j) == HeadOf(w, i)
  }

  lemma CrowdedRepeats(w: World, size: nat, peers: nat, i: nat)
    requires Inv(w, size, peers)
    ensures Crowded(w, i) <==> Repeats(Pending(w), i, OutputPhase.TABLE_SIZE)
  {
    var n := OutputPhase.TABLE_SIZE;
    if i + n < |w.journal| {
      forall j | i <= j <= i + n
        ensures Pending(w)[j].head == Pending(w)[i].head <==> HeadOf(w, j) == HeadOf(w, i)
      {
        ByBlock(w, size, peers, w.journal[j], w.journal[i]);
      }
    }
  }

  /**
   The output phase ends exactly if nowhere in the journal more addresses than the table has
   entries follow one another with one block as head.
   */
  lemma FlushEndsExactly(w: World, size: nat, peers: nat)
    requires Inv(w, size, peers) && !w.failed
    ensures Enabled(w, Flush)
    ensures Next(w, Flush).failed <==> exists i: nat :: Crowded(w, i)
  {
    FitsExactly(Pending(w), OutputPhase.TABLE_SIZE);
    forall i: nat ensures Crowded(w, i) <==> Repeats(Pending(w), i, OutputPhase.TABLE_SIZE) {
      CrowdedRepeats(w, size, peers, i);
    }
  }

  // ---------------------------------------------------------------- a guard that keeps runs short

  /** The journalled addresses whose head is this block. */
  ghost function Waiting(w: World, p: nat): set<nat>
    requires Readable(w)
  {
    set a: nat | a < |w.heads| && w.heads[a] == p && w.flags[a]
  }

  /** Every block waits at no more addresses than it was put into slots since it was filled. */
  ghost predicate FewWaiting(w: World) {
    Readable(w) && forall p: nat | p != NULL :: |Waiting(w, p)| <= Puts(w, p)
  }

  /** A block read into is the head of no address whose flag is set. */
  ghost predicate NotWaiting(w: World, s: Step) {
    s.Fill? && s.block != NULL && Readable(w) ==> Waiting(w, s.block) == {}
  }

  lemma {:induction false} DistinctFit(xs: seq<nat>, s: set<nat>)
    requires Distinct(xs) && forall x <- xs :: x in s
    ensures |xs| <= |s|
    decreases |xs|
  {
    if xs != [] {
      var n := |xs| - 1;
      assert xs[n] in xs;
      forall x <- xs[..n] ensures x in s - {xs[n]} {}
      DistinctFit(xs[..n], s - {xs[n]});
    }
  }

  lemma PutWaiting(w: World, size: nat, peers: nat, s: Step, p: nat)
    requires Inv(w, size, peers) && Enabled(w, s) && s.Put? && p != NULL
    ensures Readable(Next(w, s))
    ensures |Waiting(Next(w, s), p)| <= |Waiting(w, p)| + if p == s.block then 1 else 0
  {
    PutJournal(w, size, peers, s);
    Subset(Waiting(Next(w, s), p), Waiting(w, p) + if p == s.block then {s.index} else {});
  }

  lemma WaitingStep(w: World, size: nat, peers: nat, s: Step, p: nat)
    requires Inv(w, size, peers) && Enabled(w, s) && NotWaiting(w, s) && p != NULL && |Waiting(w, p)| <= Puts(w, p)
    ensures Readable(Next(w, s)) && |Waiting(Next(w, s), p)| <= Puts(Next(w, s), p)
  {
    var next := Next(w, s);
    match s
    case Fill(_, block, _) =>
      assert Waiting(next, p) == Waiting(w, p);
    case Put(_, _, _, _) =>
      PutWaiting(w, size, peers, s, p);
    case Flush =>
      Subset(Waiting(next, p), Waiting(w, p));
  }

  lemma FewWaitingStep(w: World, size: nat, peers: nat, s: Step)
    requires Inv(w, size, peers) && Enabled(w, s) && NotWaiting(w, s) && FewWaiting(w)
    ensures FewWaiting(Next(w, s))
  {
    assert Readable(Next(w, s)) by { StepInv(w, size, peers, s); }
    forall p: nat | p != NULL ensures |Waiting(Next(w, s), p)| <= Puts(Next(w, s), p) {
      assert |Waiting(w, p)| <= Puts(w, p);
      WaitingStep(w, size, peers, s, p);
    }
  }

  lemma CrowdWaits(w: World, i: nat)
    requires JournalOk(w) && Crowded(w, i)
    ensures HeadOf(w, i) != NULL && OutputPhase.TABLE_SIZE < |Waiting(w, HeadOf(w, i))|
  {
    var n, p := OutputPhase.TABLE_SIZE, HeadOf(w, i);
    var crowd := w.journal[i..i + n + 1];
    forall a <- crowd ensures a in Waiting(w, p) {
      var j: nat :| j <= n && crowd[j] == a;
      assert w.journal[i + j] == a && w.journal[i + j] in w.journal && HeadOf(w, i + j) == p;
    }
    DistinctFit(crowd, Waiting(w, p));
    assert w.journal[i] in w.journal;
  }

  /** No more addresses wait for one block than a message has prefixes, and so every run fits. */
  lemma FewWaitingFit(w: World, size: nat, peers: nat)
    requires Inv(w, size, peers) && FewWaiting(w) && !w.failed
    ensures Enabled(w, Flush) && !Next(w, Flush).failed
  {
    FlushEndsExactly(w, size, peers);
    if i: nat :| Crowded(w, i) {
      CrowdWaits(w, i);
    }
  }
}
