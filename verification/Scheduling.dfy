/** Who calls the output phase: the threads that force it, and each push of an address that came with the mark. */
module Scheduling {
  import opened Basics
  import opened Pipeline
  import opened PipelineSafety

  /** The latest request of a thread. */
  function LatestRequest(steps: seq<Action>, t: nat): (r: Option<Action>)
    ensures r.Some? ==> r.value.Request? && r.value.t == t
  {
    if steps == [] then None
    else
      var a := steps[|steps| - 1];
      if a.Request? && a.t == t then Some(a) else LatestRequest(steps[..|steps| - 1], t)
  }

  /** Does the thread push here the address of a request that carried the end-of-block mark? */
  predicate MarkedPush(before: seq<Action>, a: Action, t: nat) {
    a == Push(t) && LatestRequest(before, t).Some? && LatestRequest(before, t).value.eob
  }

  function MarkedPushes(steps: seq<Action>, t: nat): nat {
    if steps == [] then 0
    else
      var n := |steps| - 1;
      MarkedPushes(steps[..n], t) + if MarkedPush(steps[..n], steps[n], t) then 1 else 0
  }

  /** How often an action occurs in a run. */
  function Count(steps: seq<Action>, a: Action): nat {
    if steps == [] then 0
    else Count(steps[..|steps| - 1], a) + if steps[|steps| - 1] == a then 1 else 0
  }

  /** A thread on its way into the journal carries the address and the mark of its latest request. */
  ghost predicate CarriesRequest(steps: seq<Action>, pc: Pc, t: nat) {
    pc.Journalling? ==>
      && LatestRequest(steps, t).Some?
      && LatestRequest(steps, t).value.addr == pc.addr && LatestRequest(steps, t).value.eob == pc.eob
  }

  lemma CarriesRequestStep(c: Config, pre: seq<Action>, s: State, a: Action, t: nat)
    requires Enabled(s, a) && t < |s.threads| && CarriesRequest(pre, s.threads[t], t)
    ensures |Step(c, s, a).threads| == |s.threads| && CarriesRequest(pre + [a], Step(c, s, a).threads[t], t)
  {
    assert (pre + [a])[..|pre|] == pre;
  }

  function Waiting(pc: Pc): nat { if pc.Scheduling? then 1 else 0 }

  lemma WaitingStep(c: Config, s: State, a: Action, t: nat)
    requires Enabled(s, a) && t < |s.threads| && Step(c, s, a).fault != Overrun
    ensures |Step(c, s, a).threads| == |s.threads|
    ensures Waiting(Step(c, s, a).threads[t]) + (if a == TryLock(t) then 1 else 0) ==
            Waiting(s.threads[t])
            + (if a == Start(t) then 1 else 0)
            + (if a == Push(t) && s.threads[t].eob then 1 else 0)
  {
  }

  lemma CountsSnoc(pre: seq<Action>, a: Action, t: nat)
    ensures Count(pre + [a], TryLock(t)) == Count(pre, TryLock(t)) + if a == TryLock(t) then 1 else 0
    ensures Count(pre + [a], Start(t)) == Count(pre, Start(t)) + if a == Start(t) then 1 else 0
    ensures MarkedPushes(pre + [a], t) == MarkedPushes(pre, t) + if MarkedPush(pre, a, t) then 1 else 0
  {
    assert (pre + [a])[..|pre|] == pre;
  }

  /**
   In every interleaving, a thread has tried the lock of the output phase, or is about to,
   exactly once for each time it started the phase by itself and for each address it
   journalled with the mark. So a marked push always leads to the output phase, an
   unmarked one never, and a request that journals nothing never either.
   */
  lemma {:induction false} TriesAreOwed(c: Config, steps: seq<Action>, s: State, t: nat)
    requires Leads(c, Init(c), steps, s) && t < c.threads
    ensures |s.threads| == c.threads && CarriesRequest(steps, s.threads[t], t)
    ensures s.fault != Overrun ==>
              Count(steps, TryLock(t)) + (if s.threads[t].Scheduling? then 1 else 0) ==
              Count(steps, Start(t)) + MarkedPushes(steps, t)
    decreases |steps|
  {
    if steps != [] {
      var n := |steps| - 1;
      var mid: State :| Leads(c, Init(c), steps[..n], mid) && Enabled(mid, steps[n]) && s == Step(c, mid, steps[n]);
      TriesAreOwed(c, steps[..n], mid, t);
      assert steps == steps[..n] + [steps[n]];
      CarriesRequestStep(c, steps[..n], mid, steps[n], t);
      CountsSnoc(steps[..n], steps[n], t);
      if s.fault != Overrun { WaitingStep(c, mid, steps[n], t); }
    }
  }
}
