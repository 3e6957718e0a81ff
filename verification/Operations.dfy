/**
 Operations of the peers in the order in which they happen, the steps of `World` that each
 takes, and what the operations alone say of every slot and every address.
 */
module Operations {
  import opened Basics
  import opened Pools
  import opened Grouping
  import opened LocRib
  import opened Requests
  import opened AdjRibIn
  import opened World

  /** What happens next: a route is allocated and read, put into a slot or taken out, or the output phase forced. */
  datatype Op =
    | Begin(peer: nat, size: nat, tiebreak: Tiebreak, attributes: seq<byte>)
    | Place(peer: nat, index: nat, eob: bool)
    | Withdraw(peer: nat, index: nat, eob: bool)
    | Force

  // ---------------------------------------------------------------- what the steps say

  /** The filling of the route of the message a peer is in: its last one, unless it has withdrawn something since. */
  function MessageFill(steps: seq<Step>, i: nat): (f: Option<Step>)
    ensures f.Some? ==> f.value.Fill? && f.value.peer == i && f.value.block != NULL
  {
    if steps == [] then None
    else
      var s := steps[|steps| - 1];
      if s.Fill? && s.peer == i then if s.block != NULL then Some(s) else None
      else if s.Put? && s.peer == i && s.block == NULL then None
      else MessageFill(steps[..|steps| - 1], i)
  }

  function MessageBlock(steps: seq<Step>, i: nat): nat {
    match MessageFill(steps, i) case None => NULL case Some(f) => f.block
  }

  function MessageRoute(steps: seq<Step>, i: nat): Head {
    match MessageFill(steps, i) case None => None case Some(f) => Some(f.route)
  }

  /** How many routes have been read. */
  function Fills(steps: seq<Step>): nat {
    if steps == [] then 0 else Fills(steps[..|steps| - 1]) + if steps[|steps| - 1].Fill? then 1 else 0
  }

  /** The route of the message that was the last to put into a slot; none if the last put emptied the slot. */
  function SlotRoute(steps: seq<Step>, i: nat, a: nat): Head {
    if steps == [] then None
    else
      var before, s := steps[..|steps| - 1], steps[|steps| - 1];
      if !s.Put? || s.peer != i || s.index != a then SlotRoute(before, i, a)
      else if s.block == NULL then None else MessageRoute(before, i)
  }

  /** The route of the message that was the last to announce an address, whoever's it was. */
  function LastRoute(steps: seq<Step>, a: nat): Head {
    if steps == [] then None
    else
      var before, s := steps[..|steps| - 1], steps[|steps| - 1];
      if s.Put? && s.index == a && s.block != NULL then MessageRoute(before, s.peer) else LastRoute(before, a)
  }

  /** Are these the steps that the operation takes after the steps `before`? */
  predicate DoneBy(op: Op, before: seq<Step>, steps: seq<Step>) {
    match op
    case Begin(i, _, t, octets) =>
      |steps| == 1 && steps[0].Fill? && steps[0].peer == i && steps[0].block != NULL
      && steps[0].route == Route(Fills(before), t, octets)
    case Place(i, a, eob) =>
      var f := MessageFill(before, i);
      f.Some? && (steps == [Put(i, a, eob, f.value.block)] || (eob && steps == [Put(i, a, eob, f.value.block), Flush]))
    case Withdraw(i, a, eob) => steps == [Put(i, a, eob, NULL)]
    case Force => steps == [Flush]
  }

  /** Are these the steps of operation after operation? */
  ghost predicate AllDoneBy(ops: seq<Op>, steps: seq<Step>)
    decreases |ops|
  {
    if ops == [] then steps == []
    else
      var n := |ops| - 1;
      exists k: nat ::
        k <= |steps| && AllDoneBy(ops[..n], steps[..k]) && DoneBy(ops[n], steps[..k], steps[k..])
  }

  lemma AllDoneNext(ops: seq<Op>, done: nat, steps: seq<Step>, more: seq<Step>)
    requires done < |ops| && AllDoneBy(ops[..done], steps) && DoneBy(ops[done], steps, more)
    ensures AllDoneBy(ops[..done + 1], steps + more)
  {
    assert ops[..done + 1][..done] == ops[..done];
    assert (steps + more)[..|steps|] == steps && (steps + more)[|steps|..] == more;
  }

  lemma StepsSnoc(steps: seq<Step>, s: Step)
    ensures (steps + [s])[..|steps|] == steps && Fills(steps + [s]) == Fills(steps) + if s.Fill? then 1 else 0
  {
  }

  // ---------------------------------------------------------------- what the steps say is so

  /** The slots hold, and the requests end with, the routes that the steps say. */
  ghost predicate Told(steps: seq<Step>, w: World) {
    && (forall i: nat, a: nat | i < |w.sides| && a < |w.sides[i].rib.slots| ::
          Held(w.contents, w.sides[i].rib.slots[a]) == SlotRoute(steps, i, a))
    && (forall a: nat :: NewWins(ReqsOf(w.log), a) == LastRoute(steps, a))
  }

  lemma FillTold(w: World, size: nat, peers: nat, steps: seq<Step>, s: Step)
    requires Inv(w, size, peers) && Enabled(w, s) && s.Fill? && Told(steps, w)
    ensures Told(steps + [s], Next(w, s))
  {
    var next := Next(w, s);
    StepsSnoc(steps, s);
    forall i: nat, a: nat | i < |next.sides| && a < |next.sides[i].rib.slots|
      ensures Held(next.contents, next.sides[i].rib.slots[a]) == SlotRoute(steps + [s], i, a)
    {
      var p := w.sides[i].rib.slots[a];
      assert p != NULL ==> p in w.sides[i].mine;
      assert p != NULL ==> InUse(w, p);
    }
    forall a: nat ensures NewWins(ReqsOf(next.log), a) == LastRoute(steps + [s], a) {}
  }

  lemma LastWins(w: World, steps: seq<Step>, s: Step, a: nat)
    requires Enabled(w, s) && s.Put? && s.index < |w.sides[s.peer].rib.slots|
    requires Held(w.contents, s.block) == (if s.block == NULL then None else MessageRoute(steps, s.peer))
    requires NewWins(ReqsOf(w.log), a) == LastRoute(steps, a)
    ensures NewWins(ReqsOf(Next(w, s).log), a) == LastRoute(steps + [s], a)
  {
    var asked := Request(w, s.peer, s.index, s.block);
    StepsSnoc(steps, s);
    if asked == [] {
      assert Next(w, s).log == w.log;
    } else {
      ReqsSnoc(w.log, asked[0]);
      assert (ReqsOf(w.log) + [asked[0].req])[..|w.log|] == ReqsOf(w.log);
    }
  }

  lemma PutTold(w: World, size: nat, peers: nat, steps: seq<Step>, s: Step)
    requires Inv(w, size, peers) && Enabled(w, s) && s.Put? && Told(steps, w)
    requires Held(w.contents, s.block) == (if s.block == NULL then None else MessageRoute(steps, s.peer))
    ensures Told(steps + [s], Next(w, s))
  {
    var next := Next(w, s);
    StepsSnoc(steps, s);
    forall i: nat, a: nat | i < |next.sides| && a < |next.sides[i].rib.slots|
      ensures Held(next.contents, next.sides[i].rib.slots[a]) == SlotRoute(steps + [s], i, a)
    {
      assert Held(w.contents, w.sides[i].rib.slots[a]) == SlotRoute(steps, i, a);
    }
    forall a: nat ensures NewWins(ReqsOf(next.log), a) == LastRoute(steps + [s], a) {
      LastWins(w, steps, s, a);
    }
  }

  lemma FlushTold(w: World, steps: seq<Step>)
    requires Enabled(w, Flush) && Told(steps, w)
    ensures Told(steps + [Flush], Next(w, Flush))
  {
    StepsSnoc(steps, Flush);
  }

  // ---------------------------------------------------------------- what the operations say

  /** What a message says of its prefixes. */
  datatype Sent = Sent(tiebreak: Tiebreak, attributes: seq<byte>)

  /** The message a peer is in. */
  function MessageOf(ops: seq<Op>, i: nat): Option<Sent> {
    if ops == [] then None
    else
      match ops[|ops| - 1]
      case Begin(j, _, t, octets) => if j == i then Some(Sent(t, octets)) else MessageOf(ops[..|ops| - 1], i)
      case Withdraw(j, _, _) => if j == i then None else MessageOf(ops[..|ops| - 1], i)
      case _ => MessageOf(ops[..|ops| - 1], i)
  }

  /** What a peer announced last for an address, unless it has withdrawn the address since. */
  function SentFor(ops: seq<Op>, i: nat, a: nat): Option<Sent> {
    if ops == [] then None
    else
      var before := ops[..|ops| - 1];
      match ops[|ops| - 1]
      case Place(j, b, _) => if j == i && b == a then MessageOf(before, i) else SentFor(before, i, a)
      case Withdraw(j, b, _) => if j == i && b == a then None else SentFor(before, i, a)
      case _ => SentFor(before, i, a)
  }

  /** What was announced last for an address, by any peer. */
  function LastSent(ops: seq<Op>, a: nat): Option<Sent> {
    if ops == [] then None
    else
      var before := ops[..|ops| - 1];
      match ops[|ops| - 1]
      case Place(j, b, _) => if b == a then MessageOf(before, j) else LastSent(before, a)
      case _ => LastSent(before, a)
  }

  /** A route that carries what was sent; none if nothing was. */
  predicate Carries(h: Head, sent: Option<Sent>) {
    match sent
    case None => h.None?
    case Some(m) => h.Some? && h.value.tiebreak == m.tiebreak && h.value.attributes == m.attributes
  }

  /** The steps and the operations say the same of the messages, the slots and the addresses. */
  ghost predicate Agree(ops: seq<Op>, steps: seq<Step>) {
    && (forall i: nat :: Carries(MessageRoute(steps, i), MessageOf(ops, i)))
    && (forall i: nat, a: nat :: Carries(SlotRoute(steps, i, a), SentFor(ops, i, a)))
    && (forall a: nat :: Carries(LastRoute(steps, a), LastSent(ops, a)))
  }

  lemma FlushAgree(ops: seq<Op>, steps: seq<Step>)
    requires Agree(ops, steps)
    ensures Agree(ops, steps + [Flush])
  {
    StepsSnoc(steps, Flush);
  }

  lemma MessageAgrees(ops: seq<Op>, steps: seq<Step>, op: Op, s: Step, i: nat)
    requires DoneBy(op, steps, [s]) && Carries(MessageRoute(steps, i), MessageOf(ops, i))
    ensures Carries(MessageRoute(steps + [s], i), MessageOf(ops + [op], i))
  {
    StepsSnoc(steps, s);
    assert (ops + [op])[..|ops|] == ops;
  }

  lemma SlotAgrees(ops: seq<Op>, steps: seq<Step>, op: Op, s: Step, i: nat, a: nat)
    requires DoneBy(op, steps, [s]) && Carries(MessageRoute(steps, i), MessageOf(ops, i))
    requires Carries(SlotRoute(steps, i, a), SentFor(ops, i, a))
    ensures Carries(SlotRoute(steps + [s], i, a), SentFor(ops + [op], i, a))
  {
    StepsSnoc(steps, s);
    assert (ops + [op])[..|ops|] == ops;
  }

  lemma LastAgrees(ops: seq<Op>, steps: seq<Step>, op: Op, s: Step, a: nat)
    requires DoneBy(op, steps, [s]) && Carries(LastRoute(steps, a), LastSent(ops, a))
    requires !op.Force? ==> Carries(MessageRoute(steps, op.peer), MessageOf(ops, op.peer))
    ensures Carries(LastRoute(steps + [s], a), LastSent(ops + [op], a))
  {
    StepsSnoc(steps, s);
    assert (ops + [op])[..|ops|] == ops;
  }

  lemma OneStepAgree(ops: seq<Op>, steps: seq<Step>, op: Op, s: Step)
    requires Agree(ops, steps) && DoneBy(op, steps, [s])
    ensures Agree(ops + [op], steps + [s])
  {
    forall i: nat ensures Carries(MessageRoute(steps + [s], i), MessageOf(ops + [op], i)) {
      MessageAgrees(ops, steps, op, s, i);
    }
    forall i: nat, a: nat ensures Carries(SlotRoute(steps + [s], i, a), SentFor(ops + [op], i, a)) {
      SlotAgrees(ops, steps, op, s, i, a);
    }
    forall a: nat ensures Carries(LastRoute(steps + [s], a), LastSent(ops + [op], a)) {
      LastAgrees(ops, steps, op, s, a);
    }
  }

  /** An operation is one step, or one step and the output phase. */
  lemma OneStepOrTwo(op: Op, before: seq<Step>, more: seq<Step>)
    requires DoneBy(op, before, more)
    ensures |more| >= 1 && DoneBy(op, before, [more[0]]) && (more == [more[0]] || more == [more[0], Flush])
  {
  }

  lemma OpAgree(ops: seq<Op>, steps: seq<Step>, op: Op, more: seq<Step>)
    requires Agree(ops, steps) && DoneBy(op, steps, more)
    ensures Agree(ops + [op], steps + more)
  {
    OneStepOrTwo(op, steps, more);
    OneStepAgree(ops, steps, op, more[0]);
    if |more| == 2 {
      FlushAgree(ops + [op], steps + [more[0]]);
      assert steps + more == steps + [more[0]] + [Flush];
    }
  }

  lemma LastOpAgree(ops: seq<Op>, steps: seq<Step>, k: nat)
    requires ops != [] && k <= |steps|
    requires Agree(ops[..|ops| - 1], steps[..k]) && DoneBy(ops[|ops| - 1], steps[..k], steps[k..])
    ensures Agree(ops, steps)
  {
    var n := |ops| - 1;
    OpAgree(ops[..n], steps[..k], ops[n], steps[k..]);
    assert ops == ops[..n] + [ops[n]] && steps == steps[..k] + steps[k..];
  }

  lemma NothingSaid()
    ensures Agree([], [])
  {
  }

  /** Whatever the operations were, their steps say the same of every message, slot and address. */
  lemma {:induction false} OpsTell(ops: seq<Op>, steps: seq<Step>)
    requires AllDoneBy(ops, steps)
    ensures Agree(ops, steps)
    decreases |ops|
  {
    if ops == [] {
      NothingSaid();
    } else {
      var n := |ops| - 1;
      var k: nat :| k <= |steps| && AllDoneBy(ops[..n], steps[..k]) && DoneBy(ops[n], steps[..k], steps[k..]);
      OpsTell(ops[..n], steps[..k]);
      LastOpAgree(ops, steps, k);
    }
  }
}
