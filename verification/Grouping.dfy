/**
 Routes, and the partition of a stream of (address, route) pairs into runs of
 equal routes that the output phase performs.
 */
module Grouping {
  import opened Basics

  /** The fields compared by the tie-breaker. */
  datatype Tiebreak = Tiebreak(
    localPref: uint32, pathLength: byte, origin: byte, med: uint32,
    ebgp: byte, igpMetric: uint32, bgpId: uint32, peerAddress: uint32)

  /** A route as the Loc-RIB sees it: an immutable value with its own identity. */
  datatype Route = Route(unique: nat, tiebreak: Tiebreak, attributes: seq<byte>)

  /** A Loc-RIB head; `None` is the NULL pointer. */
  type Head = Option<Route>

  type Addr = nat

  /** A run of addresses announced together with one route. */
  datatype Block = Block(route: Head, addrs: seq<Addr>)

  /** An address together with the head read for it. */
  datatype Pair = Pair(addr: Addr, head: Head)

  function Pairs(b: Block): (ps: seq<Pair>)
    ensures |ps| == |b.addrs|
  {
    seq(|b.addrs|, i requires 0 <= i < |b.addrs| => Pair(b.addrs[i], b.route))
  }

  /** A list of blocks that grows at its end. */
  datatype Blocks = Nothing | Then(init: Blocks, last: Block)

  /** What the listener hears: the announced pairs, block after block. */
  function Flatten(bs: Blocks): seq<Pair> {
    if bs.Nothing? then [] else Flatten(bs.init) + Pairs(bs.last)
  }

  function Concat(bs: Blocks, cs: Blocks): Blocks {
    if cs.Nothing? then bs else Then(Concat(bs, cs.init), cs.last)
  }

  /** Extends the last run when the route repeats and opens a new run otherwise. */
  function Append(bs: Blocks, p: Pair): Blocks {
    if bs.Then? && bs.last.route == p.head
    then Then(bs.init, Block(p.head, bs.last.addrs + [p.addr]))
    else Then(bs, Block(p.head, [p.addr]))
  }

  function GroupRuns(ps: seq<Pair>): Blocks {
    if ps == [] then Nothing else Append(GroupRuns(ps[..|ps| - 1]), ps[|ps| - 1])
  }

  /** Non-empty runs in which neighbours carry different routes: no run could be longer. */
  ghost predicate Maximal(bs: Blocks) {
    bs.Then? ==>
      && bs.last.addrs != []
      && (bs.init.Then? ==> bs.init.last.route != bs.last.route)
      && Maximal(bs.init)
  }

  ghost predicate RunsWithin(bs: Blocks, limit: nat) {
    bs.Then? ==> |bs.last.addrs| <= limit && RunsWithin(bs.init, limit)
  }

  lemma {:induction false} FlattenConcat(bs: Blocks, cs: Blocks)
    ensures Flatten(Concat(bs, cs)) == Flatten(bs) + Flatten(cs)
  {
    if cs.Then? {
      FlattenConcat(bs, cs.init);
    }
  }

  lemma {:induction false} RunsWithinConcat(bs: Blocks, cs: Blocks, limit: nat)
    ensures RunsWithin(Concat(bs, cs), limit) <==> RunsWithin(bs, limit) && RunsWithin(cs, limit)
  {
    if cs.Then? {
      RunsWithinConcat(bs, cs.init, limit);
    }
  }

  lemma GroupSnoc(ps: seq<Pair>, p: Pair)
    ensures GroupRuns(ps + [p]) == Append(GroupRuns(ps), p)
  {
    assert (ps + [p])[..|ps|] == ps;
  }

  lemma AppendFlatten(bs: Blocks, p: Pair)
    ensures Flatten(Append(bs, p)) == Flatten(bs) + [p]
  {
    if bs.Then? && bs.last.route == p.head {
      assert Pairs(Block(p.head, bs.last.addrs + [p.addr])) == Pairs(bs.last) + [p];
    } else {
      assert Pairs(Block(p.head, [p.addr])) == [p];
    }
  }

  /** The grouping loses, repeats and reorders nothing, and every run is maximal. */
  lemma {:induction false} GroupRunsPartitions(ps: seq<Pair>)
    ensures Flatten(GroupRuns(ps)) == ps
    ensures Maximal(GroupRuns(ps))
  {
    if ps != [] {
      var init, p := ps[..|ps| - 1], ps[|ps| - 1];
      GroupRunsPartitions(init);
      AppendFlatten(GroupRuns(init), p);
      assert ps == init + [p];
    }
  }

  /** There is only one partition into maximal runs, so `GroupRuns` is fully described by the two facts above. */
  lemma {:induction false} GroupRunsUnique(bs: Blocks)
    requires Maximal(bs)
    ensures GroupRuns(Flatten(bs)) == bs
    decreases |Flatten(bs)|
  {
    if bs.Then? {
      var b, n := bs.last, |bs.last.addrs| - 1;
      var p := Pair(b.addrs[n], b.route);
      var rest := if n == 0 then bs.init else Then(bs.init, Block(b.route, b.addrs[..n]));
      assert b.addrs == b.addrs[..n] + [p.addr];
      AppendFlatten(rest, p);
      GroupRunsUnique(rest);
      GroupSnoc(Flatten(rest), p);
    }
  }

  // ---------------------------------------------------------------- the length of runs

  /** Do more than n pairs from position i on carry one route? */
  ghost predicate Repeats(ps: seq<Pair>, i: nat, n: nat) {
    i + n < |ps| && forall j | i <= j <= i + n :: ps[j].head == ps[i].head
  }

  /** The last run is as long as the route of the last pair repeats. */
  lemma {:induction false} LastRun(ps: seq<Pair>)
    requires ps != []
    ensures var b := GroupRuns(ps).last;
            && GroupRuns(ps).Then? && 0 < |b.addrs| <= |ps| && b.route == ps[|ps| - 1].head
            && Repeats(ps, |ps| - |b.addrs|, |b.addrs| - 1)
            && (|b.addrs| < |ps| ==> ps[|ps| - |b.addrs| - 1].head != b.route)
  {
    var n := |ps| - 1;
    if n > 0 { LastRun(ps[..n]); }
  }

  /** All runs fit exactly if nowhere more pairs than the limit follow one another with one route. */
  lemma {:induction false} FitsExactly(ps: seq<Pair>, limit: nat)
    ensures RunsWithin(GroupRuns(ps), limit) <==> forall i: nat :: !Repeats(ps, i, limit)
  {
    if ps != [] {
      var n := |ps| - 1;
      FitsExactly(ps[..n], limit);
      LastRun(ps);
      forall i: nat ensures i + limit < n ==> (Repeats(ps[..n], i, limit) <==> Repeats(ps, i, limit)) {}
      var last := |GroupRuns(ps).last.addrs|;
      assert RunsWithin(GroupRuns(ps), limit) <==> RunsWithin(GroupRuns(ps[..n]), limit) && last <= limit;
      if last > limit {
        assert Repeats(ps, n - limit, limit);
      } else if n >= limit {
        assert ps[n - last].head != ps[n].head;
        assert !Repeats(ps, n - limit, limit);
      }
    }
  }

  /** The route last announced for an address; an address never announced is unreachable, like a NULL head. */
  function LastAnnounced(ps: seq<Pair>, a: Addr): Head {
    if ps == [] then None
    else if ps[|ps| - 1].addr == a then ps[|ps| - 1].head
    else LastAnnounced(ps[..|ps| - 1], a)
  }
}
