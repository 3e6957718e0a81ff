/**
 The Loc-RIB of `OutputPhase`, with its arrays and its ring, does what `World` says: its
 requests and its output phase are the steps `Put` and `Flush`, failures included. The
 arrays hold copies where the program holds pointers, so a route read into the block of a
 head changes what the entries show.
 */
module TableWorld {
  import opened Basics
  import opened Pools
  import opened Grouping
  import opened LocRib
  import opened Journal
  import opened OutputPhase
  import opened Requests
  import opened World
  import opened BlockRuns
  import opened WorldRuns
  import opened SerialRun

  /** The entries show what lies in the blocks of the heads; ring and announcements are the same. */
  ghost predicate Shows(table: LocRibTable, w: World)
    reads table, table.entries, table.journal, table.journal.ring
  {
    && table.Valid() && table.entries.Length < table.journal.ring.Length
    && |w.heads| == |w.flags| && table.entries[..] == Entries(w)
    && table.journal.Contents() == w.journal && table.announced == w.announced && !w.failed
  }

  lemma ClearedAll(w: World, cs: seq<uint32>)
    requires Readable(w) && Enabled(w, Flush) && RunsFit(w) && cs == w.journal && Matches(Entries(w), cs)
    requires |w.heads| < INDEX_LIMIT
    ensures Cleared(Entries(w), cs) == Entries(Next(w, Flush))
  {
    forall a: uint32 | a < |w.heads| ensures Cleared(Entries(w), cs)[a] == Entries(Next(w, Flush))[a] {
      assert Entries(w)[a].pushFlag <==> a in cs;
    }
  }

  /** The output phase: it fails exactly when the step does, and otherwise announces what the step says. */
  method FlushTable(table: LocRibTable, ghost w: World) returns (ok: bool)
    requires Shows(table, w) && Enabled(w, Flush)
    modifies table, table.journal`jread, table.entries
    ensures ok <==> !Next(w, Flush).failed
    ensures ok ==> Shows(table, Next(w, Flush))
  {
    ghost var cs := table.journal.Contents();
    ok := table.SchedulePhase3();
    if ok {
      ClearedAll(w, cs);
    }
  }

  /** A put makes of the entries and the journal what the locked region and the push make of them. */
  lemma PutShows(w: World, size: nat, peers: nat, s: Step)
    requires Inv(w, size, peers) && Enabled(w, s) && s.Put? && s.block != NULL
    ensures Readable(Next(w, s)) && |Next(w, s).heads| == size
    ensures var (e, push) := Produce(Entries(w)[s.index], Held(w.contents, s.block), true);
            && push == (Takes(w, s.index, s.block) && !w.flags[s.index])
            && Entries(Next(w, s)) == Entries(w)[s.index := e]
            && Next(w, s).journal == w.journal + if push then [s.index] else []
  {
    PutInv(w, size, peers, s);
    assert w.heads[s.index] in w.heads;
  }

  lemma WithdrawShows(w: World, size: nat, peers: nat, s: Step)
    requires Inv(w, size, peers) && Enabled(w, s) && s.Put? && s.block == NULL
    ensures Entries(Next(w, s)) == Entries(w) && Next(w, s).journal == w.journal
  {
  }

  /** Does this put journal the address, with the end-of-block mark? Then the output phase runs. */
  predicate Schedules(w: World, s: Step)
    requires s.Put? && s.index < |w.heads| == |w.flags|
  {
    s.eob && s.block != NULL && Takes(w, s.index, s.block) && !w.flags[s.index]
  }

  /** A put, and the output phase if the put schedules it. */
  ghost function PutAndFlush(w: World, s: Step): World
    requires s.Put? && Enabled(w, s) && Readable(Next(w, s))
  {
    if Schedules(w, s) then Next(Next(w, s), Flush) else Next(w, s)
  }

  /** The outcome of the method, in the terms of `World`. */
  lemma OutcomeIsPut(w: World, size: nat, peers: nat, s: Step, a: uint32, cs: seq<uint32>, route: Route, capacity: nat,
      p0: nat, ok: bool, es': seq<Entry>, cs': seq<uint32>, announced': Blocks, p': nat)
    requires Inv(w, size, peers) && Enabled(w, s) && s.Put? && s.block != NULL && s.index == a && size < INDEX_LIMIT
    requires Held(w.contents, s.block) == Some(route) && cs == w.journal && Matches(Entries(w), cs) && size < capacity
    requires Outcome(Entries(w), cs, w.announced, p0, capacity, a, Some(route), true, s.eob,
                     ok, es', cs', announced', p')
    ensures Readable(Next(w, s)) && (ok <==> !PutAndFlush(w, s).failed)
    ensures ok ==> var next := PutAndFlush(w, s);
                   |next.heads| == |next.flags| && es' == Entries(next) && cs' == next.journal
                   && announced' == next.announced
  {
    PutShows(w, size, peers, s);
    RoomForOne(Entries(w), cs, a);
    if ok && Schedules(w, s) {
      ClearedAll(Next(w, s), cs + [a]);
    }
  }

  /**
   Serving an announcement: the request and the output phase it schedules. With fewer
   addresses than ring slots it fails exactly when that output phase does.
   */
  method PutTable(table: LocRibTable, a: nat, eob: bool, route: Route, ghost w: World, ghost peers: nat, ghost s: Step)
    returns (ok: bool)
    requires Shows(table, w) && Inv(w, table.entries.Length, peers) && Enabled(w, s)
    requires s.Put? && s.index == a && s.eob == eob && s.block != NULL && Held(w.contents, s.block) == Some(route)
    modifies table, table.journal, table.journal.ring, table.entries
    ensures Readable(Next(w, s))
    ensures ok <==> !PutAndFlush(w, s).failed
    ensures ok ==> Shows(table, PutAndFlush(w, s))
  {
    ghost var cs, p0 := table.journal.Contents(), table.propagated;
    ok := table.Locrib(Extended(a, eob), Some(route), true);
    OutcomeIsPut(w, table.entries.Length, peers, s, a, cs, route, table.journal.ring.Length, p0, ok,
                 table.entries[..], if ok then table.journal.Contents() else [], table.announced, table.propagated);
  }

  /** A withdraw reaches the Loc-RIB without a route and changes nothing there. */
  method WithdrawTable(table: LocRibTable, a: nat, eob: bool, ghost w: World, ghost peers: nat, ghost s: Step)
    returns (ok: bool)
    requires Shows(table, w) && Inv(w, table.entries.Length, peers) && Enabled(w, s)
    requires s.Put? && s.index == a && s.eob == eob && s.block == NULL
    modifies table, table.journal, table.journal.ring, table.entries
    ensures ok && Shows(table, Next(w, s))
  {
    WithdrawShows(w, table.entries.Length, peers, s);
    WithdrawIsIgnored(table.entries[a]);
    ok := table.Locrib(Extended(a, eob), None, false);
  }

  /** A slot has got this block, or has been emptied; the Loc-RIB is called unless it was empty before. */
  method ServeTable(table: LocRibTable, contents: map<nat, Route>, a: nat, eob: bool, p: nat, had: bool,
      ghost w: World, ghost peers: nat, ghost s: Step)
    returns (ok: bool)
    requires Shows(table, w) && Inv(w, table.entries.Length, peers) && Enabled(w, s) && contents == w.contents
    requires s.Put? && s.index == a && s.eob == eob && s.block == p
    modifies table, table.journal, table.journal.ring, table.entries
    ensures Readable(Next(w, s))
    ensures ok <==> !PutAndFlush(w, s).failed
    ensures ok ==> Shows(table, PutAndFlush(w, s))
  {
    assert Readable(Next(w, s)) by { PutInv(w, table.entries.Length, peers, s); }
    if p != NULL {
      ok := PutTable(table, a, eob, contents[p], w, peers, s);
    } else if had {
      ok := WithdrawTable(table, a, eob, w, peers, s);
    } else {
      WithdrawShows(w, table.entries.Length, peers, s);
      ok := true;
    }
  }

  // ---------------------------------------------------------------- a route read into the block of a head

  /** What the entries show once another route has been read into the block where the one before lies. */
  function Refilled(es: seq<Entry>, before: Head, route: Route): (next: seq<Entry>)
    ensures |next| == |es|
  {
    seq(|es|, a requires 0 <= a < |es| =>
      if before.Some? && es[a].head == before then es[a].(head := Some(route)) else es[a])
  }

  lemma FillShows(w: World, size: nat, peers: nat, i: nat, p: nat, route: Route)
    requires Inv(w, size, peers) && Enabled(w, Fill(i, p, route)) && p != NULL
    ensures Entries(Next(w, Fill(i, p, route))) == Refilled(Entries(w), Held(w.contents, p), route)
  {
    HeadsShown(w, size, peers, p);
  }

  /** An entry shows what lies in a block exactly if the block is its head. */
  lemma HeadsShown(w: World, size: nat, peers: nat, p: nat)
    requires Inv(w, size, peers) && p != NULL
    ensures forall a: nat | a < size ::
              w.heads[a] == p <==> p in w.contents && Entries(w)[a].head == Held(w.contents, p)
  {
    forall a: nat | a < size
      ensures w.heads[a] == p <==> p in w.contents && Entries(w)[a].head == Held(w.contents, p)
    {
      assert w.heads[a] in w.heads;
    }
  }

  lemma RefilledMatches(es: seq<Entry>, before: Head, route: Route, addrs: seq<uint32>)
    requires Matches(es, addrs)
    ensures Matches(Refilled(es, before, route), addrs)
  {
  }

  /** All entries with this head show the new route. */
  method RefillTable(table: LocRibTable, before: Head, route: Route)
    requires table.Valid()
    modifies table.entries
    ensures table.Valid() && table.entries[..] == Refilled(old(table.entries[..]), before, route)
  {
    ghost var es, cs := table.entries[..], table.journal.Contents();
    var a := 0;
    while a < table.entries.Length
      invariant a <= table.entries.Length
      invariant forall b | 0 <= b < a :: table.entries[b] == Refilled(es, before, route)[b]
      invariant forall b | a <= b < table.entries.Length :: table.entries[b] == es[b]
    {
      if before.Some? && table.entries[a].head == before {
        table.entries[a] := table.entries[a].(head := Some(route));
      }
      a := a + 1;
    }
    RefilledMatches(es, before, route, cs);
    assert table.entries[..] == Refilled(es, before, route);
  }

  /** The guard, as a caller can check it on the entries and on what lies in the block. */
  predicate Allows(care: Care, es: seq<Entry>, before: Head, route: Route) {
    forall a | 0 <= a < |es| && before.Some? && es[a].head == before ::
      && (KeepsRecords(care) ==> before.value.tiebreak == route.tiebreak)
      && (KeepsRuns(care) ==> !es[a].pushFlag)
      && !care.NoHead?
  }

  lemma AllowsExactly(care: Care, w: World, size: nat, peers: nat, i: nat, p: nat, route: Route)
    requires Inv(w, size, peers) && p != NULL
    ensures Allows(care, Entries(w), Held(w.contents, p), route) <==> Guard(care, w, Fill(i, p, route))
  {
    HeadsShown(w, size, peers, p);
    if p in w.heads {
      var a: nat :| a < size && w.heads[a] == p;
      assert Entries(w)[a].head == Held(w.contents, p);
    }
    if !NotWaiting(w, Fill(i, p, route)) {
      var a :| a in Waiting(w, p);
      assert Entries(w)[a].head == Held(w.contents, p) && Entries(w)[a].pushFlag;
    }
    if Guard(care, w, Fill(i, p, route)) {
      forall a | 0 <= a < size && p in w.contents && Entries(w)[a].head == Held(w.contents, p)
        ensures w.heads[a] == p && (KeepsRuns(care) ==> !w.flags[a])
      {
        assert KeepsRuns(care) ==> a !in Waiting(w, p);
      }
    }
  }
}
