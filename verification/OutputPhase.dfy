/** The Loc-RIB, its journal and the output phase as one thread runs them. */
module OutputPhase {
  import opened Basics
  import opened Grouping
  import opened LocRib
  import opened Journal

  const INDEX_LIMIT: uint32 := 0x8000_0000
  const TABLE_SIZE: nat := 4096

  /** The entries after the flags of some addresses have been cleared. */
  function Cleared(entries: seq<Entry>, addrs: seq<uint32>): (es: seq<Entry>)
    ensures |es| == |entries|
  {
    seq(|entries|, i requires 0 <= i < |entries| => if i in addrs then entries[i].(pushFlag := false) else entries[i])
  }

  /** The journal holds exactly the addresses whose flag is set, each once. */
  ghost predicate Matches(entries: seq<Entry>, addrs: seq<uint32>) {
    && (forall a <- addrs :: a < |entries|)
    && Distinct(addrs)
    && (forall a: uint32 | a < |entries| :: entries[a].pushFlag <==> a in addrs)
  }

  lemma MatchesPush(entries: seq<Entry>, addrs: seq<uint32>, a: uint32, e: Entry)
    requires Matches(entries, addrs) && a < |entries| && e.pushFlag
    ensures Matches(entries[a := e], if entries[a].pushFlag then addrs else addrs + [a])
  {
  }

  /** An address whose flag is clear still fits into a journal with more slots than there are entries. */
  lemma RoomForOne(entries: seq<Entry>, addrs: seq<uint32>, a: uint32)
    requires Matches(entries, addrs) && a < |entries|
    ensures a !in addrs ==> |addrs| < |entries|
  {
    if a !in addrs {
      PigeonHole(addrs + [a], |entries|);
    }
  }

  lemma MatchesCleared(entries: seq<Entry>, addrs: seq<uint32>)
    requires Matches(entries, addrs)
    ensures Matches(Cleared(entries, addrs), [])
  {
  }

  lemma ClearedStep(entries: seq<Entry>, addrs: seq<uint32>, k: nat)
    requires k < |addrs| && addrs[k] < |entries|
    ensures Cleared(entries, addrs[..k])[addrs[k] := Cleared(entries, addrs[..k])[addrs[k]].(pushFlag := false)]
            == Cleared(entries, addrs[..k + 1])
    ensures Cleared(entries, addrs[..k])[addrs[k]].head == entries[addrs[k]].head
  {
    assert addrs[..k + 1] == addrs[..k] + [addrs[k]];
  }

  /**
   The runs of what has been read so far, in terms of the program's variables: `addrref` is
   read but not yet tabled.
   */
  function OpenRuns(done: Blocks, route1: Head, table: seq<uint32>, route2: Option<Head>, addrref: uint32): Blocks {
    match route2
    case None => Then(done, Block(route1, table))
    case Some(head) =>
      if head == route1 then Then(done, Block(route1, table + [addrref]))
      else Then(Then(done, Block(route1, table)), Block(head, [addrref]))
  }

  /** Tabling the address in hand and reading the next one extends the runs by what was read. */
  lemma RunsGrow(done: Blocks, route1: Head, table: seq<uint32>, addrref: uint32, route2: Option<Head>, next: uint32)
    ensures OpenRuns(done, route1, table + [addrref], route2, next) ==
            var runs := OpenRuns(done, route1, table, Some(route1), addrref);
            if route2.None? then runs else Append(runs, Pair(next, route2.value))
  {
  }

  /** The grouping of the first `k` pairs, by the position of the next one. */
  function GroupUpTo(ps: seq<Pair>, k: nat): Blocks
    requires k <= |ps|
  {
    if k == 0 then Nothing else Append(GroupUpTo(ps, k - 1), ps[k - 1])
  }

  lemma {:induction false} GroupUpToIsPrefix(ps: seq<Pair>, k: nat)
    requires k <= |ps|
    ensures GroupUpTo(ps, k) == GroupRuns(ps[..k])
  {
    if k > 0 {
      GroupUpToIsPrefix(ps, k - 1);
      assert ps[..k] == ps[..k - 1] + [ps[k - 1]];
      GroupSnoc(ps[..k - 1], ps[k - 1]);
    }
  }

  lemma {:induction false} LongRunRemains(ps: seq<Pair>, k: nat, m: nat)
    requires k <= m <= |ps| && !RunsWithin(GroupUpTo(ps, k), TABLE_SIZE)
    ensures !RunsWithin(GroupUpTo(ps, m), TABLE_SIZE)
    decreases m - k
  {
    if k < m {
      LongRunRemains(ps, k, m - 1);
    }
  }

  /**
   What serving a request makes of the entries, the journal, the announcements and their
   number, in each of its cases.
   */
  ghost predicate Outcome(es0: seq<Entry>, cs0: seq<uint32>, announced0: Blocks, propagated0: nat, capacity: nat,
                          a: uint32, newRoute: Head, update: bool, eob: bool,
                          ok: bool, es': seq<Entry>, cs': seq<uint32>, announced': Blocks, propagated': nat)
    requires a < |es0| && (update ==> newRoute.Some?)
  {
    var (e, push) := Produce(es0[a], newRoute, update);
    var es := es0[a := e];
    var cs := cs0 + if push then [a] else [];
    && Matches(es, cs)
    && if push && |cs| == capacity then !ok
       else if push && eob then
         && (ok <==> RunsWithin(GroupRuns(HeadsOf(cs, es)), TABLE_SIZE))
         && (ok ==> cs' == [] && es' == Cleared(es, cs))
         && (ok ==> announced' == Concat(announced0, GroupRuns(HeadsOf(cs, es))) && propagated' == propagated0 + |cs|)
       else
         ok && es' == es && cs' == cs && announced' == announced0 && propagated' == propagated0
  }

  class LocRibTable {
    const entries: array<Entry>
    const journal: Journal
    var announced: Blocks
    var propagated: nat

    ghost predicate Fits()
      reads this, journal, journal.ring
    {
      && journal.Valid()
      && entries.Length < INDEX_LIMIT
      && forall a <- journal.Contents() :: a < entries.Length
    }

    ghost predicate Valid()
      reads this, entries, journal, journal.ring
    {
      Fits() && Matches(entries[..], journal.Contents())
    }

    constructor (size: nat, capacity: nat)
      requires 0 < capacity && size < INDEX_LIMIT
      ensures Valid() && announced == Nothing && propagated == 0
      ensures entries.Length == size && forall a | 0 <= a < size :: entries[a] == EMPTY_ENTRY
      ensures fresh(entries) && fresh(journal) && fresh(journal.ring)
      ensures journal.ring.Length == capacity && journal.Contents() == []
    {
      entries := new Entry[size](_ => EMPTY_ENTRY);
      journal := new Journal(capacity);
      announced, propagated := Nothing, 0;
    }

    method ReadAndClear(a: uint32) returns (head: Head)
      requires a < entries.Length
      modifies entries
      ensures head == old(entries[a].head)
      ensures entries[..] == old(entries[..])[a := old(entries[a]).(pushFlag := false)]
    {
      entries[a] := entries[a].(pushFlag := false);
      head := entries[a].head;
    }

    /**
     Since the contents were `cs`, the entries `es` and their heads `ps`, the first `k`
     addresses have been pulled, read and cleared.
     */
    ghost predicate Progress(cs: seq<uint32>, es: seq<Entry>, ps: seq<Pair>, k: nat)
      reads this, entries, journal, journal.ring
    {
      && journal.Valid() && (forall a <- cs :: a < |es|) && ps == HeadsOf(cs, es)
      && k <= |cs| && journal.Contents() == cs[k..] && entries[..] == Cleared(es, cs[..k])
    }

    /** A pull followed by the read of what was pulled; the absent route is the EMPTY mark of the program. */
    method PullAndRead(ghost cs: seq<uint32>, ghost es: seq<Entry>, ghost ps: seq<Pair>, ghost k: nat)
      returns (addrref: uint32, route: Option<Head>)
      requires Progress(cs, es, ps, k)
      modifies journal`jread, entries
      ensures |ps| == |cs|
      ensures k == |cs| ==> addrref == JOURNAL_EMPTY && route == None && Progress(cs, es, ps, k)
      ensures k < |cs| ==>
                && addrref == cs[k] != JOURNAL_EMPTY && route == Some(ps[k].head)
                && Progress(cs, es, ps, k + 1)
    {
      ghost var before := journal.Contents();
      addrref := journal.Pull();
      route := None;
      if addrref != JOURNAL_EMPTY {
        assert addrref == before[0] == cs[k] && cs[k] in cs;
        ClearedStep(es, cs, k);
        var head := ReadAndClear(addrref);
        route := Some(head);
        assert cs[k + 1..] == cs[k..][1..];
      }
    }

    /** The inner loop: extends the run of `route1` until the route changes or the journal is empty. */
    method CollectRun(route1: Head, first: uint32, ghost cs: seq<uint32>, ghost es: seq<Entry>, ghost ps: seq<Pair>,
        ghost start: nat, ghost done: Blocks)
      returns (ok: bool, table: seq<uint32>, addrref: uint32, route2: Option<Head>, ghost k: nat)
      requires Progress(cs, es, ps, start) && 0 < start
      requires start <= |ps| && GroupUpTo(ps, start) == Then(done, Block(route1, [first]))
      modifies journal`jread, entries
      ensures start <= k <= |cs| == |ps| && Progress(cs, es, ps, k)
      ensures !ok ==> !RunsWithin(GroupUpTo(ps, k), TABLE_SIZE)
      ensures ok ==> GroupUpTo(ps, k) == OpenRuns(done, route1, table, route2, addrref)
      ensures ok ==> route2 != Some(route1) && 1 <= |table| <= TABLE_SIZE
      ensures ok && route2.None? ==> addrref == JOURNAL_EMPTY && k == |cs| && start + |table| == k + 1
      ensures ok && route2.Some? ==> addrref != JOURNAL_EMPTY && start < k && start + |table| == k
    {
      ok, table, addrref, route2, k := true, [], first, Some(route1), start;
      while route2 == Some(route1)
        invariant start <= k <= |cs| && Progress(cs, es, ps, k) && |table| <= TABLE_SIZE
        invariant GroupUpTo(ps, k) == OpenRuns(done, route1, table, route2, addrref)
        invariant route2 != Some(route1) ==> table != []
        invariant route2.None? ==> addrref == JOURNAL_EMPTY && k == |cs| && start + |table| == k + 1
        invariant route2.Some? ==> start + |table| == k
        invariant route2.Some? && table != [] ==> addrref != JOURNAL_EMPTY && start < k
        decreases |cs| - k + if route2.Some? then 1 else 0
      {
        if |table| >= TABLE_SIZE {
          ok := false;
          return;
        }
        ghost var before, last := table, addrref;
        table := table + [addrref];
        addrref, route2 := PullAndRead(cs, es, ps, k);
        RunsGrow(done, route1, before, last, route2, addrref);
        if k < |cs| {
          k := k + 1;
        }
      }
    }

    /** The outer loop: announces run after run of the journal contents `cs`. */
    method AnnounceRuns(ghost cs: seq<uint32>, ghost es: seq<Entry>, ghost ps: seq<Pair>) returns (ok: bool)
      requires Progress(cs, es, ps, 0)
      modifies this, journal`jread, entries
      ensures |ps| == |cs| && (ok ==> Progress(cs, es, ps, |cs|))
      ensures ok <==> RunsWithin(GroupUpTo(ps, |ps|), TABLE_SIZE)
      ensures ok ==> announced == Concat(old(announced), GroupUpTo(ps, |ps|))
      ensures ok ==> propagated == old(propagated) + |cs|
    {
      ghost var k, done := 0, Nothing;
      var addrref, route2 := PullAndRead(cs, es, ps, 0);
      if addrref != JOURNAL_EMPTY {
        k := 1;
      }
      while addrref != JOURNAL_EMPTY
        invariant k <= |cs| && Progress(cs, es, ps, k)
        invariant announced == Concat(old(announced), done) && RunsWithin(done, TABLE_SIZE)
        invariant addrref == JOURNAL_EMPTY ==>
                  k == |cs| && done == GroupUpTo(ps, k) && propagated == old(propagated) + k
        invariant addrref != JOURNAL_EMPTY ==>
            && k > 0 && route2.Some? && GroupUpTo(ps, k) == Then(done, Block(route2.value, [addrref]))
            && propagated + 1 == old(propagated) + k
        decreases |cs| - k + if addrref != JOURNAL_EMPTY then 1 else 0
      {
        var route1 := route2.value;
        var fits, table;
        ghost var n;
        fits, table, addrref, route2, n := CollectRun(route1, addrref, cs, es, ps, k, done);
        if !fits {
          LongRunRemains(ps, n, |ps|);
          return false;
        }
        propagated := propagated + |table|;
        announced := Then(announced, Block(route1, table));
        done, k := Then(done, Block(route1, table)), n;
      }
      ok := true;
    }

    /**
     One call of the output phase with nobody else running. `ok` is the outcome of the
     assertion on the address table: it fails exactly when some run does not fit, and
     otherwise the journal is drained and its maximal runs are announced.
     */
    method SchedulePhase3() returns (ok: bool)
      requires Valid()
      modifies this, journal`jread, entries
      ensures ok <==> old(RunsWithin(GroupRuns(HeadsOf(journal.Contents(), entries[..])), TABLE_SIZE))
      ensures ok ==> Valid() && journal.Contents() == []
      ensures ok ==> entries[..] == Cleared(old(entries[..]), old(journal.Contents()))
      ensures ok ==> announced == Concat(old(announced), old(GroupRuns(HeadsOf(journal.Contents(), entries[..]))))
      ensures ok ==> propagated == old(propagated) + old(|journal.Contents()|)
    {
      ghost var cs, es := journal.Contents(), entries[..];
      assert Cleared(es, cs[..0]) == es && cs[0..] == cs && cs[..|cs|] == cs;
      MatchesCleared(es, cs);
      ghost var ps := HeadsOf(cs, es);
      GroupUpToIsPrefix(ps, |ps|);
      assert ps[..|ps|] == ps;
      ok := AnnounceRuns(cs, es, ps);
    }

    /**
     Serves one request. The top bit of the address marks the last prefix of an UPDATE:
     a push made for it also runs the output phase. Nothing is pushed, and nothing run,
     when the head stays or the address is already in the journal. The result is false
     exactly where an assertion fails: a push finds the ring full, which cannot happen
     with fewer entries than slots, or a run exceeds the address table.
     */
    method Locrib(extended: uint32, newRoute: Head, update: bool) returns (ok: bool)
      requires Valid() && extended % INDEX_LIMIT < entries.Length && (update ==> newRoute.Some?)
      modifies this, journal, journal.ring, entries
      ensures ok ==> Valid()
      ensures Outcome(old(entries[..]), old(journal.Contents()), old(announced), old(propagated), journal.ring.Length,
                      extended % INDEX_LIMIT, newRoute, update, extended >= INDEX_LIMIT,
                      ok, entries[..], if ok then journal.Contents() else [], announced, propagated)
      ensures entries.Length < journal.ring.Length && extended < INDEX_LIMIT ==> ok
    {
      var addrref, eob := extended % INDEX_LIMIT, extended >= INDEX_LIMIT;
      var current := entries[addrref];
      var (e, push) := Produce(current, newRoute, update);
      ghost var es, cs := entries[..][addrref := e], journal.Contents();
      RoomForOne(entries[..], cs, addrref);
      if Accepts(current, newRoute, update) {
        MatchesPush(entries[..], cs, addrref, e);
      } else {
        assert es == entries[..];
      }
      entries[addrref] := e;
      ok := true;
      if push {
        ok := journal.Push(addrref);
        assert Matches(es, cs + [addrref]);
        if ok && eob {
          ok := SchedulePhase3();
        }
      }
    }
  }
}
