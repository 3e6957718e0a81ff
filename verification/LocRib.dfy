/** One Loc-RIB entry: what a producer and the consumer do to it inside the per-entry lock. */
module LocRib {
  import opened Basics
  import opened Grouping

  datatype Entry = Entry(head: Head, pushFlag: bool)

  const EMPTY_ENTRY := Entry(None, false)

  /** Does this request replace the head? Any two different tiebreak records favour the newcomer. */
  predicate Accepts(e: Entry, newRoute: Head, update: bool)
    requires update ==> newRoute.Some?
  {
    if update then e.head.None? || newRoute.value.tiebreak != e.head.value.tiebreak
    else e.head.Some? && e.head == newRoute
  }

  /** The locked region of `locrib`: the new entry, and whether the address must then enter the journal. */
  function Produce(e: Entry, newRoute: Head, update: bool): (Entry, bool)
    requires update ==> newRoute.Some?
  {
    if Accepts(e, newRoute, update) then (Entry(newRoute, true), !e.pushFlag) else (e, false)
  }

  /** Each address with the head it has in these entries. */
  function HeadsOf(addrs: seq<Addr>, entries: seq<Entry>): (ps: seq<Pair>)
    requires forall a <- addrs :: a < |entries|
    ensures |ps| == |addrs|
  {
    seq(|addrs|, i requires 0 <= i < |addrs| => assert addrs[i] in addrs; Pair(addrs[i], entries[addrs[i]].head))
  }

  /** What the listener heard last once these addresses have been announced with their heads. */
  lemma {:induction false} LastOfHeads(ps: seq<Pair>, addrs: seq<Addr>, entries: seq<Entry>, a: Addr)
    requires forall x <- addrs :: x < |entries|
    ensures LastAnnounced(ps + HeadsOf(addrs, entries), a)
         == if a in addrs then entries[a].head else LastAnnounced(ps, a)
  {
    if addrs == [] {
      assert ps + HeadsOf(addrs, entries) == ps;
    } else {
      var n := |addrs| - 1;
      assert addrs[n] in addrs && forall x <- addrs[..n] :: x in addrs;
      LastOfHeads(ps, addrs[..n], entries, a);
      assert (ps + HeadsOf(addrs, entries))[..|ps| + n] == ps + HeadsOf(addrs[..n], entries);
    }
  }

  /** A withdraw reaches `locrib` with a NULL route and therefore never matches an entry. */
  lemma WithdrawIsIgnored(e: Entry)
    ensures Produce(e, None, false) == (e, false)
  {
  }

  /** A withdraw that names the head leaves the head, sets the flag, and journals the address if the flag was clear. */
  lemma WithdrawKeepsHead(e: Entry, newRoute: Head)
    ensures var (after, push) := Produce(e, newRoute, false);
            && after.head == e.head
            && (newRoute.Some? && newRoute == e.head ==> after.pushFlag && push == !e.pushFlag)
            && (newRoute.None? || newRoute != e.head ==> after == e && !push)
  {
  }

  predicate SameTiebreak(a: Head, b: Head) {
    match (a, b)
    case (None, None) => true
    case (Some(r), Some(q)) => r.tiebreak == q.tiebreak
    case _ => false
  }
}
